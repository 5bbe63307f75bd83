/** `Offset`: a byte offset into the buffer, a newtype over `usize`. */
module Offsets {
  import opened Decimal

  datatype Offset = Offset(value: nat)
  {
    /** `Offset::new`, and `From<usize>`. */
    static function New(v: nat): (o: Offset)
      ensures o.value == v
    {
      Offset(v)
    }

    /** `Offset::zero`, equal to the derived `Default`. */
    static function Zero(): (o: Offset)
      ensures o.value == 0
      ensures forall p: Offset :: o.Le(p)
    {
      Offset(0)
    }

    /** `Offset::value`, and `From<Offset> for usize`. */
    function Value(): (v: nat)
      ensures New(v) == this
    {
      value
    }

    /** The derived `Ord`, which compares the wrapped values. */
    predicate Le(other: Offset)
    {
      value <= other.value
    }

    /** `Display`: the value in decimal. */
    function Display(): (r: seq<char>)
      ensures AllDigits(r) && ValueOf(r) == value
    {
      ValueOfDigits(value);
      Digits(value)
    }
  }

  /** Offsets order exactly as their values do, and that order is total. */
  lemma LeIsValueOrder(a: Offset, b: Offset)
    ensures a.Le(b) <==> a.Value() <= b.Value()
    ensures a.Le(b) && b.Le(a) ==> a == b
    ensures a.Le(b) || b.Le(a)
  {
  }
}
