/** `Point`: a 0-indexed (row, column) position, ordered row first. */
module Points {
  import opened Options
  import opened Decimal

  /** Rust's `std::cmp::Ordering`. */
  datatype Ordering = Less | Equal | Greater
  {
    /** `Ordering::then`: this ordering, or `other` when this one is `Equal`. */
    function Then(other: Ordering): Ordering
    {
      if this == Equal then other else this
    }

    /** `Ordering::reverse`. */
    function Reverse(): Ordering
    {
      match this
      case Less => Greater
      case Equal => Equal
      case Greater => Less
    }
  }

  /** `usize::cmp`. */
  function CmpNat(a: nat, b: nat): (o: Ordering)
    ensures o == Less <==> a < b
    ensures o == Equal <==> a == b
    ensures o == Greater <==> a > b
  {
    if a < b then Less else if a == b then Equal else Greater
  }

  datatype Point = Point(row: nat, column: nat)
  {
    /** `Point::new`. */
    static function New(row: nat, column: nat): (p: Point)
      ensures p.row == row && p.column == column
    {
      Point(row, column)
    }

    /** `Point::zero` (also the derived `Default`): the origin, below every other point. */
    static function Zero(): (p: Point)
      ensures p == New(0, 0)
      ensures forall q: Point :: p.Le(q)
    {
      Point(0, 0)
    }

    /** `Ord::cmp`: rows are compared first and columns break a tie. */
    function Cmp(other: Point): (o: Ordering)
      ensures o == Less <==> row < other.row || (row == other.row && column < other.column)
      ensures o == Equal <==> this == other
      ensures o == Greater <==> row > other.row || (row == other.row && column > other.column)
    {
      CmpNat(row, other.row).Then(CmpNat(column, other.column))
    }

    /** `<=` through `PartialOrd`, which defers to `cmp`. */
    predicate Le(other: Point)
    {
      Cmp(other) != Greater
    }

    /** `Display`: the 1-indexed form `row+1:column+1`. */
    function Display(): (r: seq<char>)
      ensures ParseDisplay(r) == Some(this)
    {
      DisplayRoundTrip(this);
      Digits(row + 1) + [':'] + Digits(column + 1)
    }
  }

  /** Reading a `row:column` rendering back into the 0-indexed point it shows. */
  function ParseDisplay(s: seq<char>): Option<Point>
  {
    var i := ColonIndex(s);
    if i == |s| || !AllDigits(s[..i]) || !AllDigits(s[i + 1..]) then None
    else
      var r, c := ValueOf(s[..i]), ValueOf(s[i + 1..]);
      if r == 0 || c == 0 then None else Some(Point(r - 1, c - 1))
  }

  /** Index of the first `':'` in `s`, or `|s|` if there is none. */
  function ColonIndex(s: seq<char>): (i: nat)
    ensures i <= |s| && (i < |s| ==> s[i] == ':')
    ensures forall j :: 0 <= j < i ==> s[j] != ':'
  {
    if s == [] || s[0] == ':' then 0 else 1 + ColonIndex(s[1..])
  }

  lemma DisplayRoundTrip(p: Point)
    ensures ParseDisplay(Digits(p.row + 1) + [':'] + Digits(p.column + 1)) == Some(p)
  {
    var a, b := Digits(p.row + 1), Digits(p.column + 1);
    var s := a + [':'] + b;
    ColonAfterDigits(a, b);
    assert s[..|a|] == a && s[|a| + 1..] == b;
    ValueOfDigits(p.row + 1);
    ValueOfDigits(p.column + 1);
  }

  lemma ColonAfterDigits(a: seq<char>, b: seq<char>)
    requires AllDigits(a)
    ensures ColonIndex(a + [':'] + b) == |a|
  {
    var s := a + [':'] + b;
    assert s[|a|] == ':';
    assert forall j :: 0 <= j < |a| ==> s[j] == a[j];
  }

  /** `cmp` with the arguments swapped is the reversed ordering. */
  lemma CmpAntisymmetric(a: Point, b: Point)
    ensures b.Cmp(a) == a.Cmp(b).Reverse()
  {
  }

  /** The order is a total order whose equality is the derived `PartialEq`. */
  lemma LeTotalOrder(a: Point, b: Point, c: Point)
    ensures a.Le(a)
    ensures a.Le(b) && b.Le(a) ==> a == b
    ensures a.Le(b) && b.Le(c) ==> a.Le(c)
    ensures a.Le(b) || b.Le(a)
  {
  }
}
