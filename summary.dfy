/**
  Summaries cached by the aggregation tree. A Rust `Item` with its associated
  `Summary` type becomes a `Monoid` record: how an item is measured, how two
  summaries combine (`add_summary`) and the `Default` summary.
 */
module Summaries {

  datatype Monoid<!T, !S> = Monoid(measure: T -> S, combine: (S, S) -> S, identity: S)

  /** The laws the tree relies on: `add_summary` is associative and `Default` is its identity. */
  ghost predicate Lawful<T, S(!new)>(m: Monoid<T, S>)
  {
    && (forall a: S, b: S, c: S :: AssocAt(m, a, b, c))
    && (forall a: S :: m.combine(m.identity, a) == a && m.combine(a, m.identity) == a)
  }

  /** Associativity at one triple; proofs name the triple they need. */
  ghost predicate AssocAt<T, S>(m: Monoid<T, S>, a: S, b: S, c: S)
  {
    m.combine(m.combine(a, b), c) == m.combine(a, m.combine(b, c))
  }

  /** A plain count (the `value` of `Count`). */
  datatype Count = Count(value: nat)
  {
    /** `Count::default()`. */
    static function Default(): Count
    {
      Count(0)
    }

    /** `impl Add for Count`. */
    function Add(other: Count): Count
    {
      Count(value + other.value)
    }

    /** `Summary::add_summary` for `Count`. */
    function AddSummary(other: Count): Count
    {
      Count(value + other.value)
    }
  }

  /** `add_summary` agrees with `Add` and adds the values. */
  lemma CountAddSummary(a: Count, b: Count)
    ensures a.AddSummary(b) == a.Add(b)
    ensures a.AddSummary(b).value == a.value + b.value
  {
  }

  /** `add_summary` on `Count` is associative and commutative, with `Default` as identity on both sides. */
  lemma CountLaws(a: Count, b: Count, c: Count)
    ensures a.AddSummary(b).AddSummary(c) == a.AddSummary(b.AddSummary(c))
    ensures a.AddSummary(b) == b.AddSummary(a)
    ensures Count.Default().AddSummary(a) == a && a.AddSummary(Count.Default()) == a
  {
  }

  /** Byte length and line count of a text. */
  datatype TextSummary = TextSummary(len: nat, lines: nat)
  {
    /** `TextSummary::default()`: all zeros. */
    static function Default(): TextSummary
    {
      TextSummary(0, 0)
    }

    /** `impl Add for TextSummary`. */
    function Add(other: TextSummary): TextSummary
    {
      TextSummary(len + other.len, lines + other.lines)
    }

    /** `Summary::add_summary` for `TextSummary`. */
    function AddSummary(other: TextSummary): TextSummary
    {
      TextSummary(len + other.len, lines + other.lines)
    }
  }

  /** `add_summary` agrees with `Add` and is componentwise. */
  lemma TextSummaryAddSummary(a: TextSummary, b: TextSummary)
    ensures a.AddSummary(b) == a.Add(b)
    ensures a.AddSummary(b).len == a.len + b.len && a.AddSummary(b).lines == a.lines + b.lines
  {
  }

  /** `add_summary` on `TextSummary` is associative and commutative, with `Default` as identity on both sides. */
  lemma TextSummaryLaws(a: TextSummary, b: TextSummary, c: TextSummary)
    ensures a.AddSummary(b).AddSummary(c) == a.AddSummary(b.AddSummary(c))
    ensures a.AddSummary(b) == b.AddSummary(a)
    ensures TextSummary.Default().AddSummary(a) == a && a.AddSummary(TextSummary.Default()) == a
  {
  }

  /** Items measured by a count, as a number summarised by `Count { value }`. */
  function CountMonoid(): Monoid<nat, Count>
  {
    Monoid((v: nat) => Count(v), (a: Count, b: Count) => a.AddSummary(b), Count.Default())
  }

  lemma CountMonoidLawful()
    ensures Lawful(CountMonoid())
  {
    var m := CountMonoid();
    forall a: Count, b: Count, c: Count
      ensures AssocAt(m, a, b, c)
    {
      CountLaws(a, b, c);
    }
    forall a: Count
      ensures m.combine(m.identity, a) == a && m.combine(a, m.identity) == a
    {
      CountLaws(a, a, a);
    }
  }
}
