/** What every node of the rope's tree records about its text: byte length and newline count. */
module Metrics {
  import opened Utf8
  import opened TextLines
  import opened Summaries
  import opened Chunks

  datatype TextMetrics = TextMetrics(len: nat, lines: nat)
  {
    /** `TextMetrics::default()`: all zeros. */
    static function Default(): TextMetrics
    {
      TextMetrics(0, 0)
    }

    /** `impl Add for TextMetrics`. */
    function Add(other: TextMetrics): TextMetrics
    {
      TextMetrics(len + other.len, lines + other.lines)
    }

    /** `Summary::add_summary` for `TextMetrics`. */
    function AddSummary(other: TextMetrics): TextMetrics
    {
      TextMetrics(len + other.len, lines + other.lines)
    }
  }

  /** `add_summary` agrees with `Add` and is componentwise. */
  lemma AddSummaryIsAdd(a: TextMetrics, b: TextMetrics)
    ensures a.AddSummary(b) == a.Add(b)
    ensures a.AddSummary(b) == TextMetrics(a.len + b.len, a.lines + b.lines)
  {
  }

  /** The zero metrics are an identity on both sides, and `add_summary` is associative and commutative. */
  lemma TextMetricsLaws(a: TextMetrics, b: TextMetrics, c: TextMetrics)
    ensures TextMetrics.Default().AddSummary(a) == a && a.AddSummary(TextMetrics.Default()) == a
    ensures a.AddSummary(b).AddSummary(c) == a.AddSummary(b.AddSummary(c))
    ensures a.AddSummary(b) == b.AddSummary(a)
  {
  }

  /** `impl Item for Chunk`: a chunk is summarised by its byte length and its line count. */
  function ChunkSummary(c: Chunk): TextMetrics
  {
    TextMetrics(c.Len(), c.CountLines())
  }

  /** The metrics of a text are those of its UTF-8 encoding: its length and its newline bytes. */
  lemma ChunkSummaryOfEncoding(c: Chunk)
    ensures ChunkSummary(c) == TextMetrics(|Encode(c.text)|, CountByte(Encode(c.text), 10))
  {
    EncodeLength(c.text);
    CountLinesOfEncoding(c);
  }

  /** The summary of a concatenation is the sum of the parts' summaries; in particular across `split_at`. */
  lemma ChunkSummaryConcat(a: Chunk, b: Chunk)
    ensures ChunkSummary(Chunk(a.text + b.text)) == ChunkSummary(a).AddSummary(ChunkSummary(b))
  {
    var c := Chunk(a.text + b.text);
    LenAndLinesConcat(a, b, c);
    var x, y, z := ChunkSummary(c), ChunkSummary(a), ChunkSummary(b);
    assert x.len == y.len + z.len && x.lines == y.lines + z.lines;
    SumOfParts(x, y, z);
  }

  lemma LenAndLinesConcat(a: Chunk, b: Chunk, c: Chunk)
    requires c.text == a.text + b.text
    ensures c.Len() == a.Len() + b.Len() && c.CountLines() == a.CountLines() + b.CountLines()
  {
    ByteLenConcat(a.text, b.text);
    NewlineCountConcat(a.text, b.text);
  }

  lemma SumOfParts(x: TextMetrics, y: TextMetrics, z: TextMetrics)
    requires x.len == y.len + z.len && x.lines == y.lines + z.lines
    ensures x == y.AddSummary(z)
  {
  }

  lemma ChunkSummarySplit(c: Chunk, pos: nat)
    requires IsCharBoundary(c.text, pos)
    ensures ChunkSummary(c) == ChunkSummary(c.SplitAt(pos).0).AddSummary(ChunkSummary(c.SplitAt(pos).1))
  {
    ChunkSummaryConcat(c.SplitAt(pos).0, c.SplitAt(pos).1);
  }

  /** The summary record the rope's tree is built with. */
  function ChunkMonoid(): Monoid<Chunk, TextMetrics>
  {
    Monoid(ChunkSummary, (a: TextMetrics, b: TextMetrics) => a.AddSummary(b), TextMetrics.Default())
  }

  lemma ChunkMonoidLawful()
    ensures Lawful(ChunkMonoid())
  {
    var m := ChunkMonoid();
    forall a: TextMetrics, b: TextMetrics, c: TextMetrics
      ensures AssocAt(m, a, b, c)
    {
      TextMetricsLaws(a, b, c);
    }
    forall a: TextMetrics
      ensures m.combine(m.identity, a) == a && m.combine(a, m.identity) == a
    {
      TextMetricsLaws(a, a, a);
    }
  }
}
