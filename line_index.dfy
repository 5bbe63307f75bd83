/**
  The lazy line index: the byte offsets of line starts discovered so far, by
  scanning pieces of a file in order, and whether the whole file has been
  scanned.
 */
module LineIndexes {
  import opened Options
  import opened Utf8
  import opened TextLines

  /**
    The line starts `index_range(text, base)` discovers: one past every
    `'\n'` of `text`, counted from the byte offset `base`, in order.
   */
  function NewlineEnds(text: seq<char>, base: nat): seq<nat>
  {
    if text == [] then []
    else NewlineEnds(text[..|text| - 1], base) + (if text[|text| - 1] == '\n' then [base + ByteLen(text)] else [])
  }

  predicate StrictlyAscending(s: seq<nat>)
  {
    forall i, j :: 0 <= i < j < |s| ==> s[i] < s[j]
  }

  /** Splitting off the last character of a text. */
  lemma Unsnoc(text: seq<char>)
    requires text != []
    ensures var n := |text| - 1;
      && text == text[..n] + [text[n]]
      && ByteLen(text) == ByteLen(text[..n]) + CharWidth(text[n])
      && NewlineCount(text) == NewlineCount(text[..n]) + (if text[n] == '\n' then 1 else 0)
  {
    var n := |text| - 1;
    assert text == text[..n] + [text[n]];
    ByteLenConcat(text[..n], [text[n]]);
    NewlineCountConcat(text[..n], [text[n]]);
  }

  /**
    The discovered starts are the newline count in number, ascending, after
    `base` and no further than the end of the text.
   */
  lemma {:induction false} NewlineEndsBounds(text: seq<char>, base: nat)
    ensures |NewlineEnds(text, base)| == NewlineCount(text)
    ensures StrictlyAscending(NewlineEnds(text, base))
    ensures forall i :: 0 <= i < |NewlineEnds(text, base)| ==> base < NewlineEnds(text, base)[i] <= base + ByteLen(text)
  {
    if text != [] {
      var n := |text| - 1;
      Unsnoc(text);
      NewlineEndsBounds(text[..n], base);
    }
  }

  /** Start `k` found in a text is where `line_to_byte` says line `k + 1` starts. */
  lemma {:induction false} NewlineEndsAreLineStarts(text: seq<char>, base: nat, k: nat)
    requires k < NewlineCount(text)
    ensures |NewlineEnds(text, base)| == NewlineCount(text)
    ensures NewlineEnds(text, base)[k] == base + LineToByte(text, k + 1)
  {
    NewlineEndsBounds(text, base);
    var n := |text| - 1;
    var front := text[..n];
    Unsnoc(text);
    NewlineEndsBounds(front, base);
    if k < NewlineCount(front) {
      NewlineEndsAreLineStarts(front, base, k);
      LineToByteInFirst(front, [text[n]], k + 1);
    } else {
      LineToByteInSecond(front, [text[n]], k + 1, 1);
      assert LineStart([text[n]], 1) == 1;
      assert [text[n]][..1] == [text[n]];
      ByteLenConcat(front, [text[n]]);
    }
  }

  /** Scanning two pieces one after the other finds what scanning them as one text finds. */
  lemma {:induction false} NewlineEndsConcat(a: seq<char>, b: seq<char>, base: nat)
    ensures NewlineEnds(a + b, base) == NewlineEnds(a, base) + NewlineEnds(b, base + ByteLen(a))
  {
    if b == [] {
      assert a + b == a;
    } else {
      var n := |b| - 1;
      assert (a + b)[..|a + b| - 1] == a + b[..n];
      NewlineEndsConcat(a, b[..n], base);
      ByteLenConcat(a, b);
    }
  }

  class LineIndex {
    var offsets: seq<nat>
    var fileSize: nat
    var fullyIndexed: bool

    /** `LineIndex::new`: line 0 starts at 0, nothing else known yet. */
    constructor (fileSize: nat)
      ensures offsets == [0] && this.fileSize == fileSize && !fullyIndexed
    {
      offsets := [0];
      this.fileSize := fileSize;
      fullyIndexed := false;
    }

    /** `known_line_count`: one per recorded line start. */
    function KnownLineCount(): (n: nat)
      reads this
      ensures n == |offsets|
    {
      |offsets|
    }

    /** `is_fully_indexed`: whether the scan has reached the file size. */
    function IsFullyIndexed(): (b: bool)
      reads this
      ensures b <==> fullyIndexed
    {
      fullyIndexed
    }

    /** `add_line`. */
    method AddLine(byteOffset: nat)
      modifies this
      ensures offsets == old(offsets) + [byteOffset]
      ensures fileSize == old(fileSize) && fullyIndexed == old(fullyIndexed)
    {
      offsets := offsets + [byteOffset];
    }

    /** `mark_complete`. */
    method MarkComplete()
      modifies this
      ensures fullyIndexed && offsets == old(offsets) && fileSize == old(fileSize)
    {
      fullyIndexed := true;
    }

    /** `line_offset`: the start of a known line, nothing past the known lines. */
    function LineOffset(lineIdx: nat): (r: Option<nat>)
      reads this
      ensures r.Some? <==> lineIdx < KnownLineCount()
      ensures r.Some? ==> r.value == offsets[lineIdx]
    {
      if lineIdx < |offsets| then Some(offsets[lineIdx]) else None
    }

    /** `line_range`: a known line runs to the next known start, or to the end of the file after the last one. */
    function LineRange(lineIdx: nat): (r: Option<(nat, nat)>)
      reads this
      ensures r.Some? <==> LineOffset(lineIdx).Some?
      ensures r.Some? ==> r.value.0 == offsets[lineIdx]
      ensures r.Some? && lineIdx + 1 < KnownLineCount() ==> r.value.1 == offsets[lineIdx + 1]
      ensures r.Some? && lineIdx + 1 == KnownLineCount() ==> r.value.1 == fileSize
    {
      match LineOffset(lineIdx)
      case None => None
      case Some(start) =>
        var end := match LineOffset(lineIdx + 1) case Some(e) => e case None => fileSize;
        Some((start, end))
    }

    /**
      `index_range`: walk the characters of `text` from byte `startOffset`,
      recording the start after each newline; reaching the file size marks the
      index complete.
     */
    method IndexRange(text: seq<char>, startOffset: nat)
      modifies this
      ensures offsets == old(offsets) + NewlineEnds(text, startOffset)
      ensures fullyIndexed == (old(fullyIndexed) || startOffset + ByteLen(text) >= fileSize)
      ensures fileSize == old(fileSize)
    {
      var currentOffset := startOffset;
      var j := 0;
      while j < |text|
        invariant j <= |text|
        invariant currentOffset == startOffset + ByteLen(text[..j])
        invariant offsets == old(offsets) + NewlineEnds(text[..j], startOffset)
        invariant fileSize == old(fileSize) && fullyIndexed == old(fullyIndexed)
      {
        var ch := text[j];
        ByteLenSnoc(text, j);
        assert text[..j + 1][..j] == text[..j];
        if ch == '\n' {
          AddLine(currentOffset + CharWidth(ch));
        }
        currentOffset := currentOffset + CharWidth(ch);
        j := j + 1;
      }
      assert text[..j] == text;
      if currentOffset >= fileSize {
        MarkComplete();
      }
    }
  }

  /** The progressive indexer: the index and how many bytes have been fed to it. */
  class ProgressiveIndexer {
    var index: LineIndex
    var bytesIndexed: nat

    /** The starts recorded so far begin at 0, ascend, and lie within the bytes fed. */
    ghost predicate Valid()
      reads this, index
    {
      && |index.offsets| > 0 && index.offsets[0] == 0
      && StrictlyAscending(index.offsets)
      && forall i :: 0 <= i < |index.offsets| ==> index.offsets[i] <= bytesIndexed
    }

    /** `ProgressiveIndexer::new`: a fresh index and nothing fed. */
    constructor (fileSize: nat)
      ensures Valid() && fresh(index) && bytesIndexed == 0
      ensures index.offsets == [0] && index.fileSize == fileSize && !index.fullyIndexed
    {
      index := new LineIndex(fileSize);
      bytesIndexed := 0;
    }

    /**
      `index_chunk`: the chunk is scanned from the bytes fed so far, the count
      advances by its length, and the answer is whether the index is complete.
      A complete index stays complete.
     */
    method IndexChunk(chunk: seq<char>) returns (complete: bool)
      requires Valid()
      modifies this, index
      ensures Valid() && index == old(index)
      ensures index.offsets == old(index.offsets) + NewlineEnds(chunk, old(bytesIndexed))
      ensures bytesIndexed == old(bytesIndexed) + ByteLen(chunk)
      ensures index.fileSize == old(index.fileSize)
      ensures complete == index.fullyIndexed
      ensures complete <==> old(index.fullyIndexed) || bytesIndexed >= index.fileSize
    {
      var chunkStart := bytesIndexed;
      ghost var before := index.offsets;
      index.IndexRange(chunk, chunkStart);
      bytesIndexed := bytesIndexed + ByteLen(chunk);
      NewlineEndsBounds(chunk, chunkStart);
      AppendAscending(before, NewlineEnds(chunk, chunkStart), chunkStart, bytesIndexed);
      complete := index.IsFullyIndexed();
    }

    /** `is_complete`: the index's own completeness flag. */
    function IsComplete(): (b: bool)
      reads this, index
      ensures b <==> index.fullyIndexed
    {
      index.IsFullyIndexed()
    }
  }

  /** Starts at or below `mid` followed by ascending starts above it, all within `top`, still ascend. */
  lemma AppendAscending(a: seq<nat>, b: seq<nat>, mid: nat, top: nat)
    requires StrictlyAscending(a) && StrictlyAscending(b) && mid <= top
    requires forall i :: 0 <= i < |a| ==> a[i] <= mid
    requires forall i :: 0 <= i < |b| ==> mid < b[i] <= top
    ensures StrictlyAscending(a + b)
    ensures forall i :: 0 <= i < |a + b| ==> (a + b)[i] <= top
  {
  }
}
