/**
  The rope: text kept as a sequence of chunks, aligned to character boundaries,
  in a summary tree whose nodes cache byte length and newline count. Queries walk
  the chunks in order; edits rebuild the rope below one megabyte and splice chunks
  above that.
 */
module Ropes {
  import opened Options
  import opened Utf8
  import opened TextLines
  import opened Summaries
  import opened SumTrees
  import opened Chunks
  import opened Metrics
  import opened Edits

  /** `Rope::CHUNK_SIZE`: the byte length a chunk is cut at (then moved on to a boundary). */
  const ChunkSize: nat := 1024

  /** Ropes at least this many bytes long are edited by splicing chunks instead of rebuilding. */
  const LargeRope: nat := 1_000_000

  /** The text a sequence of chunks spells. */
  function Flatten(cs: seq<Chunk>): seq<char>
  {
    if cs == [] then [] else cs[0].text + Flatten(cs[1..])
  }

  lemma {:induction false} FlattenConcat(a: seq<Chunk>, b: seq<Chunk>)
    ensures Flatten(a + b) == Flatten(a) + Flatten(b)
  {
    if a == [] {
      assert a + b == b;
    } else {
      assert (a + b)[1..] == a[1..] + b;
      FlattenConcat(a[1..], b);
    }
  }

  lemma FlattenFirst(cs: seq<Chunk>)
    requires cs != []
    ensures Flatten(cs) == cs[0].text + Flatten(cs[1..])
  {
  }

  /** One step of a walk over the chunks: the text read so far, the chunk just yielded, and the chunks still to come. */
  lemma Advance(s: seq<char>, done: seq<char>, remaining: seq<Chunk>, next: seq<Chunk>)
    requires remaining != [] && next == remaining[1..] && s == done + Flatten(remaining)
    ensures s == done + (remaining[0].text + Flatten(next))
    ensures s == done + remaining[0].text + Flatten(next)
  {
    FlattenFirst(remaining);
    Regroup3(done, remaining[0].text, Flatten(next));
  }

  /** `Advance` for a walk that tracks the character index `base` where the chunk just yielded starts. */
  lemma AdvanceAt(s: seq<char>, base: nat, remaining: seq<Chunk>, next: seq<Chunk>)
    requires remaining != [] && next == remaining[1..] && base <= |s| && s[base..] == Flatten(remaining)
    ensures base + |remaining[0].text| <= |s| && s[base..base + |remaining[0].text|] == remaining[0].text
    ensures s[base + |remaining[0].text|..] == Flatten(next)
    ensures s[..base + |remaining[0].text|] == s[..base] + remaining[0].text
    ensures ByteLen(s[..base + |remaining[0].text|]) == ByteLen(s[..base]) + ByteLen(remaining[0].text)
    ensures NewlineCount(s[..base + |remaining[0].text|]) == NewlineCount(s[..base]) + NewlineCount(remaining[0].text)
  {
    FlattenFirst(remaining);
    PieceAt(s, base, remaining[0].text, Flatten(next));
  }

  lemma Regroup3(a: seq<char>, b: seq<char>, c: seq<char>)
    ensures a + (b + c) == a + b + c
  {
  }

  lemma FlattenSnoc(cs: seq<Chunk>, i: nat)
    requires i < |cs|
    ensures Flatten(cs[..i + 1]) == Flatten(cs[..i]) + cs[i].text
  {
    assert cs[..i + 1] == cs[..i] + [cs[i]];
    FlattenConcat(cs[..i], [cs[i]]);
    assert [cs[i]][1..] == [];
  }

  /** Chunk `i` sits in the text right after the chunks before it. */
  lemma FlattenSplit(cs: seq<Chunk>, i: nat)
    requires i < |cs|
    ensures Flatten(cs) == Flatten(cs[..i]) + cs[i].text + Flatten(cs[i + 1..])
    ensures Flatten(cs) == Flatten(cs[..i]) + (cs[i].text + Flatten(cs[i + 1..]))
  {
    var tail := [cs[i]] + cs[i + 1..];
    CutAt(cs, i);
    FlattenConcat(cs[..i], tail);
    FlattenCons(cs[i], cs[i + 1..]);
    Regroup3(Flatten(cs[..i]), cs[i].text, Flatten(cs[i + 1..]));
  }

  lemma CutAt(cs: seq<Chunk>, i: nat)
    requires i < |cs|
    ensures cs == cs[..i] + ([cs[i]] + cs[i + 1..])
  {
  }

  lemma FlattenCons(c: Chunk, cs: seq<Chunk>)
    ensures Flatten([c] + cs) == c.text + Flatten(cs)
  {
    assert ([c] + cs)[1..] == cs;
  }

  /** The summary the tree caches is the byte length and newline count of the whole text. */
  lemma {:induction false} FoldIsMetrics(cs: seq<Chunk>)
    ensures Fold(ChunkMonoid(), cs) == TextMetrics(ByteLen(Flatten(cs)), NewlineCount(Flatten(cs)))
  {
    var m := ChunkMonoid();
    if cs == [] {
      assert Flatten(cs) == [];
    } else {
      var rest := Flatten(cs[1..]);
      FoldIsMetrics(cs[1..]);
      ByteLenConcat(cs[0].text, rest);
      NewlineCountConcat(cs[0].text, rest);
      assert Fold(m, cs) == m.combine(m.measure(cs[0]), Fold(m, cs[1..]));
      assert m.measure(cs[0]) == TextMetrics(ByteLen(cs[0].text), NewlineCount(cs[0].text));
      assert Flatten(cs) == cs[0].text + rest;
    }
  }

  /** The shape `from_text` gives every chunk: non-empty and at most `ChunkSize + 3` bytes. */
  ghost predicate ChunksOk(cs: seq<Chunk>)
  {
    forall i :: 0 <= i < |cs| ==> cs[i].text != [] && cs[i].Len() <= ChunkSize + 3
  }

  /** With non-empty chunks the text is empty exactly when there are no chunks. */
  lemma FlattenEmpty(cs: seq<Chunk>)
    requires ChunksOk(cs)
    ensures Flatten(cs) == [] <==> cs == []
  {
  }

  /** Every chunk starts and ends on a character boundary of the text. */
  lemma ChunkBoundaries(cs: seq<Chunk>, i: nat)
    requires i <= |cs|
    ensures IsCharBoundary(Flatten(cs), ByteLen(Flatten(cs[..i])))
  {
    assert cs == cs[..i] + cs[i..];
    FlattenConcat(cs[..i], cs[i..]);
    var s := Flatten(cs);
    assert s[..|Flatten(cs[..i])|] == Flatten(cs[..i]);
    BoundaryOfPrefix(s, |Flatten(cs[..i])|);
  }

  /** Where a walk over the chunks stands: `t` followed by `rest` from character `base` on. */
  lemma PieceAt(s: seq<char>, base: nat, t: seq<char>, rest: seq<char>)
    requires base <= |s| && s[base..] == t + rest
    ensures base + |t| <= |s| && s[base..base + |t|] == t && s[base + |t|..] == rest
    ensures s[..base + |t|] == s[..base] + t
    ensures ByteLen(s[..base + |t|]) == ByteLen(s[..base]) + ByteLen(t)
    ensures NewlineCount(s[..base + |t|]) == NewlineCount(s[..base]) + NewlineCount(t)
  {
    PiecePrefix(s, base, t, rest);
    ByteLenConcat(s[..base], t);
    NewlineCountConcat(s[..base], t);
  }

  lemma PiecePrefix(s: seq<char>, base: nat, t: seq<char>, rest: seq<char>)
    requires base <= |s| && s[base..] == t + rest
    ensures base + |t| <= |s| && s[base..base + |t|] == t && s[base + |t|..] == rest
    ensures s[..base + |t|] == s[..base] + t
  {
    assert s[base..][..|t|] == t;
    assert s[..base + |t|] == s[..base] + t;
  }

  /**
    The inner loop of the chunking: move `end` forward to the next character
    boundary, which lies fewer than four bytes on and begins no new character.
   */
  method AlignToBoundary(text: seq<char>, end0: nat) returns (end: nat)
    requires end0 <= ByteLen(text)
    ensures IsCharBoundary(text, end) && end0 <= end < end0 + 4
    ensures CharsBefore(text, end) == CharsBefore(text, end0)
  {
    var len := ByteLen(text);
    end := end0;
    ghost var i0 := CharsBefore(text, end0);
    NextBoundaryClose(text, end0);
    ghost var next := ByteLen(text[..i0]);
    while end < len && !IsCharBoundary(text, end)
      invariant end0 <= end <= next && end <= len && CharsBefore(text, end) == i0
      decreases len - end
    {
      NonBoundaryStep(text, end);
      end := end + 1;
    }
    if end == len {
      CharsBeforeAll(text, len);
      assert text[..|text|] == text;
    }
  }

  /**
    The chunking loop of `from_text` (also inlined twice in `insert_optimized`):
    cut `ChunkSize` bytes, move the end forward to a character boundary, repeat.
   */
  method SplitIntoChunks(text: seq<char>) returns (chunks: seq<Chunk>)
    ensures Flatten(chunks) == text && ChunksOk(chunks)
  {
    chunks := [];
    var len := ByteLen(text);
    var start := 0;
    BoundaryOfPrefix(text, 0);
    assert text[..0] == [];
    while start < len
      invariant IsCharBoundary(text, start)
      invariant Flatten(chunks) == text[..CharsBefore(text, start)]
      invariant ChunksOk(chunks)
      decreases len - start
    {
      var end := if start + ChunkSize < len then start + ChunkSize else len;
      end := AlignToBoundary(text, end);
      var i, j := CharsBefore(text, start), CharsBefore(text, end);
      CharsBeforeMono(text, start, end);
      assert text[..j] == text[..i] + text[i..j];
      ByteLenConcat(text[..i], text[i..j]);
      var piece := Chunk.New(ByteSlice(text, start, end));
      FlattenConcat(chunks, [piece]);
      chunks := chunks + [piece];
      start := end;
    }
    CharsBeforeAll(text, start);
    assert text[..|text|] == text;
  }

  /**
    The state of the `line(L)` and `line_byte_range(L)` scans after the first `k`
    characters: `cur` newlines seen, `found` once a character of line `L` was
    read, and `content` the characters of line `L` read so far.
   */
  ghost predicate LineScan(s: seq<char>, L: nat, k: nat, cur: nat, found: bool, content: seq<char>)
  {
    && k <= |s|
    && cur == NewlineCount(s[..k]) && cur <= L
    && found == (cur == L && LineStart(s, L) < k)
    && content == (if found then s[LineStart(s, L)..k] else [])
  }

  lemma LineScanStart(s: seq<char>, L: nat)
    ensures LineScan(s, L, 0, 0, false, [])
  {
    assert s[..0] == [];
  }

  /** One character of the scan: the four branches of the loop body. */
  lemma LineScanStep(s: seq<char>, L: nat, k: nat, cur: nat, found: bool, content: seq<char>)
    requires LineScan(s, L, k, cur, found, content) && k < |s|
    ensures cur == L && s[k] == '\n' ==> Line(s, L) == Some(content) && LineStart(s, L) <= k && content == s[LineStart(s, L)..k]
    ensures cur == L && s[k] != '\n' ==> LineScan(s, L, k + 1, cur, true, content + [s[k]])
    ensures cur != L && s[k] == '\n' ==> cur + 1 <= L && LineScan(s, L, k + 1, cur + 1, found, content)
    ensures cur != L && s[k] != '\n' ==> LineScan(s, L, k + 1, cur, found, content)
  {
    NewlineCountSnoc(s, k);
    assert s == s[..k] + s[k..];
    NewlineCountConcat(s[..k], s[k..]);
    var a := LineStart(s, L);
    if cur == L {
      LineStartWithin(s, L, k);
      if s[k] == '\n' {
        LineHasNoNewline(s, L, k);
        TakeLineAt(s, a, k);
      } else {
        SliceSnoc(s, a, k);
      }
    } else if s[k] == '\n' {
      LineStartBeyond(s, L, k);
      if cur + 1 == L {
        LineStartWithin(s, L, k + 1);
      } else {
        LineStartBeyond(s, L, k + 1);
      }
    } else {
      LineStartBeyond(s, L, k + 1);
    }
  }

  lemma SliceSnoc(s: seq<char>, a: nat, k: nat)
    requires a <= k < |s|
    ensures s[a..k + 1] == s[a..k] + [s[k]]
  {
  }

  /** At the end of the text the scan has the answer: the last line, or no line at all. */
  lemma LineScanEnd(s: seq<char>, L: nat, k: nat, cur: nat, found: bool, content: seq<char>)
    requires k <= |s| && s[k..] == [] && LineScan(s, L, k, cur, found, content)
    ensures Line(s, L) == if found then Some(content) else None
    ensures found ==> LineStart(s, L) < |s| && content == s[LineStart(s, L)..]
  {
    assert k == |s|;
    assert s[..|s|] == s;
    var a := LineStart(s, L);
    if found {
      LineHasNoNewline(s, L, |s|);
      TakeLineAt(s, a, |s|);
      assert s[a..|s|] == s[a..];
    } else if cur < L {
      LineStartBeyond(s, L, |s|);
    }
  }

  class Rope {
    var tree: SumTree<Chunk, TextMetrics>

    /** The tree keeps its summary laws, is summarised by `ChunkMonoid` and holds well-shaped chunks. */
    ghost predicate Valid()
      reads this, tree
    {
      tree.Valid() && tree.monoid == ChunkMonoid() && ChunksOk(tree.Items())
    }

    /** The text the rope holds. */
    ghost function Text(): seq<char>
      reads this, tree
    {
      Flatten(tree.Items())
    }

    /** `Rope::new` (and `Default`): the empty rope. */
    constructor ()
      ensures Valid() && fresh(tree) && Text() == []
    {
      ChunkMonoidLawful();
      tree := new SumTree(ChunkMonoid());
    }

    /** The struct literal `Self { tree }`. */
    constructor FromTree(t: SumTree<Chunk, TextMetrics>)
      requires t.Valid() && t.monoid == ChunkMonoid() && ChunksOk(t.Items())
      ensures tree == t && Valid() && Text() == Flatten(t.Items())
    {
      tree := t;
    }

    /** `from_text`: a rope spelling exactly `text`, cut into well-shaped chunks. */
    static method FromText(text: seq<char>) returns (r: Rope)
      ensures fresh(r) && fresh(r.tree) && r.Valid() && r.Text() == text
    {
      if text == [] {
        r := new Rope();
        return;
      }
      var chunks := SplitIntoChunks(text);
      ChunkMonoidLawful();
      var t := SumTree.FromItems(ChunkMonoid(), chunks);
      r := new Rope.FromTree(t);
    }

    /** `clone()` (derived): a new rope holding the same text. */
    method Clone() returns (r: Rope)
      requires Valid()
      ensures fresh(r) && fresh(r.tree) && r.Valid() && r.Text() == Text()
    {
      var t := tree.Clone();
      r := new Rope.FromTree(t);
    }

    /** `len()`: the byte length of the text, read from the root summary. */
    function Len(): (n: nat)
      reads this, tree
      requires Valid()
      ensures n == ByteLen(Text())
    {
      FoldIsMetrics(tree.Items());
      tree.Summary().len
    }

    /** `line_count()`: the number of newlines in the text, read from the root summary. */
    function LineCount(): (n: nat)
      reads this, tree
      requires Valid()
      ensures n == NewlineCount(Text())
    {
      FoldIsMetrics(tree.Items());
      tree.Summary().lines
    }

    /** `is_empty()`: the tree has no chunk, which is exactly when the text is empty. */
    function IsEmpty(): (b: bool)
      reads this, tree
      requires Valid()
      ensures b <==> Text() == []
      ensures b <==> Len() == 0
    {
      FlattenEmpty(tree.Items());
      ByteLenEmpty(Text());
      tree.IsEmpty()
    }

    /** `to_string()` (and `Display`): the chunks' texts appended in order. */
    method ToString() returns (r: seq<char>)
      requires Valid()
      ensures r == Text()
    {
      ghost var s := Text();
      r := [];
      var it := tree.Iter();
      while true
        invariant it.Valid() && s == r + Flatten(it.Remaining())
        decreases |it.Remaining()|
      {
        ghost var remaining := it.Remaining();
        var next := it.Next();
        if next.None? {
          break;
        }
        Advance(s, r, remaining, it.Remaining());
        r := r + next.value.AsStr();
      }
    }
    /** `line(L)`: the characters of line `L` without its newline, or `None` past the last line. */
    method Line(lineIdx: nat) returns (r: Option<seq<char>>)
      requires Valid()
      ensures r == TextLines.Line(Text(), lineIdx)
    {
      var it := tree.Iter();
      r := LineOfChunks(it, Text(), lineIdx);
    }
    /** `line_to_byte(L)`: the byte offset where line `L` starts, or the length past the last line. */
    method LineToByte(targetLine: nat) returns (b: nat)
      requires Valid()
      ensures b == TextLines.LineToByte(Text(), targetLine)
    {
      if targetLine == 0 {
        assert Text()[..0] == [];
        return 0;
      }
      var it := tree.Iter();
      b := LineToByteOfChunks(it, Text(), targetLine);
    }

    /** `byte_to_line_col(b)`: the line and the column in characters of the character holding byte `b`. */
    method ByteToLineCol(targetByte: nat) returns (line: nat, column: nat)
      requires Valid()
      ensures (line, column) == TextLines.ByteToLineCol(Text(), targetByte)
    {
      if targetByte == 0 {
        return 0, 0;
      }
      var it := tree.Iter();
      line, column := ByteToLineColOfChunks(it, Text(), targetByte);
    }

    /**
      `slice_bytes(start, end)`: the text of bytes `[start, min(end, len))`, or the
      empty string when that range is empty. The slicing inside a chunk panics
      unless both ends are character boundaries.
     */
    method SliceBytes(start: nat, end: nat) returns (r: seq<char>)
      requires Valid()
      requires start < end && start < Len() ==> IsCharBoundary(Text(), start) && IsCharBoundary(Text(), Min(end, Len()))
      ensures r == SliceBytesSpec(Text(), start, end)
    {
      if start >= end || start >= Len() {
        return [];
      }
      var clampedEnd := Min(end, Len());
      var it := tree.Iter();
      r := SliceOfChunks(it, Text(), start, clampedEnd);
    }

    /** `line_byte_range(L)`: the byte range of line `L` without its newline, or `None` past the last line. */
    method LineByteRange(lineIdx: nat) returns (r: Option<(nat, nat)>)
      requires Valid()
      ensures r == TextLines.LineByteRange(Text(), lineIdx)
    {
      var start := LineToByte(lineIdx);
      var it := tree.Iter();
      r := LineByteRangeOfChunks(it, Text(), lineIdx, start);
    }
    /**
      `insert(pos, text)`: `text` put in at byte `pos`; nothing happens for an
      empty text. Below one megabyte the whole text is rebuilt; above, chunks are
      spliced (the splice here is the corrected one, see `SpliceChunksAsWritten`).
      `String::insert_str` panics unless `pos` is a character boundary.
     */
    method Insert(pos: nat, text: seq<char>)
      requires Valid()
      requires text != [] ==> IsCharBoundary(Text(), pos)
      modifies this
      ensures Valid()
      ensures Text() == InsertedText(old(Text()), pos, text)
    {
      if text == [] {
        InsertNothing(Text(), pos);
        return;
      }
      if Len() < LargeRope {
        var content := ToString();
        content := InsertedText(content, pos, text);
        var r := FromText(content);
        tree := r.tree;
        return;
      }
      InsertOptimized(pos, text);
    }

    /** `insert_optimized`: collect the chunks, find the one holding `pos`, splice the new chunks in, rebuild the tree. */
    method InsertOptimized(pos: nat, text: seq<char>)
      requires Valid() && IsCharBoundary(Text(), pos)
      modifies this
      ensures Valid()
      ensures Text() == InsertedText(old(Text()), pos, text)
    {
      var chunks := Collect(tree);
      var idx, offset := LocateInsert(chunks, pos);
      InsertAtSite(chunks, pos, idx, offset, text);
      var newChunks := SpliceChunks(chunks, idx, offset, text);
      ChunkMonoidLawful();
      tree := SumTree.FromItems(ChunkMonoid(), newChunks);
    }

    /** `push_str(text)`: the text appended, taken as `insert(len(), text)`. */
    method PushStr(text: seq<char>)
      requires Valid()
      modifies this
      ensures Valid()
      ensures Text() == old(Text()) + text
    {
      ghost var s := Text();
      BoundaryOfPrefix(s, |s|);
      assert s[..|s|] == s;
      Insert(Len(), text);
      CharsBeforeAll(s, ByteLen(s));
      assert s[|s|..] == [];
    }

    /**
      `delete(start, end)`: the bytes `[start, end)` removed; nothing happens for an
      empty range. Below one megabyte the text is rebuilt (`String::drain` panics
      unless both ends are boundaries within the text); above, `delete_optimized`
      cuts only the chunks the range ends in, so it needs boundaries only there.
     */
    method Delete(start: nat, end: nat)
      requires Valid()
      requires start < end ==> DeleteAllowed(Text(), start, end)
      modifies this
      ensures Valid()
      ensures Text() == DeletedText(old(Text()), start, end)
    {
      if start >= end {
        return;
      }
      if Len() < LargeRope {
        var content := ToString();
        content := DeletedText(content, start, end);
        var r := FromText(content);
        tree := r.tree;
        return;
      }
      DeleteOptimized(start, end);
    }

    /** `delete_optimized`: one walk over the chunks, keeping what lies outside `[start, end)`. */
    method DeleteOptimized(start: nat, end: nat)
      requires Valid() && start < end
      requires start < Len() ==> IsCharBoundary(Text(), start)
      requires end < Len() ==> IsCharBoundary(Text(), end)
      modifies this
      ensures Valid()
      ensures Text() == DeletedText(old(Text()), start, end)
    {
      var it := tree.Iter();
      var newChunks := DeleteOfChunks(it, Text(), start, end);
      ChunkMonoidLawful();
      tree := SumTree.FromItems(ChunkMonoid(), newChunks);
    }

    /** `chunk_count()`: the number of chunks the iterator yields. */
    method ChunkCount() returns (n: nat)
      requires Valid()
      ensures n == |tree.Items()|
      ensures n == 0 <==> Text() == []
    {
      FlattenEmpty(tree.Items());
      var it := tree.Iter();
      n := 0;
      while true
        invariant it.Valid() && n + |it.Remaining()| == |tree.Items()|
        decreases |it.Remaining()|
      {
        var next := it.Next();
        if next.None? {
          break;
        }
        n := n + 1;
      }
    }
  }

  /** The `for chunk in self.tree.iter()` walk of `line(L)` over the chunks spelling `s`. */
  method LineOfChunks(it: SumTreeIter<Chunk, TextMetrics>, ghost s: seq<char>, lineIdx: nat) returns (r: Option<seq<char>>)
    requires it.Valid() && Flatten(it.Remaining()) == s
    modifies it
    ensures r == TextLines.Line(s, lineIdx)
  {
      var currentLine: nat := 0;
      var lineContent := [];
      var foundLine := false;
      ghost var base: nat := 0;
      LineScanStart(s, lineIdx);
      while true
        invariant it.Valid() && base <= |s| && s[base..] == Flatten(it.Remaining())
        invariant LineScan(s, lineIdx, base, currentLine, foundLine, lineContent)
        decreases |it.Remaining()|
      {
        ghost var remaining := it.Remaining();
        var next := it.Next();
        if next.None? {
          break;
        }
        var chunkText := next.value.AsStr();
        AdvanceAt(s, base, remaining, it.Remaining());
        assert chunkText == remaining[0].text;
        var done;
        done, currentLine, foundLine, lineContent := ScanChunkForLine(s, base, chunkText, lineIdx, currentLine, foundLine, lineContent);
        if done {
          return Some(lineContent);
        }
        if currentLine > lineIdx {
          break;
        }
        base := base + |chunkText|;
      }
      LineScanEnd(s, lineIdx, base, currentLine, foundLine, lineContent);
      if foundLine {
        r := Some(lineContent);
      } else {
        r := None;
      }
  }


  /**
    The character loop of `line(L)` over one chunk that sits in `s` at character
    `base`, continuing the scan state; `done` stands for the early `return`.
   */
  method ScanChunkForLine(ghost s: seq<char>, ghost base: nat, chunkText: seq<char>, lineIdx: nat,
                          cur0: nat, found0: bool, content0: seq<char>)
    returns (done: bool, currentLine: nat, foundLine: bool, lineContent: seq<char>)
    requires base + |chunkText| <= |s| && s[base..base + |chunkText|] == chunkText
    requires LineScan(s, lineIdx, base, cur0, found0, content0)
    ensures done ==> TextLines.Line(s, lineIdx) == Some(lineContent)
    ensures !done ==> LineScan(s, lineIdx, base + |chunkText|, currentLine, foundLine, lineContent)
  {
    currentLine, foundLine, lineContent := cur0, found0, content0;
    var j := 0;
    while j < |chunkText|
      invariant j <= |chunkText|
      invariant LineScan(s, lineIdx, base + j, currentLine, foundLine, lineContent)
    {
      var ch := chunkText[j];
      assert ch == s[base + j];
      LineScanStep(s, lineIdx, base + j, currentLine, foundLine, lineContent);
      if currentLine == lineIdx {
        foundLine := true;
        if ch == '\n' {
          return true, currentLine, foundLine, lineContent;
        }
        lineContent := lineContent + [ch];
      } else if ch == '\n' {
        currentLine := currentLine + 1;
        if currentLine > lineIdx {
          break;
        }
      }
      j := j + 1;
    }
    done := false;
  }

  function Min(a: int, b: int): int
  {
    if a < b then a else b
  }

  /** What `slice_bytes` returns: `ByteSlice` of the range clamped to the length, or empty. */
  function SliceBytesSpec(s: seq<char>, start: nat, end: nat): seq<char>
  {
    if start >= end || start >= ByteLen(s) then [] else ByteSlice(s, start, Min(end, ByteLen(s)))
  }

  /** The state of the `line_to_byte(L)` walk once the chunks spelling `done` are read: lines and bytes so far. */
  ghost predicate LineToByteScan(done: seq<char>, target: nat, currentLine: nat, byteOffset: nat)
  {
    currentLine == NewlineCount(done) < target && byteOffset == ByteLen(done)
  }

  /** One chunk `t` of the `line_to_byte(L)` walk: it holds the start of line `L`, or the walk goes on. */
  lemma LineToByteStep(done: seq<char>, t: seq<char>, rest: seq<char>, target: nat, currentLine: nat, byteOffset: nat)
    requires LineToByteScan(done, target, currentLine, byteOffset)
    ensures currentLine + NewlineCount(t) >= target ==>
      var p := Chunk(t).GetNewlinePosition(target - currentLine - 1);
      target - currentLine > 0 && p.Some? && TextLines.LineToByte(done + t + rest, target) == byteOffset + p.value + 1
    ensures currentLine + NewlineCount(t) < target ==>
      LineToByteScan(done + t, target, currentLine + NewlineCount(t), byteOffset + Chunk(t).Len())
  {
    NewlineCountConcat(done, t);
    ByteLenConcat(done, t);
    if currentLine + NewlineCount(t) >= target {
      LineToByteConcat(done + t, rest, target);
      LineToByteConcat(done, t, target);
    }
  }

  /** With the whole text walked, line `L` lies past the end and starts at the length. */
  lemma LineToByteEnd(s: seq<char>, target: nat, currentLine: nat, byteOffset: nat)
    requires LineToByteScan(s, target, currentLine, byteOffset)
    ensures TextLines.LineToByte(s, target) == byteOffset
  {
    assert s[..|s|] == s;
    LineStartPast(s, target);
  }

  /** The walk of `line_to_byte(L)`, for `L > 0`, over the chunks spelling `s`. */
  method LineToByteOfChunks(it: SumTreeIter<Chunk, TextMetrics>, ghost s: seq<char>, targetLine: nat) returns (b: nat)
    requires it.Valid() && Flatten(it.Remaining()) == s && targetLine > 0
    modifies it
    ensures b == TextLines.LineToByte(s, targetLine)
  {
    var currentLine: nat := 0;
    var byteOffset: nat := 0;
    ghost var done: seq<char> := [];
    while true
      invariant it.Valid() && s == done + Flatten(it.Remaining())
      invariant LineToByteScan(done, targetLine, currentLine, byteOffset)
      decreases |it.Remaining()|
    {
      ghost var remaining := it.Remaining();
      var next := it.Next();
      if next.None? {
        break;
      }
      var chunk := next.value;
      ghost var rest := Flatten(it.Remaining());
      Advance(s, done, remaining, it.Remaining());
      LineToByteStep(done, chunk.text, rest, targetLine, currentLine, byteOffset);
      var newlinesInChunk := chunk.CountLines();
      if currentLine + newlinesInChunk >= targetLine {
        var lineInChunk := targetLine - currentLine;
        if lineInChunk == 0 {
          return byteOffset;
        }
        var newlinePos := chunk.GetNewlinePosition(lineInChunk - 1);
        if newlinePos.Some? {
          return byteOffset + newlinePos.value + 1;
        }
        // the fallback `byte_offset + chunk.len()` is dead: the chunk holds that newline
        assert false;
      }
      currentLine := currentLine + newlinesInChunk;
      byteOffset := byteOffset + chunk.Len();
      done := done + chunk.text;
    }
    assert s == done;
    LineToByteEnd(s, targetLine, currentLine, byteOffset);
    b := byteOffset;
  }

  /** The state of the `byte_to_line_col(b)` walk once the chunks spelling `done` are read. */
  ghost predicate LineColScan(done: seq<char>, target: nat, byteOffset: nat, line: nat, column: nat)
  {
    byteOffset == ByteLen(done) <= target && (line, column) == LineCol(done)
  }

  /** The column after a whole chunk: the characters after its last newline, or the old column plus all of them. */
  ghost function ColumnAfter(t: seq<char>, column: nat): nat
  {
    if NewlineCount(t) > 0 then |t| - LineStart(t, NewlineCount(t)) else column + |t|
  }

  /** What `byte_to_line_col` computes from `newline_positions().last()` is `ColumnAfter`. */
  lemma LastNewlineColumn(c: Chunk, column: nat)
    requires |c.NewlinePositions()| > 0
    ensures var ps := c.NewlinePositions();
      ps[|ps| - 1] + 1 <= c.Len() && |ByteSlice(c.text, ps[|ps| - 1] + 1, c.Len())| == ColumnAfter(c.text, column)
  {
    var t := c.text;
    var ls := LineStart(t, NewlineCount(t));
    CharsBeforePrefix(t, ls);
    CharsBeforeAll(t, c.Len());
  }

  /** The chunk `t` read after `done` holds the target: its position is reached inside `t`. */
  lemma {:induction false} ByteToLineColInside(s: seq<char>, done: seq<char>, t: seq<char>, rest: seq<char>, target: nat,
                            byteOffset: nat, line: nat, column: nat)
    requires s == done + (t + rest) && LineColScan(done, target, byteOffset, line, column)
    requires byteOffset + ByteLen(t) > target
    ensures TextLines.ByteToLineCol(s, target) == LineCol(done + t[..CharsBefore(t, target - byteOffset)])
  {
    CharsBeforeConcat(done, t + rest, target);
    CharsBeforeConcat(t, rest, target - byteOffset);
    if target == byteOffset {
      CharsBeforeAll(done, target);
    }
    var j := CharsBefore(t, target - byteOffset);
    assert CharsBefore(s, target) == |done| + j;
    assert s[..|done| + j] == done + t[..j];
  }

  /** The chunk `t` read after `done` ends at or before the target: the walk goes on with the position after it. */
  lemma ByteToLineColPast(done: seq<char>, t: seq<char>, target: nat, byteOffset: nat, line: nat, column: nat)
    requires LineColScan(done, target, byteOffset, line, column) && byteOffset + ByteLen(t) <= target
    ensures LineColScan(done + t, target, byteOffset + ByteLen(t), line + NewlineCount(t), ColumnAfter(t, column))
  {
    ByteLenConcat(done, t);
    LineColAfterChunk(done, t, line, column);
  }

  /** The position after a whole chunk `t`: its newlines are added to the line, and the column is `ColumnAfter`. */
  lemma LineColAfterChunk(done: seq<char>, t: seq<char>, line: nat, column: nat)
    requires (line, column) == LineCol(done)
    ensures LineCol(done + t) == (line + NewlineCount(t), ColumnAfter(t, column))
  {
    LineColMeaning(done);
    LineColConcat(done, t);
  }

  /** With the whole text walked, the target is at or past the end. */
  lemma ByteToLineColEnd(s: seq<char>, target: nat, byteOffset: nat, line: nat, column: nat)
    requires LineColScan(s, target, byteOffset, line, column)
    ensures (line, column) == TextLines.ByteToLineCol(s, target)
  {
    assert s[..|s|] == s;
    CharsBeforeAll(s, target);
  }

  /** The walk of `byte_to_line_col(b)`, for `b > 0`, over the chunks spelling `s`. */
  method ByteToLineColOfChunks(it: SumTreeIter<Chunk, TextMetrics>, ghost s: seq<char>, targetByte: nat)
    returns (line: nat, column: nat)
    requires it.Valid() && Flatten(it.Remaining()) == s
    modifies it
    ensures (line, column) == TextLines.ByteToLineCol(s, targetByte)
  {
    var byteOffset: nat := 0;
    line, column := 0, 0;
    ghost var done: seq<char> := [];
    while true
      invariant it.Valid() && s == done + Flatten(it.Remaining())
      invariant LineColScan(done, targetByte, byteOffset, line, column)
      decreases |it.Remaining()|
    {
      ghost var remaining := it.Remaining();
      var next := it.Next();
      if next.None? {
        break;
      }
      var chunk := next.value;
      var chunkLen := chunk.Len();
      var chunkText := chunk.AsStr();
      Advance(s, done, remaining, it.Remaining());
      if byteOffset + chunkLen > targetByte {
        var offsetInChunk := targetByte - byteOffset;
        line, column := ColumnInChunk(s, done, chunkText, Flatten(it.Remaining()), targetByte, byteOffset, offsetInChunk, line, column);
        return;
      }
      ByteToLineColPast(done, chunkText, targetByte, byteOffset, line, column);
      line, column := PositionAfterChunk(chunk, line, column);
      byteOffset := byteOffset + chunkLen;
      done := done + chunkText;
    }
    assert s == done;
    ByteToLineColEnd(s, targetByte, byteOffset, line, column);
  }

  /**
    The position after a chunk that ends before the target in `byte_to_line_col`:
    the chunk's newlines are added, and the column restarts after its last newline.
   */
  method PositionAfterChunk(chunk: Chunk, line0: nat, column0: nat) returns (line: nat, column: nat)
    ensures line == line0 + NewlineCount(chunk.text) && column == ColumnAfter(chunk.text, column0)
  {
    line := line0 + chunk.CountLines();
    var chunkText := chunk.AsStr();
    var positions := chunk.NewlinePositions();
    if |positions| > 0 {
      var lastNewlinePos := positions[|positions| - 1];
      LastNewlineColumn(chunk, column0);
      column := |ByteSlice(chunkText, lastNewlinePos + 1, chunk.Len())|;
    } else {
      column := column0 + |chunkText|;
    }
  }

  /** The chunk of `byte_to_line_col` that holds the target: the position is found by counting inside it. */
  method ColumnInChunk(ghost s: seq<char>, ghost done: seq<char>, chunkText: seq<char>, ghost rest: seq<char>,
                       ghost target: nat, ghost byteOffset: nat, offsetInChunk: nat, line0: nat, column0: nat)
    returns (line: nat, column: nat)
    requires s == done + (chunkText + rest) && offsetInChunk < ByteLen(chunkText) && target == byteOffset + offsetInChunk
    requires LineColScan(done, target, byteOffset, line0, column0)
    ensures (line, column) == TextLines.ByteToLineCol(s, target)
  {
    ByteToLineColInside(s, done, chunkText, rest, target, byteOffset, line0, column0);
    line, column := CountColumns(done, chunkText, offsetInChunk, line0, column0);
  }

  /** One more character of the chunk read after `done` moves the position by that character. */
  lemma LineColStep(done: seq<char>, t: seq<char>, j: nat)
    requires j < |t|
    ensures LineCol(done + t[..j + 1]) ==
      if t[j] == '\n' then (LineCol(done + t[..j]).0 + 1, 0) else (LineCol(done + t[..j]).0, LineCol(done + t[..j]).1 + 1)
  {
    var next := done + t[..j + 1];
    assert next[..|next| - 1] == done + t[..j] && next[|next| - 1] == t[j];
  }

  /**
    The character loop of `byte_to_line_col` inside the chunk holding the target,
    read after the text `done`: count characters until `offsetInChunk` bytes are consumed.
   */
  method CountColumns(ghost done: seq<char>, chunkText: seq<char>, offsetInChunk: nat, line0: nat, column0: nat)
    returns (line: nat, column: nat)
    requires (line0, column0) == LineCol(done)
    ensures (line, column) == LineCol(done + chunkText[..CharsBefore(chunkText, offsetInChunk)])
  {
    var bytesCounted := 0;
    line, column := line0, column0;
    var j := 0;
    assert done + chunkText[..0] == done;
    while j < |chunkText|
      invariant j <= CharsBefore(chunkText, offsetInChunk)
      invariant bytesCounted == ByteLen(chunkText[..j])
      invariant (line, column) == LineCol(done + chunkText[..j])
    {
      var ch := chunkText[j];
      if bytesCounted >= offsetInChunk {
        break;
      }
      CharsBeforeStartBelow(chunkText, j, offsetInChunk);
      ByteLenSnoc(chunkText, j);
      bytesCounted := bytesCounted + CharWidth(ch);
      LineColStep(done, chunkText, j);
      if ch == '\n' {
        line := line + 1;
        column := 0;
      } else {
        column := column + 1;
      }
      j := j + 1;
    }
    if j < |chunkText| {
      CharsBeforeMono(chunkText, offsetInChunk, bytesCounted);
      CharsBeforePrefix(chunkText, j);
    }
  }

  /** The state of the `slice_bytes` walk once the chunks spelling `done` are read: the part of the range found so far. */
  ghost predicate SliceScan(done: seq<char>, start: nat, end: nat, currentPos: nat, result: seq<char>)
    requires start <= end
  {
    currentPos == ByteLen(done) && result == ByteSlice(done, start, end)
  }

  /** A chunk `t` that overlaps the range: its part `[slice_start, slice_end)` inside the range extends the result. */
  lemma SliceStep(done: seq<char>, t: seq<char>, start: nat, end: nat, currentPos: nat, result: seq<char>,
                  sliceStart: nat, sliceEnd: nat)
    requires start < end && SliceScan(done, start, end, currentPos, result)
    requires currentPos < end && start < currentPos + ByteLen(t)
    requires sliceStart == if currentPos < start then start - currentPos else 0
    requires sliceEnd == if currentPos + ByteLen(t) > end then end - currentPos else ByteLen(t)
    ensures sliceStart <= sliceEnd
    ensures SliceScan(done + t, start, end, currentPos + ByteLen(t), result + ByteSlice(t, sliceStart, sliceEnd))
  {
    ByteLenConcat(done, t);
    ByteSliceConcat(done, t, start, end, currentPos);
    ClampedSlice(t, start - currentPos, end - currentPos, sliceStart, sliceEnd);
  }

  /** Clamping the range `[x, y)` to the chunk `t` it overlaps cuts the same characters. */
  lemma ClampedSlice(t: seq<char>, x: int, y: int, sliceStart: nat, sliceEnd: nat)
    requires x < y && 0 < y && x < ByteLen(t)
    requires sliceStart == if 0 < x then x else 0
    requires sliceEnd == if ByteLen(t) > y then y else ByteLen(t)
    ensures sliceStart <= sliceEnd && ByteSlice(t, sliceStart, sliceEnd) == ByteSlice(t, x, y)
  {
    SameCount(t, sliceStart, x);
    SameCount(t, sliceEnd, y);
    SameSlice(t, sliceStart, sliceEnd, x, y);
  }

  /** Offsets counting the same characters cut the same slice. */
  lemma SameSlice(t: seq<char>, x: int, y: int, x2: int, y2: int)
    requires x <= y && x2 <= y2 && CharsBefore(t, x) == CharsBefore(t, x2) && CharsBefore(t, y) == CharsBefore(t, y2)
    ensures ByteSlice(t, x, y) == ByteSlice(t, x2, y2)
  {
  }

  /** Offsets both at or before the start, or both at or past the end, count the same characters. */
  lemma SameCount(t: seq<char>, x: int, y: int)
    requires x == y || (x <= 0 && y <= 0) || (x >= ByteLen(t) && y >= ByteLen(t))
    ensures CharsBefore(t, x) == CharsBefore(t, y)
  {
    if x != y && x >= ByteLen(t) && y >= ByteLen(t) {
      CharsBeforeAll(t, x);
      CharsBeforeAll(t, y);
    }
  }

  /** A chunk wholly before the range leaves the (empty) result. */
  lemma SliceSkip(done: seq<char>, t: seq<char>, start: nat, end: nat, currentPos: nat, result: seq<char>)
    requires start < end && SliceScan(done, start, end, currentPos, result)
    requires currentPos + ByteLen(t) <= start
    ensures SliceScan(done + t, start, end, currentPos + ByteLen(t), result)
  {
    ByteLenConcat(done, t);
    ByteSliceConcat(done, t, start, end, currentPos);
    CharsBeforeAll(t, start - currentPos);
    CharsBeforeAll(t, end - currentPos);
  }

  /** Once a chunk starts at or after `end`, or the text is walked, the result is the whole range. */
  lemma SliceDone(done: seq<char>, rest: seq<char>, start: nat, end: nat, currentPos: nat, result: seq<char>)
    requires start < end && SliceScan(done, start, end, currentPos, result) && (currentPos >= end || rest == [])
    ensures result == ByteSlice(done + rest, start, end)
  {
    ByteSliceConcat(done, rest, start, end, currentPos);
    assert CharsBefore(rest, end - currentPos) == 0;
  }

  /** The walk of `slice_bytes` for `start < end`, over the chunks spelling `s`. */
  method SliceOfChunks(it: SumTreeIter<Chunk, TextMetrics>, ghost s: seq<char>, start: nat, end: nat) returns (result: seq<char>)
    requires it.Valid() && Flatten(it.Remaining()) == s && start < end
    modifies it
    ensures result == ByteSlice(s, start, end)
  {
    result := [];
    var currentPos: nat := 0;
    ghost var done: seq<char> := [];
    while true
      invariant it.Valid() && s == done + Flatten(it.Remaining())
      invariant SliceScan(done, start, end, currentPos, result)
      decreases |it.Remaining()|
    {
      ghost var remaining := it.Remaining();
      var next := it.Next();
      if next.None? {
        break;
      }
      var chunk := next.value;
      var chunkLen := chunk.Len();
      var chunkEnd := currentPos + chunkLen;
      ghost var rest := Flatten(it.Remaining());
      Advance(s, done, remaining, it.Remaining());
      if chunkEnd <= start {
        SliceSkip(done, chunk.text, start, end, currentPos, result);
        currentPos := chunkEnd;
        done := done + chunk.text;
        continue;
      }
      if currentPos >= end {
        SliceDone(done, chunk.text + rest, start, end, currentPos, result);
        return;
      }
      var chunkText := chunk.AsStr();
      var sliceStart := if currentPos < start then start - currentPos else 0;
      var sliceEnd := if chunkEnd > end then end - currentPos else chunkLen;
      SliceStep(done, chunkText, start, end, currentPos, result, sliceStart, sliceEnd);
      result := result + ByteSlice(chunkText, sliceStart, sliceEnd);
      currentPos := chunkEnd;
      done := done + chunkText;
    }
    SliceDone(done, [], start, end, currentPos, result);
    assert s == done + [];
  }

  /**
    The walk of `line_byte_range(L)` over the chunks spelling `s`, given the
    start `line_to_byte(L)`; `content` is the line read so far, kept for the proof.
   */
  method LineByteRangeOfChunks(it: SumTreeIter<Chunk, TextMetrics>, ghost s: seq<char>, lineIdx: nat, start: nat)
    returns (r: Option<(nat, nat)>)
    requires it.Valid() && Flatten(it.Remaining()) == s && start == TextLines.LineToByte(s, lineIdx)
    modifies it
    ensures r == TextLines.LineByteRange(s, lineIdx)
  {
    var currentLine: nat := 0;
    var byteOffset: nat := 0;
    var foundStart := false;
    ghost var content: seq<char> := [];
    ghost var base: nat := 0;
    LineScanStart(s, lineIdx);
    while true
      invariant it.Valid() && base <= |s| && s[base..] == Flatten(it.Remaining())
      invariant LineScan(s, lineIdx, base, currentLine, foundStart, content) && byteOffset == ByteLen(s[..base])
      decreases |it.Remaining()|
    {
      ghost var remaining := it.Remaining();
      var next := it.Next();
      if next.None? {
        break;
      }
      var chunkText := next.value.AsStr();
      AdvanceAt(s, base, remaining, it.Remaining());
      assert chunkText == remaining[0].text;
      var done;
      done, currentLine, foundStart, content, byteOffset := ScanChunkForLineEnd(s, base, chunkText, lineIdx, currentLine, foundStart, content, byteOffset);
      if done {
        RangeOfFoundLine(s, lineIdx, content, start, byteOffset);
        return Some((start, byteOffset));
      }
      if currentLine > lineIdx {
        break;
      }
      base := base + |chunkText|;
    }
    LineByteRangeEnd(s, lineIdx, base, currentLine, foundStart, content, byteOffset);
    if foundStart {
      r := Some((start, byteOffset));
    } else {
      r := None;
    }
  }

  /** A line found with its start and end offsets gives the range. */
  lemma RangeOfFoundLine(s: seq<char>, L: nat, content: seq<char>, start: nat, end: nat)
    requires TextLines.Line(s, L) == Some(content) && start == TextLines.LineToByte(s, L) && end == start + ByteLen(content)
    ensures TextLines.LineByteRange(s, L) == Some((start, end))
  {
  }

  /** With the whole text walked, line `L` is the last line, ending at the end of the text, or it does not exist. */
  lemma LineByteRangeEnd(s: seq<char>, L: nat, base: nat, cur: nat, found: bool, content: seq<char>, byteOffset: nat)
    requires base <= |s| && s[base..] == [] && LineScan(s, L, base, cur, found, content) && byteOffset == ByteLen(s[..base])
    ensures TextLines.LineByteRange(s, L) == if found then Some((TextLines.LineToByte(s, L), byteOffset)) else None
  {
    LineScanEnd(s, L, base, cur, found, content);
    assert base == |s| && s[..base] == s;
    if found {
      LineEndOffset(s, |s|, [], 0, LineStart(s, L), content);
    }
  }

  /** The bytes before the end of line `L` at character `base + j`, where the chunk `t` starts at `base`, split at the line start `a`. */
  lemma LineEndOffset(s: seq<char>, base: nat, t: seq<char>, j: nat, a: nat, content: seq<char>)
    requires base + |t| <= |s| && s[base..base + |t|] == t && j <= |t|
    requires a <= base + j && content == s[a..base + j]
    ensures ByteLen(s[..base]) + ByteLen(t[..j]) == ByteLen(s[..a]) + ByteLen(content)
  {
    assert s[..base + j] == s[..base] + t[..j];
    ByteLenConcat(s[..base], t[..j]);
    assert s[..base + j] == s[..a] + content;
    ByteLenConcat(s[..a], content);
  }

  /**
    The character loop of `line_byte_range` over one chunk held in `s` at character
    `base`; `done` stands for the early `return` at the newline that ends line `L`.
   */
  method ScanChunkForLineEnd(ghost s: seq<char>, ghost base: nat, chunkText: seq<char>, lineIdx: nat,
                             cur0: nat, found0: bool, ghost content0: seq<char>, offset0: nat)
    returns (done: bool, currentLine: nat, foundStart: bool, ghost content: seq<char>, byteOffset: nat)
    requires base + |chunkText| <= |s| && s[base..base + |chunkText|] == chunkText
    requires LineScan(s, lineIdx, base, cur0, found0, content0) && offset0 == ByteLen(s[..base])
    ensures done ==> TextLines.Line(s, lineIdx) == Some(content)
    ensures done ==> byteOffset == TextLines.LineToByte(s, lineIdx) + ByteLen(content)
    ensures !done ==> LineScan(s, lineIdx, base + |chunkText|, currentLine, foundStart, content)
    ensures !done ==> byteOffset == offset0 + ByteLen(chunkText) == ByteLen(s[..base + |chunkText|])
  {
    currentLine, foundStart, content, byteOffset := cur0, found0, content0, offset0;
    var j := 0;
    assert chunkText[..0] == [];
    while j < |chunkText|
      invariant j <= |chunkText|
      invariant LineScan(s, lineIdx, base + j, currentLine, foundStart, content)
      invariant byteOffset == offset0 + ByteLen(chunkText[..j])
    {
      var ch := chunkText[j];
      assert ch == s[base + j];
      LineScanStep(s, lineIdx, base + j, currentLine, foundStart, content);
      if currentLine == lineIdx {
        foundStart := true;
      }
      if foundStart && ch == '\n' {
        LineEndOffset(s, base, chunkText, j, LineStart(s, lineIdx), content);
        return true, currentLine, foundStart, content, byteOffset;
      }
      ByteLenSnoc(chunkText, j);
      byteOffset := byteOffset + CharWidth(ch);
      if currentLine == lineIdx {
        content := content + [ch];
      }
      if ch == '\n' {
        currentLine := currentLine + 1;
        if currentLine > lineIdx {
          break;
        }
      }
      j := j + 1;
    }
    assert chunkText[..|chunkText|] == chunkText;
    ByteLenAcrossChunk(s, base, chunkText);
    done := false;
  }

  /** The bytes before the end of a chunk that starts at character `base`. */
  lemma ByteLenAcrossChunk(s: seq<char>, base: nat, t: seq<char>)
    requires base + |t| <= |s| && s[base..base + |t|] == t
    ensures ByteLen(s[..base + |t|]) == ByteLen(s[..base]) + ByteLen(t)
  {
    assert s[..base + |t|] == s[..base] + t;
    ByteLenConcat(s[..base], t);
  }
  /**
    When `delete(start, end)` with `start < end` does not panic: below one megabyte
    `String::drain` needs both ends to be boundaries within the text; above it the
    chunk slicing needs a boundary only at an end that falls inside the text.
   */
  predicate DeleteAllowed(s: seq<char>, start: nat, end: nat)
  {
    if ByteLen(s) < LargeRope then IsCharBoundary(s, start) && IsCharBoundary(s, end)
    else CutsOnBoundaries(s, start, end)
  }

  /** `start` and `end` are character boundaries wherever they fall inside the text. */
  predicate CutsOnBoundaries(s: seq<char>, start: nat, end: nat)
  {
    (start < ByteLen(s) ==> IsCharBoundary(s, start)) && (end < ByteLen(s) ==> IsCharBoundary(s, end))
  }

  /** Sequences of well-shaped chunks concatenate to a sequence of well-shaped chunks. */
  lemma ChunksOkConcat(a: seq<Chunk>, b: seq<Chunk>)
    requires ChunksOk(a) && ChunksOk(b)
    ensures ChunksOk(a + b)
  {
    forall i | 0 <= i < |a + b|
      ensures (a + b)[i].text != [] && (a + b)[i].Len() <= ChunkSize + 3
    {
      if i < |a| {
        assert (a + b)[i] == a[i];
      } else {
        assert (a + b)[i] == b[i - |a|];
      }
    }
  }

  /**
    Where `insert_optimized` puts the new text: into chunk `idx` at byte `offset`
    of it when `pos` falls inside that chunk, or after the last chunk.
   */
  ghost predicate InsertSite(chunks: seq<Chunk>, pos: nat, idx: nat, offset: nat)
  {
    && idx <= |chunks|
    && (idx < |chunks| ==>
          var p := ByteLen(Flatten(chunks[..idx]));
          p <= pos < p + chunks[idx].Len() && offset == pos - p)
    && (idx == |chunks| ==> pos >= ByteLen(Flatten(chunks)) && offset == 0)
  }

  /** The first loop of `insert_optimized`: find the chunk holding byte `pos`. */
  method LocateInsert(chunks: seq<Chunk>, pos: nat) returns (idx: nat, offset: nat)
    ensures InsertSite(chunks, pos, idx, offset)
  {
    var currentPos := 0;
    idx, offset := 0, 0;
    var k := 0;
    assert chunks[..0] == [];
    while k < |chunks|
      invariant k <= |chunks| && currentPos == ByteLen(Flatten(chunks[..k])) && currentPos <= pos
      invariant idx == k && offset == 0
    {
      var chunkLen := chunks[k].Len();
      var chunkEnd := currentPos + chunkLen;
      FlattenSnoc(chunks, k);
      ByteLenConcat(Flatten(chunks[..k]), chunks[k].text);
      if pos >= currentPos && pos < chunkEnd {
        idx := k;
        offset := pos - currentPos;
        return;
      }
      if pos >= chunkEnd {
        idx := k + 1;
        offset := 0;
      }
      currentPos := chunkEnd;
      k := k + 1;
    }
    assert chunks[..k] == chunks;
  }

  /** At an insertion site on a character boundary, inserting into the text is inserting into that one chunk. */
  lemma InsertAtSite(chunks: seq<Chunk>, pos: nat, idx: nat, offset: nat, text: seq<char>)
    requires InsertSite(chunks, pos, idx, offset) && IsCharBoundary(Flatten(chunks), pos)
    ensures idx < |chunks| ==> offset < chunks[idx].Len() && IsCharBoundary(chunks[idx].text, offset)
    ensures idx < |chunks| ==>
      InsertedText(Flatten(chunks), pos, text) == Flatten(chunks[..idx]) + InsertedText(chunks[idx].text, offset, text) + Flatten(chunks[idx + 1..])
    ensures idx == |chunks| ==> InsertedText(Flatten(chunks), pos, text) == Flatten(chunks) + text
  {
    var s := Flatten(chunks);
    if idx < |chunks| {
      var a, c, b := Flatten(chunks[..idx]), chunks[idx].text, Flatten(chunks[idx + 1..]);
      var la := ByteLen(a);
      assert pos == la + offset && offset < ByteLen(c);
      FlattenSplit(chunks, idx);
      BoundaryInPiece(a, c, b, pos, offset);
      assert IsCharBoundary(c, offset);
      InsertIntoPiece(a, c, b, offset, text, pos);
      assert InsertedText(s, pos, text) == a + InsertedText(c, offset, text) + b;
    } else {
      assert pos == ByteLen(s);
      CharsBeforeAll(s, pos);
      assert s[..|s|] == s && s[|s|..] == [];
    }
  }

  /** `Chunk::from(&chunk_text[..offset])`, the text, and `Chunk::from(&chunk_text[offset..])`: the chunks replacing chunk `c`. */
  method SplitAroundInsert(c: Chunk, offset: nat, text: seq<char>) returns (mid: seq<Chunk>)
    requires 0 < offset && IsCharBoundary(c.text, offset)
    ensures Flatten(mid) == InsertedText(c.text, offset, text)
    ensures ChunksOk([c]) && offset < c.Len() ==> ChunksOk(mid)
  {
    var chunkText := c.AsStr();
    BoundaryOfPrefix(chunkText, 0);
    assert chunkText[..0] == [];
    assert chunkText[..|chunkText|] == chunkText;
    BoundaryOfPrefix(chunkText, |chunkText|);
    CharsBeforeAll(chunkText, ByteLen(chunkText));
    var before := c.Slice(0, offset);
    var after := c.Slice(offset, ByteLen(chunkText));
    var pieces := SplitIntoChunks(text);
    FlattenConcat([before], pieces);
    FlattenConcat([before] + pieces, [after]);
    assert Flatten([before]) == before.text && Flatten([after]) == after.text;
    mid := [before] + pieces + [after];
    ByteLenEmpty(before.text);
    ByteLenEmpty(after.text);
    if ChunksOk([c]) && offset < c.Len() {
      assert c == [c][0];
      ChunksOkConcat([before], pieces);
      ChunksOkConcat([before] + pieces, [after]);
    }
  }

  /**
    The second loop of `insert_optimized` as written: with a positive offset the
    chunk at `idx` is split around the new chunks; otherwise the new chunks go in
    front of chunk `idx` — so when `idx` is past the last chunk they are never
    emitted and the text is dropped.
   */
  method SpliceChunksAsWritten(chunks: seq<Chunk>, idx: nat, offset: nat, text: seq<char>) returns (newChunks: seq<Chunk>)
    requires idx <= |chunks|
    requires idx < |chunks| && offset > 0 ==> IsCharBoundary(chunks[idx].text, offset)
    ensures idx < |chunks| ==>
      Flatten(newChunks) == Flatten(chunks[..idx]) + InsertedText(chunks[idx].text, offset, text) + Flatten(chunks[idx + 1..])
    ensures idx == |chunks| ==> newChunks == chunks
    ensures ChunksOk(chunks) && (idx < |chunks| ==> offset < chunks[idx].Len()) ==> ChunksOk(newChunks)
  {
    newChunks := [];
    var mid: seq<Chunk> := [];
    var k := 0;
    if idx < |chunks| && offset > 0 {
      while k < |chunks|
        invariant k <= |chunks|
        invariant k <= idx ==> newChunks == chunks[..k]
        invariant k > idx ==> newChunks == chunks[..idx] + mid + chunks[idx + 1..k]
        invariant k > idx ==> Flatten(mid) == InsertedText(chunks[idx].text, offset, text)
        invariant k > idx && ChunksOk(chunks) && offset < chunks[idx].Len() ==> ChunksOk(mid)
      {
        if k < idx {
          newChunks := newChunks + [chunks[k]];
        } else if k == idx {
          if ChunksOk(chunks) {
            assert [chunks[k]] == chunks[k..k + 1];
          }
          mid := SplitAroundInsert(chunks[k], offset, text);
          newChunks := newChunks + mid;
        } else {
          newChunks := newChunks + [chunks[k]];
        }
        assert chunks[..k + 1] == chunks[..k] + [chunks[k]];
        k := k + 1;
      }
      assert chunks[idx + 1..k] == chunks[idx + 1..];
      SplicedInto(chunks, idx, offset, text, mid, newChunks);
    } else {
      while k < |chunks|
        invariant k <= |chunks|
        invariant k <= idx ==> newChunks == chunks[..k]
        invariant k > idx ==> newChunks == chunks[..idx] + mid + chunks[idx..k]
        invariant k > idx ==> Flatten(mid) == text && ChunksOk(mid)
      {
        if k == idx {
          mid := SplitIntoChunks(text);
          newChunks := newChunks + mid;
        }
        newChunks := newChunks + [chunks[k]];
        assert chunks[..k + 1] == chunks[..k] + [chunks[k]];
        k := k + 1;
      }
      if idx < |chunks| {
        assert chunks[idx..k] == chunks[idx..];
        SplicedBefore(chunks, idx, offset, text, mid, newChunks);
      } else {
        assert chunks[..k] == chunks;
      }
    }
  }

  /** Chunk `idx` replaced by chunks `mid` spelling the insertion into it. */
  lemma SplicedInto(chunks: seq<Chunk>, idx: nat, offset: nat, text: seq<char>, mid: seq<Chunk>, newChunks: seq<Chunk>)
    requires idx < |chunks| && newChunks == chunks[..idx] + mid + chunks[idx + 1..]
    requires Flatten(mid) == InsertedText(chunks[idx].text, offset, text)
    requires ChunksOk(chunks) && offset < chunks[idx].Len() ==> ChunksOk(mid)
    ensures Flatten(newChunks) == Flatten(chunks[..idx]) + InsertedText(chunks[idx].text, offset, text) + Flatten(chunks[idx + 1..])
    ensures ChunksOk(chunks) && offset < chunks[idx].Len() ==> ChunksOk(newChunks)
  {
    SpliceFacts(chunks, idx, mid, idx + 1);
  }

  /** Chunks `mid` spelling the text put in front of chunk `idx`, which is an insertion at its offset 0. */
  lemma SplicedBefore(chunks: seq<Chunk>, idx: nat, offset: nat, text: seq<char>, mid: seq<Chunk>, newChunks: seq<Chunk>)
    requires idx < |chunks| && offset == 0 && newChunks == chunks[..idx] + mid + chunks[idx..]
    requires Flatten(mid) == text && ChunksOk(mid)
    ensures Flatten(newChunks) == Flatten(chunks[..idx]) + InsertedText(chunks[idx].text, offset, text) + Flatten(chunks[idx + 1..])
    ensures ChunksOk(chunks) ==> ChunksOk(newChunks)
  {
    var c := chunks[idx];
    var mid' := mid + [c];
    assert chunks[idx..] == [c] + chunks[idx + 1..];
    assert newChunks == chunks[..idx] + mid' + chunks[idx + 1..];
    FlattenConcat(mid, [c]);
    assert Flatten([c]) == c.text;
    assert InsertedText(c.text, offset, text) == text + c.text by {
      assert CharsBefore(c.text, offset) == 0;
      assert c.text[..0] + text + c.text[0..] == text + c.text;
    }
    if ChunksOk(chunks) {
      assert c == chunks[idx];
      ChunksOkConcat(mid, [c]);
    }
    SplicedInto(chunks, idx, offset, text, mid', newChunks);
  }

  /** The chunks `chunks[..idx] + mid + chunks[from..]` spell the matching texts. */
  lemma SpliceFacts(chunks: seq<Chunk>, idx: nat, mid: seq<Chunk>, from: nat)
    requires idx <= from <= |chunks|
    ensures Flatten(chunks[..idx] + mid + chunks[from..]) == Flatten(chunks[..idx]) + Flatten(mid) + Flatten(chunks[from..])
    ensures ChunksOk(chunks) && ChunksOk(mid) ==> ChunksOk(chunks[..idx] + mid + chunks[from..])
  {
    FlattenConcat(chunks[..idx], mid);
    FlattenConcat(chunks[..idx] + mid, chunks[from..]);
    if ChunksOk(chunks) && ChunksOk(mid) {
      assert forall i | 0 <= i < |chunks[from..]| :: chunks[from..][i] == chunks[from + i];
      ChunksOkConcat(chunks[..idx], mid);
      ChunksOkConcat(chunks[..idx] + mid, chunks[from..]);
    }
  }

  /** The second loop of `insert_optimized` with the missing case supplied: past the last chunk the new chunks are appended. */
  method SpliceChunks(chunks: seq<Chunk>, idx: nat, offset: nat, text: seq<char>) returns (newChunks: seq<Chunk>)
    requires idx <= |chunks|
    requires idx < |chunks| && offset > 0 ==> IsCharBoundary(chunks[idx].text, offset)
    ensures idx < |chunks| ==>
      Flatten(newChunks) == Flatten(chunks[..idx]) + InsertedText(chunks[idx].text, offset, text) + Flatten(chunks[idx + 1..])
    ensures idx == |chunks| ==> Flatten(newChunks) == Flatten(chunks) + text
    ensures ChunksOk(chunks) && (idx < |chunks| ==> offset < chunks[idx].Len()) ==> ChunksOk(newChunks)
  {
    newChunks := SpliceChunksAsWritten(chunks, idx, offset, text);
    if idx == |chunks| {
      var pieces := SplitIntoChunks(text);
      FlattenConcat(newChunks, pieces);
      if ChunksOk(chunks) {
        ChunksOkConcat(newChunks, pieces);
      }
      newChunks := newChunks + pieces;
    }
  }

  /** Appending a non-empty text changes it, so the chunks left unchanged at the end of the rope are not the inserted text. */
  lemma InsertAtEndChangesText(s: seq<char>, text: seq<char>)
    requires text != []
    ensures InsertedText(s, ByteLen(s), text) != s
  {
    CharsBeforeAll(s, ByteLen(s));
    assert s[..|s|] == s && s[|s|..] == [];
    assert |InsertedText(s, ByteLen(s), text)| == |s| + |text|;
  }

  /** The text of one chunk that `delete_optimized` keeps, when the chunk starts at byte `currentPos`. */
  method KeepOfChunk(ghost s: seq<char>, ghost done: seq<char>, chunk: Chunk, ghost rest: seq<char>,
                     start: nat, end: nat, currentPos: nat) returns (pieces: seq<Chunk>)
    requires s == done + (chunk.text + rest) && currentPos == ByteLen(done) && start < end
    requires CutsOnBoundaries(s, start, end)
    ensures Flatten(pieces) == Kept(chunk.text, start - currentPos, end - currentPos)
    ensures ChunksOk([chunk]) ==> ChunksOk(pieces)
  {
    var chunkText := chunk.AsStr();
    var chunkLen := ByteLen(chunkText);
    var chunkEnd := currentPos + chunkLen;
    assert Flatten([chunk]) == chunkText;
    if chunkEnd <= start {
      KeptOutside(chunkText, start - currentPos, end - currentPos);
      pieces := [chunk];
    } else if currentPos >= end {
      KeptOutside(chunkText, start - currentPos, end - currentPos);
      pieces := [chunk];
    } else {
      var keepStart := if currentPos < start then start - currentPos else 0;
      var keepEnd := if chunkEnd > end then end - currentPos else chunkLen;
      CutBoundaries(s, done, chunkText, rest, start, end, currentPos, keepStart, keepEnd);
      pieces := CutChunk(chunk, keepStart, keepEnd);
      KeptOfSlices(chunk, start - currentPos, end - currentPos, keepStart, keepEnd, pieces);
    }
  }

  /** The cuts `delete_optimized` makes in a chunk lie on its character boundaries. */
  lemma CutBoundaries(s: seq<char>, done: seq<char>, t: seq<char>, rest: seq<char>, start: nat, end: nat,
                      currentPos: nat, keepStart: nat, keepEnd: nat)
    requires s == done + (t + rest) && currentPos == ByteLen(done) && start < end
    requires CutsOnBoundaries(s, start, end)
    requires start < currentPos + ByteLen(t) && currentPos < end
    requires keepStart == (if currentPos < start then start - currentPos else 0)
    requires keepEnd == (if currentPos + ByteLen(t) > end then end - currentPos else ByteLen(t))
    ensures IsCharBoundary(t, keepStart) && IsCharBoundary(t, keepEnd)
  {
    ByteLenConcat(t, rest);
    ByteLenConcat(done, t + rest);
    BoundaryEnds(t);
    if keepStart > 0 {
      BoundaryInPiece(done, t, rest, start, keepStart);
    }
    if keepEnd < ByteLen(t) {
      BoundaryInPiece(done, t, rest, end, keepEnd);
    }
  }

  /** The two cuts of an overlapping chunk: the part before `keepStart` and the part from `keepEnd`, each only when non-empty. */
  method CutChunk(chunk: Chunk, keepStart: nat, keepEnd: nat) returns (pieces: seq<Chunk>)
    requires keepEnd <= chunk.Len() && IsCharBoundary(chunk.text, keepStart) && IsCharBoundary(chunk.text, keepEnd)
    ensures keepStart > 0 && keepEnd < chunk.Len() ==>
      |pieces| == 2 && pieces[0].text == ByteSlice(chunk.text, 0, keepStart) && pieces[1].text == ByteSlice(chunk.text, keepEnd, chunk.Len())
    ensures keepStart > 0 && keepEnd >= chunk.Len() ==> |pieces| == 1 && pieces[0].text == ByteSlice(chunk.text, 0, keepStart)
    ensures keepStart == 0 && keepEnd < chunk.Len() ==> |pieces| == 1 && pieces[0].text == ByteSlice(chunk.text, keepEnd, chunk.Len())
    ensures keepStart == 0 && keepEnd >= chunk.Len() ==> pieces == []
    ensures ChunksOk([chunk]) ==> ChunksOk(pieces)
  {
    var chunkText := chunk.AsStr();
    var chunkLen := ByteLen(chunkText);
    BoundaryEnds(chunkText);
    pieces := [];
    if keepStart > 0 {
      // `Chunk::from(&chunk_text[..keep_start])`
      var before := chunk.Slice(0, keepStart);
      ByteLenEmpty(before.text);
      pieces := pieces + [before];
    }
    if keepEnd < chunkLen {
      // `Chunk::from(&chunk_text[keep_end..])`
      var after := chunk.Slice(keepEnd, chunkLen);
      ByteLenEmpty(after.text);
      pieces := pieces + [after];
    }
    if ChunksOk([chunk]) {
      assert chunk == [chunk][0];
    }
  }

  /** The pieces cut out of one overlapping chunk spell what the deletion keeps of it. */
  lemma KeptOfSlices(chunk: Chunk, x: int, y: int, keepStart: nat, keepEnd: nat, pieces: seq<Chunk>)
    requires x < y && 0 < y && x < chunk.Len()
    requires keepStart == (if 0 < x then x else 0) && keepEnd == (if chunk.Len() > y then y else chunk.Len())
    requires keepStart > 0 && keepEnd < chunk.Len() ==>
      |pieces| == 2 && pieces[0].text == ByteSlice(chunk.text, 0, keepStart) && pieces[1].text == ByteSlice(chunk.text, keepEnd, chunk.Len())
    requires keepStart > 0 && keepEnd >= chunk.Len() ==> |pieces| == 1 && pieces[0].text == ByteSlice(chunk.text, 0, keepStart)
    requires keepStart == 0 && keepEnd < chunk.Len() ==> |pieces| == 1 && pieces[0].text == ByteSlice(chunk.text, keepEnd, chunk.Len())
    requires keepStart == 0 && keepEnd >= chunk.Len() ==> pieces == []
    ensures Flatten(pieces) == Kept(chunk.text, x, y)
  {
    var t := chunk.text;
    var i, j := CharsBefore(t, x), CharsBefore(t, y);
    SameCount(t, keepStart, x);
    SameCount(t, keepEnd, y);
    CharsBeforeAll(t, chunk.Len());
    assert Kept(t, x, y) == t[..i] + t[j..];
    if keepStart > 0 && keepEnd < chunk.Len() {
      assert ByteSlice(t, 0, keepStart) == t[..i];
      assert ByteSlice(t, keepEnd, chunk.Len()) == t[j..];
      FlattenTwo(pieces);
    } else if keepStart > 0 {
      assert ByteSlice(t, 0, keepStart) == t[..i];
      FlattenOne(pieces);
      assert t[j..] == [];
      assert t[..i] + [] == t[..i];
    } else if keepEnd < chunk.Len() {
      assert ByteSlice(t, keepEnd, chunk.Len()) == t[j..];
      FlattenOne(pieces);
      assert t[..i] == [];
      assert [] + t[j..] == t[j..];
    } else {
      assert t[..i] == [] && t[j..] == [];
    }
  }

  lemma FlattenOne(cs: seq<Chunk>)
    requires |cs| == 1
    ensures Flatten(cs) == cs[0].text
  {
    assert cs[1..] == [];
  }

  lemma FlattenTwo(cs: seq<Chunk>)
    requires |cs| == 2
    ensures Flatten(cs) == cs[0].text + cs[1].text
  {
    FlattenOne(cs[1..]);
  }

  /** The state of `delete_optimized` after the chunks spelling `done`: the chunks kept so far spell what the deletion keeps of `done`. */
  ghost predicate DeleteScan(done: seq<char>, start: nat, end: nat, currentPos: nat, newChunks: seq<Chunk>)
    requires start < end
  {
    currentPos == ByteLen(done) && Flatten(newChunks) == Kept(done, start, end) && ChunksOk(newChunks)
  }

  lemma DeleteStep(done: seq<char>, t: seq<char>, start: nat, end: nat, currentPos: nat, newChunks: seq<Chunk>, pieces: seq<Chunk>)
    requires start < end && DeleteScan(done, start, end, currentPos, newChunks)
    requires Flatten(pieces) == Kept(t, start - currentPos, end - currentPos) && ChunksOk(pieces)
    ensures DeleteScan(done + t, start, end, currentPos + ByteLen(t), newChunks + pieces)
  {
    KeptConcat(done, t, start, end, currentPos);
    FlattenConcat(newChunks, pieces);
    ChunksOkConcat(newChunks, pieces);
    ByteLenConcat(done, t);
  }

  /** Taking the first chunk off a sequence of well-shaped chunks. */
  lemma FirstChunk(cs: seq<Chunk>)
    requires cs != [] && ChunksOk(cs)
    ensures ChunksOk([cs[0]]) && ChunksOk(cs[1..]) && Flatten(cs) == cs[0].text + Flatten(cs[1..])
  {
    assert forall i | 0 <= i < |cs[1..]| :: cs[1..][i] == cs[i + 1];
  }

  /** The `for chunk in self.tree.iter()` walk of `delete_optimized` over the chunks spelling `s`. */
  method DeleteOfChunks(it: SumTreeIter<Chunk, TextMetrics>, ghost s: seq<char>, start: nat, end: nat) returns (newChunks: seq<Chunk>)
    requires it.Valid() && Flatten(it.Remaining()) == s && ChunksOk(it.Remaining())
    requires start < end
    requires CutsOnBoundaries(s, start, end)
    modifies it
    ensures Flatten(newChunks) == Kept(s, start, end) && ChunksOk(newChunks)
  {
    newChunks := [];
    var currentPos: nat := 0;
    ghost var done: seq<char> := [];
    assert Kept(done, start, end) == [];
    while true
      invariant it.Valid() && s == done + Flatten(it.Remaining()) && ChunksOk(it.Remaining())
      invariant DeleteScan(done, start, end, currentPos, newChunks)
      decreases |it.Remaining()|
    {
      ghost var remaining := it.Remaining();
      var next := it.Next();
      if next.None? {
        break;
      }
      var chunk := next.value;
      FirstChunk(remaining);
      Advance(s, done, remaining, it.Remaining());
      ghost var rest := Flatten(it.Remaining());
      var pieces := KeepOfChunk(s, done, chunk, rest, start, end, currentPos);
      DeleteStep(done, chunk.text, start, end, currentPos, newChunks, pieces);
      newChunks := newChunks + pieces;
      currentPos := currentPos + chunk.Len();
      done := done + chunk.text;
    }
    assert s == done + [];
    assert s == done;
  }
}
