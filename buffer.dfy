/**
  The editable buffer: a rope shared copy-on-write between snapshots, a
  windowed cache of line start offsets kept in step with it, and the scroll
  predictor that decides which lines to cache ahead. Points (row, character
  column) and byte offsets are converted through the rope.
 */
module Buffers {
  import opened Options
  import opened Utf8
  import opened TextLines
  import opened Edits
  import opened Ropes
  import opened Points
  import opened Offsets
  import opened LineCaches

  /** Bytes of the first `column` characters of `l`, all of them when the line is shorter. */
  function ColumnBytes(l: seq<char>, column: nat): nat
  {
    if column <= |l| then ByteLen(l[..column]) else ByteLen(l)
  }

  /**
    `point_to_offset`: the start of the point's row plus the bytes of the
    first `column` characters of that line; only the row's start when the
    line does not exist.
   */
  function PointToOffsetSpec(s: seq<char>, p: Point): nat
  {
    LineToByte(s, p.row) + match Line(s, p.row) case Some(l) => ColumnBytes(l, p.column) case None => 0
  }

  /** `offset_to_point`: the line and character column of a byte offset. */
  function OffsetToPointSpec(s: seq<char>, offset: nat): Point
  {
    Point(ByteToLineCol(s, offset).0, ByteToLineCol(s, offset).1)
  }

  /** A point inside an existing line survives the trip to a byte offset and back. */
  lemma PointRoundTrip(s: seq<char>, p: Point)
    requires Line(s, p.row).Some? && p.column <= |Line(s, p.row).value|
    ensures OffsetToPointSpec(s, PointToOffsetSpec(s, p)) == p
  {
    PositionInLine(s, p.row, p.column);
  }

  /** Every character boundary survives the trip to a point and back. */
  lemma OffsetRoundTrip(s: seq<char>, offset: nat)
    requires IsCharBoundary(s, offset)
    ensures PointToOffsetSpec(s, OffsetToPointSpec(s, offset)) == offset
  {
    var j := CharsBefore(s, offset);
    PositionOfPrefix(s, j);
    var p := OffsetToPointSpec(s, offset);
    assert LineStart(s, p.row) + p.column == j;
    if Line(s, p.row).Some? {
      PositionInLine(s, p.row, p.column);
    } else {
      assert j == |s| && LineStart(s, p.row) == |s|;
      assert s[..|s|] == s;
    }
  }

  /** Any point names a character boundary. */
  lemma PointOffsetIsBoundary(s: seq<char>, p: Point)
    ensures IsCharBoundary(s, PointToOffsetSpec(s, p))
  {
    match Line(s, p.row)
    case Some(l) =>
      var c := if p.column <= |l| then p.column else |l|;
      assert l[..|l|] == l;
      assert ColumnBytes(l, p.column) == ByteLen(l[..c]);
      PositionInLine(s, p.row, c);
      BoundaryOfPrefix(s, LineStart(s, p.row) + c);
    case None =>
      assert LineStart(s, p.row) == |s| && s[..|s|] == s;
      BoundaryEnds(s);
  }

  /** A column past the end of its line lands at the end of the line's content. */
  lemma ColumnClampsToLineEnd(s: seq<char>, p: Point)
    requires Line(s, p.row).Some? && p.column >= |Line(s, p.row).value|
    ensures PointToOffsetSpec(s, p) == LineByteRange(s, p.row).value.1
  {
    var l := Line(s, p.row).value;
    assert l[..|l|] == l;
  }

  /** A row without a line, in particular every row past the last newline, lands at the end of the text. */
  lemma MissingRowClampsToEnd(s: seq<char>, p: Point)
    requires Line(s, p.row).None? || p.row > NewlineCount(s)
    ensures PointToOffsetSpec(s, p) == ByteLen(s)
  {
    if p.row > NewlineCount(s) {
      LineStartPast(s, p.row);
    }
    assert LineStart(s, p.row) == |s| && s[..|s|] == s;
  }

  /** The lines `line(k)` that exist among `k < i`, in order. */
  function LinesUpTo(s: seq<char>, i: nat): seq<seq<char>>
  {
    if i == 0 then []
    else
      var prev := LinesUpTo(s, i - 1);
      match Line(s, i - 1)
      case Some(l) => prev + [l]
      case None => prev
  }

  /** Up to the last newline every line exists and is the matching piece of the split. */
  lemma {:induction false} LinesUpToSplit(s: seq<char>, i: nat)
    requires i <= NewlineCount(s)
    ensures LinesUpTo(s, i) == SplitLines(s)[..i]
  {
    if i > 0 {
      LinesUpToSplit(s, i - 1);
      InnerLine(s, i - 1);
      PrefixSnoc(SplitLines(s), i);
    }
  }

  /** All the lines of a buffer are the pieces of the split without an empty last piece. */
  lemma LinesUpToAll(s: seq<char>, n: nat)
    requires n == NewlineCount(s) + 1
    ensures LinesUpTo(s, n) == NonEmptyTailLines(s)
  {
    var k := NewlineCount(s);
    var p := SplitLines(s);
    LinesUpToSplit(s, k);
    if p[k] == [] {
      LastLineEmpty(s, k);
      assert LinesUpTo(s, n) == LinesUpTo(s, k);
      assert NonEmptyTailLines(s) == p[..k];
    } else {
      LastLineFull(s, k);
      assert LinesUpTo(s, n) == LinesUpTo(s, k) + [p[k]];
      PrefixSnoc(p, k + 1);
      assert p[..k + 1] == p;
      assert NonEmptyTailLines(s) == p;
    }
  }

  /** A line before the last newline is the matching piece of the split. */
  lemma InnerLine(s: seq<char>, k: nat)
    requires k < NewlineCount(s)
    ensures Line(s, k) == Some(SplitLines(s)[k])
  {
    LineIsSplitPiece(s, k);
  }

  /** An empty last piece is no line. */
  lemma LastLineEmpty(s: seq<char>, k: nat)
    requires k == NewlineCount(s) && SplitLines(s)[k] == []
    ensures Line(s, k).None?
  {
    LineIsSplitPiece(s, k);
  }

  /** A non-empty last piece is the last line. */
  lemma LastLineFull(s: seq<char>, k: nat)
    requires k == NewlineCount(s) && SplitLines(s)[k] != []
    ensures Line(s, k) == Some(SplitLines(s)[k])
  {
    LineIsSplitPiece(s, k);
  }

  lemma PrefixSnoc(p: seq<seq<char>>, i: nat)
    requires 0 < i <= |p|
    ensures p[..i] == p[..i - 1] + [p[i - 1]]
  {
  }

  /** The lines `rope.line(i)` that exist among `i < n`, collected in order. */
  method ExistingLines(rope: Rope, n: nat) returns (result: seq<seq<char>>)
    requires rope.Valid()
    ensures result == LinesUpTo(rope.Text(), n)
  {
    result := [];
    var i := 0;
    while i < n
      invariant 0 <= i <= n
      invariant result == LinesUpTo(rope.Text(), i)
    {
      var line := rope.Line(i);
      if line.Some? {
        result := result + [line.value];
      }
      i := i + 1;
    }
  }

  /** Lines starting at or before the edited line keep their offsets, whatever follows the edit point. */
  lemma EarlierLinesKeepOffsets(p: seq<char>, r: seq<char>, r': seq<char>, l: nat)
    requires l <= NewlineCount(p)
    ensures LineToByte(p + r', l) == LineToByte(p + r, l)
  {
    LineToByteInFirst(p, r, l);
    LineToByteInFirst(p, r', l);
  }

  /**
    Forgetting every line from the edited one on keeps a correct cache
    correct for the edited text: the first `|p|` characters did not change,
    and the lines that start within them keep their offsets.
   */
  lemma CacheSurvivesEdit(slots: seq<Option<nat>>, start: nat, end: nat, s: seq<char>, s': seq<char>,
                          p: seq<char>, r: seq<char>, r': seq<char>, line: nat, lineCount: nat)
    requires SlotsCorrect(slots, start, s) && |slots| <= RangeLen(start, end)
    requires end <= NewlineCount(s) < lineCount
    requires s == p + r && s' == p + r' && line == NewlineCount(p)
    ensures SlotsCorrect(InvalidatedSlots(slots, start, end, LinesFrom(line, lineCount)), start, s')
  {
    var lines := LinesFrom(line, lineCount);
    if |slots| > 0 {
      forall l | start <= l < start + |slots| && l < end && l !in lines
        ensures LineToByte(s', l) == LineToByte(s, l)
      {
        EarlierLinesKeepOffsets(p, r, r', l);
      }
      InvalidationKeepsCorrect(slots, start, end, lines, s, s');
    }
  }

  /** The line holding byte `pos` is the number of newlines before it. */
  lemma LineOfOffset(s: seq<char>, pos: nat, line: nat)
    requires line == ByteToLineCol(s, pos).0
    ensures line == NewlineCount(s[..CharsBefore(s, pos)])
  {
    var pre := s[..CharsBefore(s, pos)];
    LineColParts(pre, NewlineCount(pre));
  }

  /** Forgetting the lines from the one holding `pos` on keeps a correct cache correct across an insertion at `pos`. */
  lemma InsertKeepsCache(slots: seq<Option<nat>>, start: nat, end: nat, s: seq<char>, pos: nat, text: seq<char>,
                         line: nat, lineCount: nat)
    requires SlotsCorrect(slots, start, s) && |slots| <= RangeLen(start, end)
    requires end <= NewlineCount(s) < lineCount && line == ByteToLineCol(s, pos).0
    ensures SlotsCorrect(InvalidatedSlots(slots, start, end, LinesFrom(line, lineCount)), start, InsertedText(s, pos, text))
  {
    var i := CharsBefore(s, pos);
    LineOfOffset(s, pos, line);
    TakeDrop(s, i);
    assert InsertedText(s, pos, text) == s[..i] + (text + s[i..]);
    CacheSurvivesEdit(slots, start, end, s, InsertedText(s, pos, text), s[..i], s[i..], text + s[i..], line, lineCount);
  }

  /** Forgetting the lines from the one holding `startPos` on keeps a correct cache correct across a deletion from `startPos`. */
  lemma DeleteKeepsCache(slots: seq<Option<nat>>, start: nat, end: nat, s: seq<char>, startPos: nat, endPos: nat,
                         line: nat, lineCount: nat)
    requires SlotsCorrect(slots, start, s) && |slots| <= RangeLen(start, end)
    requires end <= NewlineCount(s) < lineCount && line == ByteToLineCol(s, startPos).0
    ensures SlotsCorrect(InvalidatedSlots(slots, start, end, LinesFrom(line, lineCount)), start, DeletedText(s, startPos, endPos))
  {
    var i := CharsBefore(s, startPos);
    LineOfOffset(s, startPos, line);
    TakeDrop(s, i);
    if startPos < endPos {
      CacheSurvivesEdit(slots, start, end, s, DeletedText(s, startPos, endPos), s[..i], s[i..], s[CharsBefore(s, endPos)..], line, lineCount);
    } else {
      CacheSurvivesEdit(slots, start, end, s, s, s[..i], s[i..], s[i..], line, lineCount);
    }
  }

  /** A rope of its own holding `rope`'s text with `text` inserted at `pos`; `rope` itself is left as it is. */
  method InsertedCopy(rope: Rope, pos: nat, text: seq<char>) returns (r: Rope)
    requires rope.Valid() && (text != [] ==> IsCharBoundary(rope.Text(), pos))
    ensures fresh(r) && r.Valid() && r.Text() == InsertedText(rope.Text(), pos, text)
  {
    r := rope.Clone();
    r.Insert(pos, text);
  }

  /** A rope of its own holding `rope`'s text with the bytes `[start, end)` removed. */
  method DeletedCopy(rope: Rope, start: nat, end: nat) returns (r: Rope)
    requires rope.Valid() && (start < end ==> DeleteAllowed(rope.Text(), start, end))
    ensures fresh(r) && r.Valid() && r.Text() == DeletedText(rope.Text(), start, end)
  {
    r := rope.Clone();
    r.Delete(start, end);
  }

  /**
    The cache side of an edit: forget the given lines, then resize to the new
    line count; a cache correct for the new text once those lines are gone
    stays correct.
   */
  method RefreshCache(cache: LineOffsetCache, lines: seq<nat>, newLineCount: nat, ghost s': seq<char>)
    requires cache.Valid()
    requires SlotsCorrect(InvalidatedSlots(cache.cachedOffsets, cache.rangeStart, cache.rangeEnd, lines), cache.rangeStart, s')
    modifies cache
    ensures cache.Valid() && cache.totalLines == newLineCount && cache.Correct(s')
    ensures cache.Refreshed(lines, newLineCount)
  {
    cache.InvalidateLines(lines);
    cache.UpdateLineCount(newLineCount);
  }

  /** The lines the source forgets on an edit: all lines from `line` on only when the edit spans a newline. */
  function InvalidatedLinesAsWritten(line: nat, lineCount: nat, multiLine: bool): seq<nat>
  {
    if multiLine then LinesFrom(line, lineCount) else [line]
  }

  /**
    The single-line branch leaves a stale entry: with lines 0 and 1 of
    "a\nb\nc" cached, inserting "x" at offset 0 forgets only line 0, so line 1
    keeps offset 2 although it now starts at byte 3.
   */
  lemma SingleLineInvalidationIsStale()
    ensures var s := ['a', '\n', 'b', '\n', 'c'];
      var slots := [Some(0), Some(2)];
      var s' := InsertedText(s, 0, ['x']);
      var kept := InvalidatedSlots(slots, 0, 2, InvalidatedLinesAsWritten(0, 3, false));
      && SlotsCorrect(slots, 0, s)
      && NewlineCount(s) == 2
      && kept[1] == Some(2)
      && LineToByte(s', 1) == 3
      && !SlotsCorrect(kept, 0, s')
  {
    var s := ['a', '\n', 'b', '\n', 'c'];
    var s' := InsertedText(s, 0, ['x']);
    assert s' == ['x', 'a', '\n', 'b', '\n', 'c'];
    assert s[1..] == ['\n', 'b', '\n', 'c'] && s[1..][1..] == ['b', '\n', 'c'];
    assert LineStart(s, 1) == 2 && s[..2] == ['a', '\n'];
    assert s[..0] == [];
    assert s'[1..] == s;
    assert LineStart(s', 1) == 3 && s'[..3] == ['x', 'a', '\n'];
  }

  /**
    The delete branch leaves the same kind of stale entry: with lines 0 and 1
    of "ab\nc" cached, deleting byte 0 starts and ends on line 0, so only line 0
    is forgotten, and line 1 keeps offset 3 although it now starts at byte 2.
   */
  lemma SingleLineDeleteIsStale()
    ensures var s := ['a', 'b', '\n', 'c'];
      var slots := [Some(0), Some(3)];
      var s' := DeletedText(s, 0, 1);
      var kept := InvalidatedSlots(slots, 0, 2, InvalidatedLinesAsWritten(0, 2, ByteToLineCol(s, 0).0 != ByteToLineCol(s, 1).0));
      && SlotsCorrect(slots, 0, s)
      && NewlineCount(s) == 1
      && ByteToLineCol(s, 0).0 == 0 && ByteToLineCol(s, 1).0 == 0
      && kept[1] == Some(3)
      && LineToByte(s', 1) == 2
      && !SlotsCorrect(kept, 0, s')
  {
    var s := ['a', 'b', '\n', 'c'];
    assert CharsBefore(s, 0) == 0 && s[..0] == [];
    assert s[1..] == ['b', '\n', 'c'];
    assert CharsBefore(s[1..], 0) == 0;
    assert CharsBefore(s, 1) == 1 && s[..1] == ['a'];
    assert LineCol(s[..1][..0]) == (0, 0);
    var s' := DeletedText(s, 0, 1);
    assert s' == ['b', '\n', 'c'];
    assert s[1..][1..] == ['\n', 'c'] && s[1..][1..][1..] == ['c'];
    assert LineStart(s, 1) == 3 && s[..3] == ['a', 'b', '\n'];
    assert s'[1..] == ['\n', 'c'];
    assert LineStart(s', 1) == 2 && s'[..2] == ['b', '\n'];
  }

  class Buffer {
    var rope: Rope
    var lineCache: LineOffsetCache
    var predictiveCache: PredictiveCache
    ghost var Repr: set<object>

    /** The rope is well formed and the cache is a true cache of its line starts. */
    ghost predicate Valid()
      reads this, Repr
    {
      && rope in Repr
      && Repr == {this, rope, rope.tree, lineCache, predictiveCache}
      && rope.Valid()
      && lineCache.Valid()
      && lineCache.totalLines == NewlineCount(rope.Text())
      && lineCache.Correct(rope.Text())
    }

    ghost function Text(): seq<char>
      reads this, Repr
      requires Valid()
    {
      rope.Text()
    }

    /** `Buffer::new`: the empty text with an empty cache. */
    constructor ()
      ensures Valid() && fresh(Repr) && Text() == []
      ensures lineCache.cachedOffsets == [] && lineCache.rangeStart == 0 && lineCache.rangeEnd == 0
    {
      rope := new Rope();
      lineCache := new LineOffsetCache(0);
      predictiveCache := new PredictiveCache();
      new;
      Repr := {this, rope, rope.tree, lineCache, predictiveCache};
    }

    /** `Buffer::from_text`: a rope of the text and an empty cache sized to its newline count. */
    constructor FromText(text: seq<char>)
      ensures Valid() && fresh(Repr) && Text() == text
      ensures lineCache.cachedOffsets == [] && lineCache.rangeStart == 0 && lineCache.rangeEnd == 0
    {
      var r := Rope.FromText(text);
      var n := r.LineCount();
      rope := r;
      lineCache := new LineOffsetCache(n);
      predictiveCache := new PredictiveCache();
      new;
      Repr := {this, rope, rope.tree, lineCache, predictiveCache};
    }

    /** A snapshot over the given parts. */
    constructor Of(r: Rope, cache: LineOffsetCache, predictive: PredictiveCache)
      requires r.Valid() && cache.Valid() && cache.totalLines == NewlineCount(r.Text()) && cache.Correct(r.Text())
      ensures Valid() && rope == r && lineCache == cache && predictiveCache == predictive
    {
      rope, lineCache, predictiveCache := r, cache, predictive;
      new;
      Repr := {this, rope, rope.tree, lineCache, predictiveCache};
    }

    /**
      The derived `clone`: the new buffer shares the rope (an `Arc` clone) and
      holds copies of both caches, so editing it leaves this buffer as it is.
     */
    method Clone() returns (b: Buffer)
      requires Valid()
      ensures fresh(b) && fresh(b.lineCache) && fresh(b.predictiveCache)
      ensures b.Valid() && b.rope == rope && b.Text() == Text()
    {
      var cache := lineCache.Clone();
      var predictive := predictiveCache.Clone();
      b := new Buffer.Of(rope, cache, predictive);
    }

    /** `len`: the text's length in bytes. */
    function Len(): (n: nat)
      reads this, Repr
      requires Valid()
      ensures n == ByteLen(Text())
    {
      rope.Len()
    }

    /** `is_empty`. */
    function IsEmpty(): (b: bool)
      reads this, Repr
      requires Valid()
      ensures b <==> Text() == []
    {
      rope.IsEmpty()
    }

    /** `line_count`: one more than the newline count, which is also 1 for the empty text, and the number of split pieces. */
    function LineCount(): (n: nat)
      reads this, Repr
      requires Valid()
      ensures n == NewlineCount(Text()) + 1
      ensures n == |SplitLines(Text())|
    {
      if rope.IsEmpty() then 1 else rope.LineCount() + 1
    }

    /** `to_string`. */
    method ToString() returns (r: seq<char>)
      requires Valid()
      ensures r == Text()
    {
      r := rope.ToString();
    }

    /**
      `insert`: the text inserted at the offset in a rope of this buffer's own
      (`Arc::make_mut`, shown here as always copying the shared rope, so other
      snapshots keep their text), with every cached line from the one holding
      the offset on forgotten and the cache resized to the new line count.
      Forgetting from that line on is the corrected invalidation: the source
      forgets only that line when the text has no newline, which leaves later
      lines stale (`SingleLineInvalidationIsStale`).
     */
    method Insert(offset: Offset, text: seq<char>)
      requires Valid()
      requires text != [] ==> IsCharBoundary(Text(), offset.value)
      modifies this, lineCache
      ensures Valid()
      ensures Text() == InsertedText(old(Text()), offset.value, text)
      ensures lineCache == old(lineCache) && predictiveCache == old(predictiveCache)
      ensures var line := ByteToLineCol(old(Text()), offset.value).0;
        lineCache.Refreshed(LinesFrom(line, NewlineCount(old(Text())) + 1), NewlineCount(Text()))
      ensures var line := ByteToLineCol(old(Text()), offset.value).0;
        && (lineCache.rangeStart == old(lineCache.rangeStart) || lineCache.cachedOffsets == [])
        && |lineCache.cachedOffsets| <= |old(lineCache.cachedOffsets)|
        && forall i :: 0 <= i < |lineCache.cachedOffsets| ==>
             lineCache.cachedOffsets[i] == if old(lineCache.rangeStart) + i < line then old(lineCache.cachedOffsets)[i] else None
    {
      var pos := offset.Value();
      var line, column := rope.ByteToLineCol(pos);
      var lineCount := LineCount();
      ghost var slots0, start0, end0 := lineCache.cachedOffsets, lineCache.rangeStart, lineCache.rangeEnd;
      InsertKeepsCache(lineCache.cachedOffsets, lineCache.rangeStart, lineCache.rangeEnd, Text(), pos, text, line, lineCount);
      var r := InsertedCopy(rope, pos, text);
      var newLineCount := r.LineCount();
      RefreshCache(lineCache, LinesFrom(line, lineCount), newLineCount, r.Text());
      ForgetFromResized(slots0, start0, end0, line, lineCount, newLineCount);
      rope, Repr := r, {this, r, r.tree, lineCache, predictiveCache};
    }

    /**
      `delete`: the byte range removed in a rope of this buffer's own, with
      every cached line from the one holding `start` on forgotten and the
      cache resized to the new line count. Forgetting from that line on is the
      corrected invalidation: the source forgets only that line when `end` lies
      on it too, which leaves later lines stale (`SingleLineDeleteIsStale`).
     */
    method Delete(start: Offset, end: Offset)
      requires Valid()
      requires start.value < end.value ==> DeleteAllowed(Text(), start.value, end.value)
      modifies this, lineCache
      ensures Valid()
      ensures Text() == DeletedText(old(Text()), start.value, end.value)
      ensures lineCache == old(lineCache) && predictiveCache == old(predictiveCache)
      ensures var line := ByteToLineCol(old(Text()), start.value).0;
        lineCache.Refreshed(LinesFrom(line, NewlineCount(old(Text())) + 1), NewlineCount(Text()))
      ensures var line := ByteToLineCol(old(Text()), start.value).0;
        && (lineCache.rangeStart == old(lineCache.rangeStart) || lineCache.cachedOffsets == [])
        && |lineCache.cachedOffsets| <= |old(lineCache.cachedOffsets)|
        && forall i :: 0 <= i < |lineCache.cachedOffsets| ==>
             lineCache.cachedOffsets[i] == if old(lineCache.rangeStart) + i < line then old(lineCache.cachedOffsets)[i] else None
    {
      var startPos, endPos := start.Value(), end.Value();
      var startLine, column := rope.ByteToLineCol(startPos);
      var lineCount := LineCount();
      ghost var slots0, start0, end0 := lineCache.cachedOffsets, lineCache.rangeStart, lineCache.rangeEnd;
      DeleteKeepsCache(lineCache.cachedOffsets, lineCache.rangeStart, lineCache.rangeEnd, Text(), startPos, endPos, startLine, lineCount);
      var r := DeletedCopy(rope, startPos, endPos);
      var newLineCount := r.LineCount();
      RefreshCache(lineCache, LinesFrom(startLine, lineCount), newLineCount, r.Text());
      ForgetFromResized(slots0, start0, end0, startLine, lineCount, newLineCount);
      rope, Repr := r, {this, r, r.tree, lineCache, predictiveCache};
    }

    /** `line`. */
    method Line(lineIdx: nat) returns (r: Option<seq<char>>)
      requires Valid()
      ensures r == TextLines.Line(Text(), lineIdx)
    {
      r := rope.Line(lineIdx);
    }

    /** `get_line_offsets_batch`: the start of every requested line, from the cache where it has them. */
    method GetLineOffsetsBatch(lines: seq<nat>) returns (offsets: seq<nat>)
      requires Valid()
      modifies lineCache
      ensures Valid() && Text() == old(Text())
      ensures |offsets| == |lines| && forall k :: 0 <= k < |lines| ==> offsets[k] == LineToByte(Text(), lines[k])
    {
      offsets := lineCache.GetOffsetsZeroAlloc(lines, rope);
    }

    /** `ensure_range_cached`, the range given by its two ends. */
    method EnsureRangeCached(start: nat, end: nat)
      requires Valid()
      modifies lineCache
      ensures Valid() && Text() == old(Text())
      ensures lineCache.WindowEnsured(Text(), start, end)
    {
      lineCache.EnsureRangeCached(rope, start, end);
    }

    /**
      `update_scroll_prediction`: record the visible range and scroll motion,
      fill the cache ahead when pre-caching is due (the clock reading is given
      as `precache`), and evict the cache once it holds more than 10000 lines.
     */
    method UpdateScrollPrediction(visibleStart: nat, visibleEnd: nat, direction: ScrollDirection, speedPadding: nat, precache: bool)
      requires Valid()
      modifies lineCache, predictiveCache
      ensures Valid() && Text() == old(Text())
      ensures predictiveCache.visibleStart == visibleStart && predictiveCache.visibleEnd == visibleEnd
      ensures (predictiveCache.precalcStart, predictiveCache.precalcEnd) == predictiveCache.CalculatePrecalcRange(visibleStart, visibleEnd)
      ensures lineCache.Stats().cachedLines <= 10000 || lineCache.cachedOffsets == []
      ensures var r := predictiveCache.GetPrecalcRange(NewlineCount(Text()) + 1);
        lineCache.cachedOffsets != [] ==>
          && (precache && r.0 < r.1 ==> lineCache.WindowEnsured(Text(), r.0, r.1))
          && (!(precache && r.0 < r.1) ==> lineCache.WindowKept())
    {
      predictiveCache.UpdateScrollPrediction(visibleStart, visibleEnd, direction, speedPadding);
      var totalLines := LineCount();
      lineCache.PredictiveEnsureCached(rope, predictiveCache, totalLines, precache);
      if lineCache.Stats().cachedLines > 10000 {
        lineCache.SmartEviction(5000);
      }
    }

    /** `point_to_offset`. */
    method PointToOffset(point: Point) returns (offset: Offset)
      requires Valid()
      ensures offset.value == PointToOffsetSpec(Text(), point)
    {
      var lineStart := rope.LineToByte(point.row);
      var line := rope.Line(point.row);
      if line.Some? {
        var columnBytes := ColumnBytes(line.value, point.column);
        offset := Offset.New(lineStart + columnBytes);
      } else {
        offset := Offset.New(lineStart);
      }
    }

    /** `offset_to_point`. */
    method OffsetToPoint(offset: Offset) returns (point: Point)
      requires Valid()
      ensures point == OffsetToPointSpec(Text(), offset.value)
    {
      var line, column := rope.ByteToLineCol(offset.Value());
      point := Point.New(line, column);
    }

    /** `lines`: every line that exists, in order; the split of the text without an empty last piece. */
    method Lines() returns (result: seq<seq<char>>)
      requires Valid()
      ensures result == NonEmptyTailLines(Text())
    {
      var n := LineCount();
      result := ExistingLines(rope, n);
      LinesUpToAll(Text(), n);
    }

    /** `line_byte_range`. */
    method LineByteRange(lineIdx: nat) returns (r: Option<(nat, nat)>)
      requires Valid()
      ensures r == TextLines.LineByteRange(Text(), lineIdx)
    {
      r := rope.LineByteRange(lineIdx);
    }

    /** `slice_bytes`. */
    method SliceBytes(start: nat, end: nat) returns (r: seq<char>)
      requires Valid()
      requires start < end && start < Len() ==> IsCharBoundary(Text(), start) && IsCharBoundary(Text(), Min(end, Len()))
      ensures r == SliceBytesSpec(Text(), start, end)
    {
      r := rope.SliceBytes(start, end);
    }
  }
}
