/**
  The buffer's windowed cache of line start offsets: a run of slots, one per
  line of the window `[rangeStart, rangeEnd)` from its start on, each holding
  the byte offset at which that line starts or nothing. Beside it, the
  calculator of the range to fill ahead of scrolling.
 */
module LineCaches {
  import opened Options
  import opened TextLines
  import opened Ropes

  /** `CACHE_PADDING`: lines cached on either side of a requested range. */
  const CachePadding: nat := 200

  /** `BASE_PADDING` of the scroll prediction. */
  const BasePadding: nat := 100

  /** The cap on the padding that scroll speed adds. */
  const MaxVelocityPadding: nat := 300

  function SaturatingSub(a: nat, b: nat): (r: nat)
    ensures r <= a && (a >= b ==> r == a - b) && (a < b ==> r == 0)
  {
    if a >= b then a - b else 0
  }

  function MinNat(a: nat, b: nat): (r: nat)
    ensures r <= a && r <= b && (r == a || r == b)
  {
    if a < b then a else b
  }

  /** `Range::len`: zero for a range whose start is not below its end. */
  function RangeLen(start: nat, end: nat): (n: nat)
    ensures start + n == end || (n == 0 && end <= start)
  {
    if end > start then end - start else 0
  }

  /** `Range::contains`. */
  predicate InRange(start: nat, end: nat, x: nat)
  {
    start <= x < end
  }

  /** `(a..b).collect()`: the lines from `a` up to but not including `b`. */
  function LinesFrom(a: nat, b: nat): (r: seq<nat>)
    ensures forall l :: l in r <==> a <= l < b
    decreases b - a
  {
    if a >= b then [] else [a] + LinesFrom(a + 1, b)
  }

  /** Every filled slot `i` holds the start of line `start + i` in `s`. */
  ghost predicate SlotsCorrect(offsets: seq<Option<nat>>, start: nat, s: seq<char>)
  {
    forall i :: 0 <= i < |offsets| && offsets[i].Some? ==> offsets[i].value == LineToByte(s, start + i)
  }

  /** The slots after `invalidate_lines(lines)`: each listed line inside the window loses its entry. */
  function InvalidatedSlots(offsets: seq<Option<nat>>, start: nat, end: nat, lines: seq<nat>): (r: seq<Option<nat>>)
    ensures |r| == |offsets|
  {
    seq(|offsets|, i requires 0 <= i < |offsets| =>
      if start + i < end && start + i in lines then None else offsets[i])
  }

  /**
    The window `(range_start, range_end, slots)` after `update_line_count(n)`:
    kept while it ends within `n`, reset to `0..n` and emptied when it starts
    past `n`, and otherwise cut to end at `n` with the slots beyond dropped.
   */
  function ResizedWindow(start: nat, end: nat, slots: seq<Option<nat>>, n: nat): (w: (nat, nat, seq<Option<nat>>))
    ensures w.1 <= n && w.1 <= end
    ensures |w.2| <= |slots| && w.2 == slots[..|w.2|]
    ensures end <= n ==> w == (start, end, slots)
    ensures w.0 == start || (start > n && w.0 == 0 && w.2 == [])
  {
    if end <= n then (start, end, slots)
    else if start > n then (0, n, [])
    else (start, n, slots[..MinNat(|slots|, n - start)])
  }

  /**
    Forgetting every line from `line` on and then resizing the window: the
    slots of lines before `line` keep their entries, the later ones are
    empty, and the window keeps its start unless it was emptied.
   */
  lemma ForgetFromResized(slots: seq<Option<nat>>, start: nat, end: nat, line: nat, lineCount: nat, n: nat)
    requires |slots| <= RangeLen(start, end) && end <= lineCount
    ensures var w := ResizedWindow(start, end, InvalidatedSlots(slots, start, end, LinesFrom(line, lineCount)), n);
      && (w.0 == start || w.2 == [])
      && |w.2| <= |slots|
      && forall i :: 0 <= i < |w.2| ==> w.2[i] == if start + i < line then slots[i] else None
  {
    var inv := InvalidatedSlots(slots, start, end, LinesFrom(line, lineCount));
    var w := ResizedWindow(start, end, inv, n);
    forall i | 0 <= i < |w.2|
      ensures w.2[i] == if start + i < line then slots[i] else None
    {
      assert w.2[i] == inv[i];
      assert start + i in LinesFrom(line, lineCount) <==> line <= start + i;
    }
  }

  /**
    Invalidation keeps the cache correct for a new text exactly when every
    surviving entry's line starts where it did: lines that are listed (or lie
    past the window) may move, all others must not.
   */
  lemma InvalidationKeepsCorrect(offsets: seq<Option<nat>>, start: nat, end: nat, lines: seq<nat>, s: seq<char>, s': seq<char>)
    requires SlotsCorrect(offsets, start, s)
    requires forall l :: start <= l < start + |offsets| && l < end && l !in lines ==> LineToByte(s', l) == LineToByte(s, l)
    requires start + |offsets| <= end
    ensures SlotsCorrect(InvalidatedSlots(offsets, start, end, lines), start, s')
  {
    var r := InvalidatedSlots(offsets, start, end, lines);
    forall i | 0 <= i < |r| && r[i].Some?
      ensures r[i].value == LineToByte(s', start + i)
    {
      assert r[i] == offsets[i];
    }
  }

  /** `ScrollDirection`. */
  datatype ScrollDirection = Up | Down | Stationary

  /** Filled slots, the `cached_lines` of the statistics. */
  function CountSome(offsets: seq<Option<nat>>): (n: nat)
    ensures n <= |offsets|
    ensures n == 0 <==> forall i :: 0 <= i < |offsets| ==> offsets[i].None?
  {
    if offsets == [] then 0
    else
      var rest := CountSome(offsets[1..]);
      assert forall i :: 1 <= i < |offsets| ==> offsets[i] == offsets[1..][i - 1];
      (if offsets[0].Some? then 1 else 0) + rest
  }

  /** `CacheStats` without the floating-point hit rate. */
  datatype CacheStats = CacheStats(hits: nat, misses: nat, cachedLines: nat, totalCapacity: nat)

  /** The total padding of the scroll prediction: the base plus the capped speed padding. */
  function TotalPadding(velocityPadding: nat): (p: nat)
    ensures BasePadding <= p <= BasePadding + MaxVelocityPadding
  {
    BasePadding + MinNat(velocityPadding, MaxVelocityPadding)
  }

  class PredictiveCache {
    var visibleStart: nat
    var visibleEnd: nat
    var precalcStart: nat
    var precalcEnd: nat
    var scrollDirection: ScrollDirection
    /** `(scroll_velocity * VELOCITY_MULTIPLIER) as usize`, the padding that scroll speed calls for. */
    var velocityPadding: nat

    /** `PredictiveCache::new`. */
    constructor ()
      ensures visibleStart == 0 && visibleEnd == 0 && precalcStart == 0 && precalcEnd == 0
      ensures scrollDirection == Stationary && velocityPadding == 0
    {
      visibleStart, visibleEnd := 0, 0;
      precalcStart, precalcEnd := 0, 0;
      scrollDirection := Stationary;
      velocityPadding := 0;
    }

    /** A copy of every field into a fresh calculator. */
    method Clone() returns (c: PredictiveCache)
      ensures fresh(c)
      ensures c.visibleStart == visibleStart && c.visibleEnd == visibleEnd
      ensures c.precalcStart == precalcStart && c.precalcEnd == precalcEnd
      ensures c.scrollDirection == scrollDirection && c.velocityPadding == velocityPadding
    {
      c := new PredictiveCache();
      c.visibleStart, c.visibleEnd := visibleStart, visibleEnd;
      c.precalcStart, c.precalcEnd := precalcStart, precalcEnd;
      c.scrollDirection, c.velocityPadding := scrollDirection, velocityPadding;
    }

    /**
      `update_scroll_prediction`, with the direction and the speed padding that
      the source derives from the float scroll delta and frame time given directly.
     */
    method UpdateScrollPrediction(newStart: nat, newEnd: nat, direction: ScrollDirection, speedPadding: nat)
      modifies this
      ensures scrollDirection == direction && velocityPadding == speedPadding
      ensures visibleStart == newStart && visibleEnd == newEnd
      ensures (precalcStart, precalcEnd) == CalculatePrecalcRange(newStart, newEnd)
    {
      velocityPadding := speedPadding;
      scrollDirection := direction;
      visibleStart, visibleEnd := newStart, newEnd;
      var r := CalculatePrecalcRange(newStart, newEnd);
      precalcStart, precalcEnd := r.0, r.1;
    }

    /**
      `calculate_precalc_range`: the visible range widened by the padding on
      both sides, twice as far in the direction of scrolling.
     */
    function CalculatePrecalcRange(start: nat, end: nat): (r: (nat, nat))
      reads this
      ensures r.0 <= start && end <= r.1
      ensures var p := TotalPadding(velocityPadding);
        && (scrollDirection == Down <==> r.1 - end == 2 * p)
        && (scrollDirection != Down ==> r.1 - end == p)
        && (scrollDirection == Up ==> start - r.0 == MinNat(start, 2 * p))
        && (scrollDirection != Up ==> start - r.0 == MinNat(start, p))
        && (start >= 2 * p ==> (scrollDirection == Up <==> start - r.0 == 2 * p))
    {
      var p := TotalPadding(velocityPadding);
      match scrollDirection
      case Up => (SaturatingSub(start, p * 2), end + p)
      case Down => (SaturatingSub(start, p), end + p * 2)
      case Stationary => (SaturatingSub(start, p), end + p)
    }

    /** `get_precalc_range`: the stored range clamped to the text's lines. */
    function GetPrecalcRange(totalLines: nat): (r: (nat, nat))
      reads this
      ensures r.1 <= totalLines && r.1 <= precalcEnd && r.0 <= precalcStart
      ensures r.0 <= SaturatingSub(totalLines, 1)
      ensures precalcEnd <= totalLines ==> r.1 == precalcEnd
      ensures precalcStart < totalLines ==> r.0 == precalcStart
    {
      (MinNat(precalcStart, SaturatingSub(totalLines, 1)), MinNat(precalcEnd, totalLines))
    }
  }

  /** Slots copied from another window, line for line, are correct wherever the old ones were. */
  lemma KeptSlotsCorrect(old0: seq<Option<nat>>, oldStart: nat, slots: seq<Option<nat>>, start: nat)
    requires forall k :: 0 <= k < |slots| && slots[k].Some? ==>
      oldStart <= start + k < oldStart + |old0| && slots[k] == old0[start + k - oldStart]
    ensures forall s :: SlotsCorrect(old0, oldStart, s) ==> SlotsCorrect(slots, start, s)
  {
    forall s | SlotsCorrect(old0, oldStart, s) ensures SlotsCorrect(slots, start, s) {
      forall k | 0 <= k < |slots| && slots[k].Some? ensures slots[k].value == LineToByte(s, start + k) {
        var j := start + k - oldStart;
        assert old0[j].Some? && oldStart + j == start + k;
      }
    }
  }

  class LineOffsetCache {
    /** One slot per line of the window from its start on. */
    var cachedOffsets: seq<Option<nat>>
    var rangeStart: nat
    var rangeEnd: nat
    var currentVersion: nat
    var totalLines: nat
    var cacheHits: nat
    var cacheMisses: nat

    /** No slot lies beyond the window, and the window ends within the text's lines. */
    ghost predicate Valid()
      reads this
    {
      |cachedOffsets| <= RangeLen(rangeStart, rangeEnd) && rangeEnd <= totalLines
    }

    /** The slots are a true cache of the line starts of `s`. */
    ghost predicate Correct(s: seq<char>)
      reads this
    {
      SlotsCorrect(cachedOffsets, rangeStart, s)
    }

    /** `LineOffsetCache::new`: an empty window. */
    constructor (lines: nat)
      ensures Valid() && cachedOffsets == [] && rangeStart == 0 && rangeEnd == 0
      ensures totalLines == lines && currentVersion == 0 && cacheHits == 0 && cacheMisses == 0
    {
      cachedOffsets := [];
      rangeStart, rangeEnd := 0, 0;
      currentVersion := 0;
      totalLines := lines;
      cacheHits, cacheMisses := 0, 0;
    }

    /** A copy of every field into a fresh cache. */
    method Clone() returns (c: LineOffsetCache)
      ensures fresh(c)
      ensures c.cachedOffsets == cachedOffsets && c.rangeStart == rangeStart && c.rangeEnd == rangeEnd
      ensures c.currentVersion == currentVersion && c.totalLines == totalLines
      ensures c.cacheHits == cacheHits && c.cacheMisses == cacheMisses
    {
      c := new LineOffsetCache(totalLines);
      c.cachedOffsets := cachedOffsets;
      c.rangeStart, c.rangeEnd := rangeStart, rangeEnd;
      c.currentVersion := currentVersion;
      c.cacheHits, c.cacheMisses := cacheHits, cacheMisses;
    }

    /** `is_cached`: `line` is inside the window and has a slot. */
    function IsCached(line: nat): (b: bool)
      reads this
      ensures Valid() ==> (b <==> rangeStart <= line < rangeStart + |cachedOffsets|)
    {
      InRange(rangeStart, rangeEnd, line) && line - rangeStart < |cachedOffsets|
    }

    /** `get_cached_offset`: the slot of `line`, nothing when it has none. */
    function GetCachedOffset(line: nat): (r: Option<nat>)
      reads this
      ensures r.Some? ==> IsCached(line) && r == cachedOffsets[line - rangeStart]
      ensures IsCached(line) ==> r == cachedOffsets[line - rangeStart]
    {
      if IsCached(line) then cachedOffsets[line - rangeStart] else None
    }

    /** A hit from a correct cache is the true line start. */
    lemma CachedOffsetIsCorrect(s: seq<char>, line: nat)
      requires Correct(s) && GetCachedOffset(line).Some?
      ensures GetCachedOffset(line).value == LineToByte(s, line)
    {
      var i := line - rangeStart;
      assert rangeStart + i == line;
    }

    /** `expand_range_for_caching`: the range padded on both sides, cut at the last line. */
    function ExpandRangeForCaching(start: nat, end: nat): (r: (nat, nat))
      reads this
      ensures r.1 <= totalLines
      ensures r.0 <= start && MinNat(end, totalLines) <= r.1
      ensures r == (SaturatingSub(start, CachePadding), MinNat(end + CachePadding, totalLines))
    {
      (SaturatingSub(start, CachePadding), MinNat(end + CachePadding, totalLines))
    }

    /** `should_expand_cache`: the window is empty, or `line` lies within the padding of one of its ends. */
    function ShouldExpandCache(line: nat): (b: bool)
      reads this
      ensures rangeStart >= rangeEnd ==> b
      ensures rangeStart < rangeEnd && InRange(rangeStart, rangeEnd, line) ==> !b
      ensures rangeStart < rangeEnd && (line + CachePadding <= rangeStart || rangeEnd + CachePadding <= line) ==> !b
    {
      rangeStart >= rangeEnd
      || (line < rangeStart && rangeStart - line < CachePadding)
      || (line >= rangeEnd && line - rangeEnd < CachePadding)
    }

    /**
      `expand_range_to_include`: the window extended, with padding, towards
      `line`. The result holds `line` whenever the text has it, and holds a
      non-empty window that ends within the text.
     */
    function ExpandRangeToInclude(line: nat): (r: (nat, nat))
      reads this
      ensures line < totalLines ==> r.0 <= line < r.1
      ensures rangeStart < rangeEnd <= totalLines ==> r.0 <= rangeStart && rangeEnd <= r.1
      ensures rangeEnd <= totalLines ==> r.1 <= totalLines
    {
      if rangeStart >= rangeEnd then
        (SaturatingSub(line, CachePadding), MinNat(line + CachePadding, totalLines))
      else
        (if line < rangeStart then SaturatingSub(line, CachePadding) else rangeStart,
         if line >= rangeEnd then MinNat(line + CachePadding, totalLines) else rangeEnd)
    }

    /** Every slot of the window is filled: the line start of `s` for a line the text has, nothing past the last line. */
    ghost predicate Filled(s: seq<char>)
      reads this
    {
      && |cachedOffsets| == RangeLen(rangeStart, rangeEnd)
      && forall k :: 0 <= k < |cachedOffsets| ==>
           cachedOffsets[k] == if rangeStart + k < totalLines then Some(LineToByte(s, rangeStart + k)) else None
    }

    /** The window, its slots and the version are as they were. */
    twostate predicate WindowKept()
      reads this
    {
      && rangeStart == old(rangeStart) && rangeEnd == old(rangeEnd)
      && cachedOffsets == old(cachedOffsets) && currentVersion == old(currentVersion)
    }

    /**
      The window after `ensure_range_cached(start, end)` over a text `s`: kept
      when the range lay inside it, otherwise the padded range, filled, with
      the version moved on.
     */
    twostate predicate WindowEnsured(s: seq<char>, start: nat, end: nat)
      reads this
    {
      if old(start >= rangeStart && end <= rangeEnd) then WindowKept()
      else
        && (rangeStart, rangeEnd) == old(ExpandRangeForCaching(start, end))
        && Filled(s)
        && currentVersion == old(currentVersion) + 1
    }

    /**
      The cache after an edit's `invalidate_lines(lines)` and
      `update_line_count(n)`: the listed lines forgotten, the window resized to
      the new count, the version moved on twice and the counters kept.
     */
    twostate predicate Refreshed(lines: seq<nat>, n: nat)
      reads this
    {
      && (rangeStart, rangeEnd, cachedOffsets)
         == ResizedWindow(old(rangeStart), old(rangeEnd), InvalidatedSlots(old(cachedOffsets), old(rangeStart), old(rangeEnd), lines), n)
      && totalLines == n && currentVersion == old(currentVersion) + 2
      && cacheHits == old(cacheHits) && cacheMisses == old(cacheMisses)
    }

    /**
      `ensure_range_cached`: nothing to do when the range lies inside the
      window; otherwise the window becomes the padded range and every slot of a
      line the text has is filled from the rope.
     */
    method EnsureRangeCached(rope: Rope, start: nat, end: nat)
      requires Valid() && rope.Valid()
      modifies this
      ensures Valid()
      ensures WindowEnsured(rope.Text(), start, end)
      ensures totalLines == old(totalLines) && cacheHits == old(cacheHits) && cacheMisses == old(cacheMisses)
      ensures old(Correct(rope.Text())) ==> Correct(rope.Text())
    {
      if start >= rangeStart && end <= rangeEnd {
        return;
      }
      var r := ExpandRangeForCaching(start, end);
      var n := RangeLen(r.0, r.1);
      var slots := FillSlots(rope, r.0, n, totalLines);
      rangeStart, rangeEnd := r.0, r.1;
      cachedOffsets := slots;
      currentVersion := currentVersion + 1;
    }

    /** `ensure_range_cached_impl` (unused by the source): the window becomes `[start, end)`, keeping the slots it already had. */
    method EnsureRangeCachedImpl(start: nat, end: nat)
      modifies this
      ensures end <= totalLines ==> Valid()
      ensures rangeStart == start && rangeEnd == end
      ensures |cachedOffsets| == RangeLen(start, end)
      ensures forall k :: 0 <= k < |cachedOffsets| ==> cachedOffsets[k] == old(GetCachedOffset(start + k))
      ensures currentVersion == old(currentVersion) && totalLines == old(totalLines)
      ensures cacheHits == old(cacheHits) && cacheMisses == old(cacheMisses)
      ensures forall s :: old(Correct(s)) ==> Correct(s)
    {
      var slots := CopiedSlots(start, RangeLen(start, end));
      KeptSlotsCorrect(cachedOffsets, rangeStart, slots, start);
      rangeStart, rangeEnd := start, end;
      cachedOffsets := slots;
    }

    /** The loop of `ensure_range_cached_impl`: a fresh vector of `n` slots, each filled from the current window where it has the line. */
    method CopiedSlots(start: nat, n: nat) returns (r: seq<Option<nat>>)
      ensures |r| == n && forall k :: 0 <= k < n ==> r[k] == GetCachedOffset(start + k)
    {
      var slots := new Option<nat>[n](_ => None);
      var line := start;
      while line < start + n
        modifies slots
        invariant start <= line <= start + n
        invariant forall k :: 0 <= k < line - start ==> slots[k] == GetCachedOffset(start + k)
        invariant forall k :: line - start <= k < n ==> slots[k] == None
      {
        var o := GetCachedOffset(line);
        if o.Some? {
          slots[line - start] := o;
        }
        line := line + 1;
      }
      r := slots[..];
    }

    /**
      `get_offsets_zero_alloc`: the start offset of every requested line, in
      order, from the cache where it has the line and from the rope otherwise
      (a miss may also refill the window). From a correct cache every answer is
      the true line start, and the cache stays correct.
     */
    method GetOffsetsZeroAlloc(lines: seq<nat>, rope: Rope) returns (out: seq<nat>)
      requires Valid() && rope.Valid()
      modifies this
      ensures Valid() && |out| == |lines|
      ensures cacheHits + cacheMisses == old(cacheHits + cacheMisses) + |lines|
      ensures totalLines == old(totalLines)
      ensures WindowKept() || Filled(rope.Text())
      ensures old(Correct(rope.Text())) ==>
        Correct(rope.Text()) && forall k :: 0 <= k < |lines| ==> out[k] == LineToByte(rope.Text(), lines[k])
    {
      ghost var s := rope.Text();
      ghost var correct := Correct(s);
      ghost var window0 := (rangeStart, rangeEnd, cachedOffsets, currentVersion);
      out := [];
      var j := 0;
      while j < |lines|
        invariant 0 <= j <= |lines| && |out| == j
        invariant Valid() && totalLines == old(totalLines)
        invariant cacheHits + cacheMisses == old(cacheHits + cacheMisses) + j
        invariant (rangeStart, rangeEnd, cachedOffsets, currentVersion) == window0 || Filled(s)
        invariant correct ==> Correct(s) && forall k :: 0 <= k < j ==> out[k] == LineToByte(s, lines[k])
      {
        var offset := OffsetOf(lines[j], rope);
        out := out + [offset];
        j := j + 1;
      }
    }

    /** One line of `get_offsets_zero_alloc`: a hit from the slot, or a miss answered by the rope. */
    method OffsetOf(line: nat, rope: Rope) returns (offset: nat)
      requires Valid() && rope.Valid()
      modifies this
      ensures Valid() && totalLines == old(totalLines)
      ensures cacheHits + cacheMisses == old(cacheHits + cacheMisses) + 1
      ensures old(GetCachedOffset(line)).Some? ==> offset == old(GetCachedOffset(line)).value && cacheHits == old(cacheHits) + 1
      ensures old(GetCachedOffset(line)).None? ==> offset == LineToByte(rope.Text(), line) && cacheMisses == old(cacheMisses) + 1
      ensures old(GetCachedOffset(line)).Some? || !old(ShouldExpandCache(line)) ==> WindowKept()
      ensures old(GetCachedOffset(line)).None? && old(ShouldExpandCache(line)) ==>
        WindowEnsured(rope.Text(), old(ExpandRangeToInclude(line)).0, old(ExpandRangeToInclude(line)).1)
      ensures WindowKept() || Filled(rope.Text())
      ensures old(Correct(rope.Text())) ==> Correct(rope.Text()) && offset == LineToByte(rope.Text(), line)
    {
      var hit := GetCachedOffset(line);
      if hit.Some? {
        if Correct(rope.Text()) {
          CachedOffsetIsCorrect(rope.Text(), line);
        }
        offset := hit.value;
        cacheHits := cacheHits + 1;
      } else {
        offset := rope.LineToByte(line);
        // Counting the miss first changes nothing: the window update never reads the counters.
        cacheMisses := cacheMisses + 1;
        CacheMissCalculate(line, offset, rope);
      }
    }

    /** `cache_miss_calculate`: on a miss near the window, grow the window towards the line. */
    method CacheMissCalculate(line: nat, offset: nat, rope: Rope)
      requires Valid() && rope.Valid()
      modifies this
      ensures Valid()
      ensures !old(ShouldExpandCache(line)) ==> unchanged(this)
      ensures old(ShouldExpandCache(line)) ==>
        WindowEnsured(rope.Text(), old(ExpandRangeToInclude(line)).0, old(ExpandRangeToInclude(line)).1)
      ensures WindowKept() || Filled(rope.Text())
      ensures totalLines == old(totalLines) && cacheHits == old(cacheHits) && cacheMisses == old(cacheMisses)
      ensures old(Correct(rope.Text())) ==> Correct(rope.Text())
    {
      if ShouldExpandCache(line) {
        var r := ExpandRangeToInclude(line);
        EnsureRangeCached(rope, r.0, r.1);
      }
    }

    /**
      `invalidate_range_with_shift`: when `startLine` is inside the window,
      every slot from its own on is emptied; otherwise nothing changes.
     */
    method InvalidateRangeWithShift(startLine: nat, insertedLines: nat)
      requires Valid()
      modifies this
      ensures Valid()
      ensures !old(InRange(rangeStart, rangeEnd, startLine)) ==> unchanged(this)
      ensures old(InRange(rangeStart, rangeEnd, startLine)) ==>
        && |cachedOffsets| == old(|cachedOffsets|)
        && (forall i :: 0 <= i < |cachedOffsets| ==>
              cachedOffsets[i] == if rangeStart + i >= startLine then None else old(cachedOffsets[i]))
        && currentVersion == old(currentVersion) + 1
      ensures rangeStart == old(rangeStart) && rangeEnd == old(rangeEnd) && totalLines == old(totalLines)
      ensures cacheHits == old(cacheHits) && cacheMisses == old(cacheMisses)
    {
      if !InRange(rangeStart, rangeEnd, startLine) {
        return;
      }
      var cacheStartIdx := if startLine >= rangeStart then startLine - rangeStart else 0;
      var slots := cachedOffsets;
      var i := cacheStartIdx;
      while i < |slots|
        invariant |slots| == |cachedOffsets| && cacheStartIdx <= i
        invariant forall k :: 0 <= k < |slots| ==>
          slots[k] == if cacheStartIdx <= k < i then None else cachedOffsets[k]
      {
        slots := slots[i := None];
        i := i + 1;
      }
      cachedOffsets := slots;
      currentVersion := currentVersion + 1;
    }

    /** `invalidate_lines`: each listed line inside the window loses its entry; the version moves on. */
    method InvalidateLines(lines: seq<nat>)
      requires Valid()
      modifies this
      ensures Valid()
      ensures cachedOffsets == InvalidatedSlots(old(cachedOffsets), rangeStart, rangeEnd, lines)
      ensures currentVersion == old(currentVersion) + 1
      ensures rangeStart == old(rangeStart) && rangeEnd == old(rangeEnd) && totalLines == old(totalLines)
      ensures cacheHits == old(cacheHits) && cacheMisses == old(cacheMisses)
    {
      var slots := cachedOffsets;
      var j := 0;
      while j < |lines|
        invariant 0 <= j <= |lines|
        invariant slots == InvalidatedSlots(cachedOffsets, rangeStart, rangeEnd, lines[..j])
      {
        var line := lines[j];
        if InRange(rangeStart, rangeEnd, line) {
          var cacheIndex := line - rangeStart;
          if cacheIndex < |slots| {
            slots := slots[cacheIndex := None];
          }
        }
        assert lines[..j + 1] == lines[..j] + [line];
        j := j + 1;
      }
      assert lines[..j] == lines;
      cachedOffsets := slots;
      currentVersion := currentVersion + 1;
    }

    /** `invalidate_all`: an empty window. */
    method InvalidateAll()
      modifies this
      ensures Valid() && rangeStart == 0 && rangeEnd == 0 && cachedOffsets == []
      ensures currentVersion == old(currentVersion) + 1 && totalLines == old(totalLines)
      ensures cacheHits == old(cacheHits) && cacheMisses == old(cacheMisses)
    {
      rangeStart, rangeEnd := 0, 0;
      cachedOffsets := [];
      currentVersion := currentVersion + 1;
    }

    /**
      `predictive_ensure_cached`. Whether the scroll was recent enough
      (`should_precache`, a clock reading) is given as `precache`.
     */
    method PredictiveEnsureCached(rope: Rope, predictive: PredictiveCache, lines: nat, precache: bool)
      requires Valid() && rope.Valid()
      modifies this
      ensures Valid()
      ensures var r := predictive.GetPrecalcRange(lines);
        !(precache && r.0 < r.1) ==> unchanged(this)
      ensures var r := predictive.GetPrecalcRange(lines);
        precache && r.0 < r.1 ==> WindowEnsured(rope.Text(), r.0, r.1)
      ensures totalLines == old(totalLines) && cacheHits == old(cacheHits) && cacheMisses == old(cacheMisses)
      ensures old(Correct(rope.Text())) ==> Correct(rope.Text())
    {
      if precache {
        var r := predictive.GetPrecalcRange(lines);
        if r.0 < r.1 {
          EnsureRangeCached(rope, r.0, r.1);
        }
      }
    }

    /** `smart_eviction`: drop everything when both the slots and the window exceed the limit. */
    method SmartEviction(maxCachedLines: nat)
      requires Valid()
      modifies this
      ensures Valid()
      ensures old(|cachedOffsets| > maxCachedLines && RangeLen(rangeStart, rangeEnd) > maxCachedLines) ==>
        rangeStart == 0 && rangeEnd == 0 && cachedOffsets == [] && currentVersion == old(currentVersion) + 1
      ensures !old(|cachedOffsets| > maxCachedLines && RangeLen(rangeStart, rangeEnd) > maxCachedLines) ==> unchanged(this)
      ensures totalLines == old(totalLines) && cacheHits == old(cacheHits) && cacheMisses == old(cacheMisses)
    {
      if |cachedOffsets| > maxCachedLines {
        if RangeLen(rangeStart, rangeEnd) > maxCachedLines {
          rangeStart, rangeEnd := 0, 0;
          cachedOffsets := [];
          currentVersion := currentVersion + 1;
        }
      }
    }

    /**
      `update_line_count`: a window reaching past the new last line is cut
      there; one that started past it is emptied and moved to 0. The slots
      kept are a prefix of the old ones.
     */
    method UpdateLineCount(newTotalLines: nat)
      requires Valid()
      modifies this
      ensures Valid() && totalLines == newTotalLines
      ensures old(rangeEnd) <= newTotalLines ==>
        rangeStart == old(rangeStart) && rangeEnd == old(rangeEnd) && cachedOffsets == old(cachedOffsets)
      ensures old(rangeEnd) > newTotalLines && old(rangeStart) > newTotalLines ==>
        rangeStart == 0 && rangeEnd == newTotalLines && cachedOffsets == []
      ensures old(rangeEnd) > newTotalLines && old(rangeStart) <= newTotalLines ==>
        && rangeStart == old(rangeStart) && rangeEnd == newTotalLines
        && cachedOffsets == old(cachedOffsets)[..MinNat(|old(cachedOffsets)|, newTotalLines - old(rangeStart))]
      ensures rangeEnd <= old(rangeEnd) && rangeEnd <= newTotalLines
      ensures (rangeStart, rangeEnd, cachedOffsets) == ResizedWindow(old(rangeStart), old(rangeEnd), old(cachedOffsets), newTotalLines)
      ensures currentVersion == old(currentVersion) + 1
      ensures cacheHits == old(cacheHits) && cacheMisses == old(cacheMisses)
      ensures forall s :: old(Correct(s)) ==> Correct(s)
    {
      totalLines := newTotalLines;
      if rangeEnd > newTotalLines {
        rangeEnd := newTotalLines;
        if rangeStart > newTotalLines {
          rangeStart := 0;
          cachedOffsets := [];
        } else {
          var newLen := newTotalLines - rangeStart;
          if newLen < |cachedOffsets| {
            cachedOffsets := cachedOffsets[..newLen];
          }
        }
      }
      currentVersion := currentVersion + 1;
    }

    /** `set_cache_stats`. */
    method SetCacheStats(hits: nat, misses: nat)
      modifies this
      ensures cacheHits == hits && cacheMisses == misses
      ensures cachedOffsets == old(cachedOffsets) && rangeStart == old(rangeStart) && rangeEnd == old(rangeEnd)
      ensures currentVersion == old(currentVersion) && totalLines == old(totalLines)
    {
      cacheHits, cacheMisses := hits, misses;
    }

    /** `cache_stats`, without the hit rate: the counters, the filled slots and all slots. */
    function Stats(): (r: CacheStats)
      reads this
      ensures r.hits == cacheHits && r.misses == cacheMisses && r.totalCapacity == |cachedOffsets|
      ensures r.cachedLines <= r.totalCapacity
      ensures r.cachedLines == 0 <==> forall i :: 0 <= i < |cachedOffsets| ==> cachedOffsets[i].None?
    {
      CacheStats(cacheHits, cacheMisses, CountSome(cachedOffsets), |cachedOffsets|)
    }
  }

  /**
    The refill loop of `ensure_range_cached`: `vec![None; n]`, then for each
    line of the window that the text has, its start from the rope.
   */
  method FillSlots(rope: Rope, start: nat, n: nat, totalLines: nat) returns (slots: seq<Option<nat>>)
    requires rope.Valid()
    ensures |slots| == n
    ensures forall k :: 0 <= k < n ==>
      slots[k] == if start + k < totalLines then Some(LineToByte(rope.Text(), start + k)) else None
  {
    var a := new Option<nat>[n](_ => None);
    var i := 0;
    while i < n
      invariant 0 <= i <= n
      invariant forall k :: 0 <= k < i ==>
        a[k] == if start + k < totalLines then Some(LineToByte(rope.Text(), start + k)) else None
      invariant forall k :: i <= k < n ==> a[k] == None
    {
      var line := start + i;
      if line < totalLines {
        var offset := rope.LineToByte(line);
        a[i] := Some(offset);
      }
      i := i + 1;
    }
    slots := a[..];
  }
}
