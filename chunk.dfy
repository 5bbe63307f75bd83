/** A chunk: an immutable piece of the rope's text. Every operation builds new chunks. */
module Chunks {
  import opened Options
  import opened Utf8
  import opened TextLines

  datatype Chunk = Chunk(text: seq<char>)
  {
    /** `Chunk::new` (and both `From` conversions): wraps the text unchanged. */
    static function New(text: seq<char>): (c: Chunk)
      ensures c.AsStr() == text && c.Len() == ByteLen(text)
    {
      Chunk(text)
    }

    /** `as_str`: the text, whose byte length is the chunk's length and which wraps back into the same chunk. */
    function AsStr(): (s: seq<char>)
      ensures ByteLen(s) == Len() && Chunk(s) == this
    {
      text
    }

    /** `len`: the length in bytes. */
    function Len(): nat
    {
      ByteLen(text)
    }

    /** `is_empty`: holds exactly when the byte length is zero. */
    function IsEmpty(): (b: bool)
      ensures b <==> Len() == 0
      ensures b <==> text == []
    {
      ByteLenEmpty(text);
      text == []
    }

    /** `count_lines`: the number of newlines. */
    function CountLines(): nat
    {
      NewlineCount(text)
    }

    /** `split_at(pos)` for a boundary `pos`: the halves concatenate to the text and the left one is `pos` bytes long. */
    function SplitAt(pos: nat): (halves: (Chunk, Chunk))
      requires IsCharBoundary(text, pos)
      ensures halves.0.text + halves.1.text == text
      ensures halves.0.Len() == pos && halves.1.Len() == Len() - pos
    {
      var i := CharsBefore(text, pos);
      assert text == text[..i] + text[i..];
      ByteLenConcat(text[..i], text[i..]);
      (Chunk.New(text[..i]), Chunk.New(text[i..]))
    }

    /** `slice(start, end)` for boundaries `start <= end`: the bytes `[start, end)`. */
    function Slice(start: nat, end: nat): (c: Chunk)
      requires start <= end && IsCharBoundary(text, start) && IsCharBoundary(text, end)
      ensures c.text == ByteSlice(text, start, end)
      ensures c.Len() == end - start
      ensures text[..CharsBefore(text, start)] + c.text + text[CharsBefore(text, end)..] == text
    {
      var i := CharsBefore(text, start);
      var j := CharsBefore(text, end);
      CharsBeforeMono(text, start, end);
      assert text[..j] == text[..i] + text[i..j];
      ByteLenConcat(text[..i], text[i..j]);
      assert text == text[..i] + text[i..j] + text[j..];
      Chunk.New(text[i..j])
    }

    /** Byte index of every `'\n'`, ascending (the positions the rope reads at `rope.rs:116`, `:174`). */
    function NewlinePositions(): (ps: seq<nat>)
      ensures |ps| == CountLines()
      ensures forall a, b :: 0 <= a < b < |ps| ==> ps[a] < ps[b]
      ensures forall k :: 0 <= k < |ps| ==> ps[k] < Len() && ps[k] + 1 == LineToByte(text, k + 1)
    {
      NewlinePositionsFromMeaning(text, 0);
      NewlinePositionsFrom(text, 0)
    }

    /** Byte index of the `(k+1)`-th `'\n'`, if there is one. */
    function GetNewlinePosition(k: nat): (r: Option<nat>)
      ensures r.Some? <==> k < CountLines()
      ensures r.Some? ==> r.value < Len() && r.value + 1 == LineToByte(text, k + 1)
    {
      var ps := NewlinePositions();
      if k < |ps| then Some(ps[k]) else None
    }
  }

  /** Byte indices of the newlines of `s`, counted from `base`. */
  function NewlinePositionsFrom(s: seq<char>, base: nat): seq<nat>
  {
    if s == [] then []
    else (if s[0] == '\n' then [base] else []) + NewlinePositionsFrom(s[1..], base + CharWidth(s[0]))
  }

  lemma NewlinePositionsFromMeaning(s: seq<char>, base: nat)
    ensures var ps := NewlinePositionsFrom(s, base);
      && |ps| == NewlineCount(s)
      && (forall a, b :: 0 <= a < b < |ps| ==> ps[a] < ps[b])
      && (forall k :: 0 <= k < |ps| ==> base <= ps[k] < base + ByteLen(s) && ps[k] + 1 == base + LineToByte(s, k + 1))
  {
    var ps := NewlinePositionsFrom(s, base);
    PositionsCount(s, base);
    forall a, b | 0 <= a < b < |ps|
      ensures ps[a] < ps[b]
    {
      PositionsAscending(s, base, a, b);
    }
    forall k | 0 <= k < |ps|
      ensures base <= ps[k] < base + ByteLen(s) && ps[k] + 1 == base + LineToByte(s, k + 1)
    {
      PositionAt(s, base, k);
    }
  }

  /** There is one position per newline. */
  lemma {:induction false} PositionsCount(s: seq<char>, base: nat)
    ensures |NewlinePositionsFrom(s, base)| == NewlineCount(s)
  {
    if s != [] {
      PositionsCount(s[1..], base + CharWidth(s[0]));
    }
  }

  /** The `k`-th position is the newline ending line `k`, inside the text. */
  lemma {:induction false} PositionAt(s: seq<char>, base: nat, k: nat)
    requires k < |NewlinePositionsFrom(s, base)|
    ensures base <= NewlinePositionsFrom(s, base)[k] < base + ByteLen(s)
    ensures NewlinePositionsFrom(s, base)[k] + 1 == base + LineToByte(s, k + 1)
  {
    var w := CharWidth(s[0]);
    var rest := NewlinePositionsFrom(s[1..], base + w);
    var ps := NewlinePositionsFrom(s, base);
    if s[0] == '\n' && k == 0 {
      assert ps[0] == base;
      LineToByteStep(s, 1);
      assert LineToByte(s[1..], 0) == 0 by {
        assert s[1..][..0] == [];
      }
    } else {
      var j := if s[0] == '\n' then k - 1 else k;
      assert ps[k] == rest[j];
      PositionAt(s[1..], base + w, j);
      LineToByteStep(s, k + 1);
    }
  }

  /** The positions ascend. */
  lemma {:induction false} PositionsAscending(s: seq<char>, base: nat, a: nat, b: nat)
    requires a < b < |NewlinePositionsFrom(s, base)|
    ensures NewlinePositionsFrom(s, base)[a] < NewlinePositionsFrom(s, base)[b]
  {
    var w := CharWidth(s[0]);
    var rest := NewlinePositionsFrom(s[1..], base + w);
    var ps := NewlinePositionsFrom(s, base);
    if s[0] == '\n' {
      assert ps[b] == rest[b - 1];
      PositionAt(s[1..], base + w, b - 1);
      if a == 0 {
        assert ps[0] == base;
      } else {
        assert ps[a] == rest[a - 1];
        PositionsAscending(s[1..], base + w, a - 1, b - 1);
      }
    } else {
      assert ps == rest;
      PositionsAscending(s[1..], base + w, a, b);
    }
  }

  /** `count_lines` counts the newline bytes of the UTF-8 encoding. */
  lemma CountLinesOfEncoding(c: Chunk)
    ensures c.CountLines() == CountByte(Encode(c.text), 10)
  {
    NewlineCountOfEncoding(c.text);
  }

  /** The line count is additive across `split_at`. */
  lemma CountLinesSplit(c: Chunk, pos: nat)
    requires IsCharBoundary(c.text, pos)
    ensures c.SplitAt(pos).0.CountLines() + c.SplitAt(pos).1.CountLines() == c.CountLines()
  {
    var (l, r) := c.SplitAt(pos);
    NewlineCountConcat(l.text, r.text);
  }
}
