/**
  Text is held as a sequence of Unicode scalar values, exactly what a Rust
  `String` can contain. Every byte offset of the source is an offset into the
  UTF-8 encoding of that sequence; this module gives the encoding, its length,
  the character boundaries and the byte slices in terms of characters.
 */
module Utf8 {

  /** Bytes in the UTF-8 encoding of `c` (Rust's `char::len_utf8`). */
  function CharWidth(c: char): (w: nat)
    ensures 1 <= w <= 4
    ensures w == 1 <==> c as int < 0x80
  {
    if c as int < 0x80 then 1
    else if c as int < 0x800 then 2
    else if c as int < 0x1_0000 then 3
    else 4
  }

  /** The UTF-8 encoding of one character, each byte as a number below 256. */
  function EncodeChar(c: char): (bytes: seq<nat>)
    ensures |bytes| == CharWidth(c)
    ensures forall i :: 0 <= i < |bytes| ==> bytes[i] < 256
    ensures forall i :: 0 <= i < |bytes| && |bytes| > 1 ==> bytes[i] >= 0x80
  {
    var v := c as int;
    if v < 0x80 then [v]
    else if v < 0x800 then [0xC0 + v / 64, 0x80 + v % 64]
    else if v < 0x1_0000 then [0xE0 + v / 4096, 0x80 + (v / 64) % 64, 0x80 + v % 64]
    else [0xF0 + v / 262144, 0x80 + (v / 4096) % 64, 0x80 + (v / 64) % 64, 0x80 + v % 64]
  }

  /** The UTF-8 encoding of a text (Rust's `str::as_bytes`). */
  function Encode(s: seq<char>): seq<nat>
  {
    if s == [] then [] else EncodeChar(s[0]) + Encode(s[1..])
  }

  /** Length in bytes of the UTF-8 encoding (Rust's `str::len`). */
  function ByteLen(s: seq<char>): nat
  {
    if s == [] then 0 else CharWidth(s[0]) + ByteLen(s[1..])
  }

  lemma {:induction false} EncodeLength(s: seq<char>)
    ensures |Encode(s)| == ByteLen(s)
  {
    if s != [] {
      EncodeLength(s[1..]);
    }
  }

  lemma {:induction false} ByteLenConcat(a: seq<char>, b: seq<char>)
    ensures ByteLen(a + b) == ByteLen(a) + ByteLen(b)
  {
    if a == [] {
      assert a + b == b;
    } else {
      assert (a + b)[1..] == a[1..] + b;
      ByteLenConcat(a[1..], b);
    }
  }

  lemma ByteLenEmpty(s: seq<char>)
    ensures ByteLen(s) == 0 <==> s == []
  {
  }

  /** Byte length never falls below the character count and is equal to it exactly on ASCII text. */
  lemma {:induction false} ByteLenAtLeastLength(s: seq<char>)
    ensures |s| <= ByteLen(s)
    ensures ByteLen(s) == |s| <==> forall i :: 0 <= i < |s| ==> s[i] as int < 0x80
  {
    if s != [] {
      ByteLenAtLeastLength(s[1..]);
      assert forall i :: 0 <= i < |s| - 1 ==> s[1..][i] == s[i + 1];
    }
  }

  /** Appending one character adds its width. */
  lemma ByteLenSnoc(s: seq<char>, k: nat)
    requires k < |s|
    ensures ByteLen(s[..k + 1]) == ByteLen(s[..k]) + CharWidth(s[k])
  {
    assert s[..k + 1] == s[..k] + [s[k]];
    ByteLenConcat(s[..k], [s[k]]);
  }

  /** Byte lengths of prefixes grow with the prefix. */
  lemma ByteLenPrefixMono(s: seq<char>, i: nat, j: nat)
    requires i <= j <= |s|
    ensures ByteLen(s[..i]) + (j - i) <= ByteLen(s[..j])
  {
    assert s[..j] == s[..i] + s[i..j];
    ByteLenConcat(s[..i], s[i..j]);
    ByteLenAtLeastLength(s[i..j]);
  }

  /**
    The number of characters whose first byte lies before byte offset `b`.
    For a character boundary `b` this is the character index at `b`.
   */
  function CharsBefore(s: seq<char>, b: int): (n: nat)
    ensures n <= |s|
  {
    if s == [] || b <= 0 then 0 else 1 + CharsBefore(s[1..], b - CharWidth(s[0]))
  }

  /** Rust's `str::is_char_boundary`: `b` is at most the length and no character straddles it. */
  predicate IsCharBoundary(s: seq<char>, b: int)
  {
    0 <= b <= ByteLen(s) && ByteLen(s[..CharsBefore(s, b)]) == b
  }

  /** The bytes `[a, b)` of `s`, for boundaries `a <= b` (Rust's `&s[a..b]`). */
  function ByteSlice(s: seq<char>, a: int, b: int): (r: seq<char>)
    requires a <= b
  {
    CharsBeforeMono(s, a, b);
    s[CharsBefore(s, a)..CharsBefore(s, b)]
  }

  lemma {:induction false} CharsBeforeMono(s: seq<char>, a: int, b: int)
    requires a <= b
    ensures CharsBefore(s, a) <= CharsBefore(s, b)
  {
    if s != [] && a > 0 {
      CharsBeforeMono(s[1..], a - CharWidth(s[0]), b - CharWidth(s[0]));
    }
  }

  /** The byte offset of character index `i` maps back to `i`. */
  lemma {:induction false} CharsBeforePrefix(s: seq<char>, i: nat)
    requires i <= |s|
    ensures CharsBefore(s, ByteLen(s[..i])) == i
  {
    if i > 0 {
      assert s[..i][1..] == s[1..][..i - 1];
      CharsBeforePrefix(s[1..], i - 1);
    }
  }

  /** Every character index is at a boundary. */
  lemma BoundaryOfPrefix(s: seq<char>, i: nat)
    requires i <= |s|
    ensures IsCharBoundary(s, ByteLen(s[..i]))
  {
    CharsBeforePrefix(s, i);
    ByteLenPrefixMono(s, i, |s|);
    assert s[..|s|] == s;
  }

  /** A byte offset reached by some character index is a boundary. */
  lemma BoundaryAtPrefix(s: seq<char>, i: nat, b: int)
    requires i <= |s| && ByteLen(s[..i]) == b
    ensures IsCharBoundary(s, b)
  {
    BoundaryOfPrefix(s, i);
  }

  /** Past the end every character is counted. */
  lemma {:induction false} CharsBeforeAll(s: seq<char>, b: int)
    requires b >= ByteLen(s)
    ensures CharsBefore(s, b) == |s|
  {
    if s != [] {
      CharsBeforeAll(s[1..], b - CharWidth(s[0]));
    }
  }

  /** Counting across a concatenation splits at the end of its first part. */
  lemma {:induction false} CharsBeforeConcat(a: seq<char>, b: seq<char>, x: int)
    ensures CharsBefore(a + b, x) == if x <= ByteLen(a) then CharsBefore(a, x) else |a| + CharsBefore(b, x - ByteLen(a))
  {
    if a == [] {
      assert a + b == b;
      if x <= 0 {
      }
    } else if x <= 0 {
    } else {
      assert (a + b)[1..] == a[1..] + b;
      CharsBeforeConcat(a[1..], b, x - CharWidth(a[0]));
      if x <= ByteLen(a) {
      } else {
        CharsBeforeAll(a, x);
      }
    }
  }

  /** Counting up to an offset inside the first part of a concatenation. */
  lemma CharsBeforeInFirst(a: seq<char>, b: seq<char>, x: int)
    requires x <= ByteLen(a)
    ensures CharsBefore(a + b, x) == CharsBefore(a, x)
  {
    CharsBeforeConcat(a, b, x);
  }

  /** Counting up to an offset past the first part of a concatenation, whose length is `la`. */
  lemma CharsBeforeInSecond(a: seq<char>, b: seq<char>, x: int, la: int)
    requires la == ByteLen(a) && la < x
    ensures CharsBefore(a + b, x) == |a| + CharsBefore(b, x - la)
  {
    CharsBeforeConcat(a, b, x);
  }

  /** Slicing a concatenation, `a` being `la` bytes long: the part of the range in `a`, then the part in `b` with the offsets moved past `a`. */
  lemma ByteSliceConcat(a: seq<char>, b: seq<char>, x: int, y: int, la: int)
    requires x <= y && la == ByteLen(a)
    ensures ByteSlice(a + b, x, y) == ByteSlice(a, x, y) + ByteSlice(b, x - la, y - la)
  {
    var ab := a + b;
    CharsBeforeConcat(a, b, x);
    CharsBeforeConcat(a, b, y);
    ByteSliceParts(a, b, ab, x, y, la, CharsBefore(ab, x), CharsBefore(ab, y));
  }

  lemma ByteSliceParts(a: seq<char>, b: seq<char>, ab: seq<char>, x: int, y: int, la: nat, u: nat, v: nat)
    requires x <= y && ab == a + b && la == ByteLen(a)
    requires u == if x <= la then CharsBefore(a, x) else |a| + CharsBefore(b, x - la)
    requires v == if y <= la then CharsBefore(a, y) else |a| + CharsBefore(b, y - la)
    requires u == CharsBefore(ab, x) && v == CharsBefore(ab, y)
    ensures ByteSlice(ab, x, y) == ByteSlice(a, x, y) + ByteSlice(b, x - la, y - la)
  {
    if y <= la {
      CharsBeforeMono(a, x, y);
      assert CharsBefore(b, x - la) == 0 && CharsBefore(b, y - la) == 0;
      SliceInFirst(a, b, CharsBefore(a, x), CharsBefore(a, y));
    } else if x <= la {
      CharsBeforeAll(a, y);
      assert CharsBefore(b, x - la) == 0;
      SliceAcross(a, b, CharsBefore(a, x), CharsBefore(b, y - la));
    } else {
      CharsBeforeAll(a, x);
      CharsBeforeAll(a, y);
      CharsBeforeMono(b, x - la, y - la);
      SliceInSecond(a, b, CharsBefore(b, x - la), CharsBefore(b, y - la));
    }
  }

  lemma SliceInFirst(a: seq<char>, b: seq<char>, i: nat, j: nat)
    requires i <= j <= |a|
    ensures (a + b)[i..j] == a[i..j] + b[0..0]
  {
  }

  lemma SliceAcross(a: seq<char>, b: seq<char>, i: nat, l: nat)
    requires i <= |a| && l <= |b|
    ensures (a + b)[i..|a| + l] == a[i..|a|] + b[0..l]
  {
  }

  lemma SliceInSecond(a: seq<char>, b: seq<char>, k: nat, l: nat)
    requires k <= l <= |b|
    ensures (a + b)[|a| + k..|a| + l] == a[|a|..|a|] + b[k..l]
  {
  }

  /** The start and the end of a text are boundaries. */
  lemma BoundaryEnds(s: seq<char>)
    ensures IsCharBoundary(s, 0) && IsCharBoundary(s, ByteLen(s))
  {
    assert s[..0] == [];
    CharsBeforeAll(s, ByteLen(s));
    assert s[..|s|] == s;
  }

  /** A boundary of `a + b` that lies in `a` is a boundary of `a`. */
  lemma BoundaryInFirst(a: seq<char>, b: seq<char>, x: int)
    requires IsCharBoundary(a + b, x) && x <= ByteLen(a)
    ensures IsCharBoundary(a, x)
  {
    CharsBeforeConcat(a, b, x);
    var k := CharsBefore(a, x);
    assert (a + b)[..k] == a[..k];
  }

  /** A boundary `x` of `a + b` at or past the end of `a` is the boundary `y` of `b`, `a`'s length further back. */
  lemma BoundaryInSecond(a: seq<char>, b: seq<char>, x: int, y: int)
    requires IsCharBoundary(a + b, x) && ByteLen(a) <= x && y == x - ByteLen(a)
    ensures IsCharBoundary(b, y)
  {
    var ab, la := a + b, ByteLen(a);
    assert y <= ByteLen(b) by {
      ByteLenConcat(a, b);
    }
    if y == 0 {
      assert b[..0] == [];
    } else {
      var k := CharsBefore(b, y);
      assert CharsBefore(ab, x) == |a| + k by {
        CharsBeforeConcat(a, b, x);
      }
      BoundaryAtCount(ab, x, |a| + k);
      PrefixPastFirst(a, b, k);
    }
  }

  /** At a boundary the characters before it encode exactly its many bytes. */
  lemma BoundaryAtCount(s: seq<char>, x: int, n: nat)
    requires IsCharBoundary(s, x) && CharsBefore(s, x) == n
    ensures ByteLen(s[..n]) == x
  {
  }

  /** A prefix of `a + b` reaching into `b`. */
  lemma PrefixPastFirst(a: seq<char>, b: seq<char>, k: nat)
    requires k <= |b|
    ensures ByteLen((a + b)[..|a| + k]) == ByteLen(a) + ByteLen(b[..k])
  {
    assert (a + b)[..|a| + k] == a + b[..k];
    ByteLenConcat(a, b[..k]);
  }

  /** A boundary `x` of `done + (t + rest)` inside `t` is the boundary `y` of `t`. */
  lemma BoundaryInPiece(done: seq<char>, t: seq<char>, rest: seq<char>, x: int, y: int)
    requires IsCharBoundary(done + (t + rest), x)
    requires ByteLen(done) <= x <= ByteLen(done) + ByteLen(t) && y == x - ByteLen(done)
    ensures IsCharBoundary(t, y)
  {
    BoundaryInSecond(done, t + rest, x, y);
    BoundaryInFirst(t, rest, y);
  }

  /** A boundary is exactly the byte offset of some character index. */
  lemma BoundaryIsPrefixLen(s: seq<char>, b: int)
    requires IsCharBoundary(s, b)
    ensures b == ByteLen(s[..CharsBefore(s, b)])
  {
  }

  /** The first character boundary at or after `x` lies less than four bytes after it. */
  lemma {:induction false} NextBoundaryClose(s: seq<char>, x: int)
    requires 0 <= x <= ByteLen(s)
    ensures x <= ByteLen(s[..CharsBefore(s, x)]) < x + 4
  {
    if s != [] && x > 0 {
      var w := CharWidth(s[0]);
      if x - w <= 0 {
        assert CharsBefore(s[1..], x - w) == 0;
        assert s[..1] == [s[0]];
      } else {
        NextBoundaryClose(s[1..], x - w);
        var n := CharsBefore(s[1..], x - w);
        assert s[..1 + n] == [s[0]] + s[1..][..n];
        ByteLenConcat([s[0]], s[1..][..n]);
      }
    }
  }

  /** Stepping over a byte inside a character does not change the count. */
  lemma {:induction false} NonBoundaryStep(s: seq<char>, x: int)
    requires 0 <= x < ByteLen(s) && !IsCharBoundary(s, x)
    ensures CharsBefore(s, x + 1) == CharsBefore(s, x)
    ensures IsCharBoundary(s, x + 1) ==> ByteLen(s[..CharsBefore(s, x)]) == x + 1
  {
    var w := CharWidth(s[0]);
    assert s[..0] == [] && s[..1] == [s[0]];
    if x < w {
      // x falls inside the first character
      assert CharsBefore(s, x) == 1 && CharsBefore(s, x + 1) == 1;
    } else {
      var n := CharsBefore(s[1..], x - w);
      assert s[..1 + n] == [s[0]] + s[1..][..n];
      ByteLenConcat([s[0]], s[1..][..n]);
      assert !IsCharBoundary(s[1..], x - w);
      NonBoundaryStep(s[1..], x - w);
      var n' := CharsBefore(s[1..], x + 1 - w);
      assert s[..1 + n'] == [s[0]] + s[1..][..n'];
      ByteLenConcat([s[0]], s[1..][..n']);
      if IsCharBoundary(s, x + 1) {
        assert ByteLen(s[1..][..n']) == x + 1 - w;
        assert IsCharBoundary(s[1..], x + 1 - w);
      }
    }
  }

  /** One byte past the start of character `j`, exactly `j + 1` characters have begun. */
  lemma {:induction false} CharsBeforeJustAfter(t: seq<char>, j: nat)
    requires j < |t|
    ensures CharsBefore(t, ByteLen(t[..j]) + 1) == j + 1
  {
    if j == 0 {
      assert t[..0] == [];
    } else {
      CharsBeforeJustAfter(t[1..], j - 1);
      assert t[..j] == [t[0]] + t[1..][..j - 1];
      ByteLenConcat([t[0]], t[1..][..j - 1]);
    }
  }

  /** The start byte of a character lies before `x` exactly when the character is counted. */
  lemma CharsBeforeStartBelow(t: seq<char>, j: nat, x: int)
    requires j < |t| && ByteLen(t[..j]) < x
    ensures j < CharsBefore(t, x)
  {
    CharsBeforeJustAfter(t, j);
    CharsBeforeMono(t, ByteLen(t[..j]) + 1, x);
  }

  /** The number of `x` bytes in a byte sequence. */
  function CountByte(bs: seq<nat>, x: nat): nat
  {
    if bs == [] then 0 else (if bs[0] == x then 1 else 0) + CountByte(bs[1..], x)
  }

  lemma {:induction false} CountByteConcat(a: seq<nat>, b: seq<nat>, x: nat)
    ensures CountByte(a + b, x) == CountByte(a, x) + CountByte(b, x)
  {
    if a == [] {
      assert a + b == b;
    } else {
      assert (a + b)[1..] == a[1..] + b;
      CountByteConcat(a[1..], b, x);
    }
  }

  lemma {:induction false} CountByteAbsent(bs: seq<nat>, x: nat)
    requires forall i :: 0 <= i < |bs| ==> bs[i] != x
    ensures CountByte(bs, x) == 0
  {
    if bs != [] {
      CountByteAbsent(bs[1..], x);
    }
  }

  /** A newline byte (10) occurs in a character's encoding only when the character is `'\n'`. */
  lemma NewlineByteOfChar(c: char)
    ensures CountByte(EncodeChar(c), 10) == if c == '\n' then 1 else 0
  {
    var e := EncodeChar(c);
    if |e| == 1 {
      assert e[1..] == [];
    } else {
      CountByteAbsent(e, 10);
    }
  }
}
