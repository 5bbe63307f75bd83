/**
  The two text edits the rope offers, on character sequences addressed by byte
  offsets: inserting a string at a byte position (Rust's `String::insert_str`)
  and removing a byte range (Rust's `String::drain`).
 */
module Edits {
  import opened Utf8

  /** `text` inserted at byte `pos` of `s`. */
  function InsertedText(s: seq<char>, pos: int, text: seq<char>): seq<char>
  {
    s[..CharsBefore(s, pos)] + text + s[CharsBefore(s, pos)..]
  }

  /** `s` with the bytes `[a, b)` removed (the characters whose first byte lies in that range). */
  function Kept(s: seq<char>, a: int, b: int): seq<char>
    requires a <= b
  {
    CharsBeforeMono(s, a, b);
    s[..CharsBefore(s, a)] + s[CharsBefore(s, b)..]
  }

  /** `delete(start, end)`: the bytes `[start, end)` removed, and nothing removed when the range is empty. */
  function DeletedText(s: seq<char>, start: nat, end: nat): seq<char>
  {
    if start >= end then s else Kept(s, start, end)
  }

  /** Inserting the empty string changes nothing. */
  lemma InsertNothing(s: seq<char>, pos: int)
    ensures InsertedText(s, pos, []) == s
  {
    var i := CharsBefore(s, pos);
    assert s[..i] + [] + s[i..] == s;
  }

  /** Inserting at a boundary lengthens the text by the inserted bytes. */
  lemma InsertedLength(s: seq<char>, pos: int, text: seq<char>)
    requires IsCharBoundary(s, pos)
    ensures ByteLen(InsertedText(s, pos, text)) == ByteLen(s) + ByteLen(text)
  {
    var i := CharsBefore(s, pos);
    assert s == s[..i] + s[i..];
    ByteLenConcat(s[..i], s[i..]);
    ByteLenConcat(s[..i], text);
    ByteLenConcat(s[..i] + text, s[i..]);
  }

  /** Deleting a range between two boundaries shortens the text by the range's length. */
  lemma DeletedLength(s: seq<char>, start: nat, end: nat)
    requires start <= end && IsCharBoundary(s, start) && IsCharBoundary(s, end)
    ensures ByteLen(DeletedText(s, start, end)) == ByteLen(s) - (end - start)
  {
    var i, j := CharsBefore(s, start), CharsBefore(s, end);
    CharsBeforeMono(s, start, end);
    assert s == s[..i] + s[i..j] + s[j..];
    assert s[..j] == s[..i] + s[i..j];
    ByteLenConcat(s[..i], s[i..j]);
    ByteLenConcat(s[..j], s[j..]);
    ByteLenConcat(s[..i], s[j..]);
  }

  /** Deleting what was just inserted gives the text back. */
  lemma DeleteUndoesInsert(s: seq<char>, pos: int, text: seq<char>)
    requires IsCharBoundary(s, pos)
    ensures DeletedText(InsertedText(s, pos, text), pos, pos + ByteLen(text)) == s
  {
    if text == [] {
      InsertNothing(s, pos);
    } else {
      ByteLenEmpty(text);
      DeleteUndoesNonEmptyInsert(s, pos, text);
    }
  }

  lemma DeleteUndoesNonEmptyInsert(s: seq<char>, pos: int, text: seq<char>)
    requires IsCharBoundary(s, pos) && ByteLen(text) > 0
    ensures DeletedText(InsertedText(s, pos, text), pos, pos + ByteLen(text)) == s
  {
    var i := CharsBefore(s, pos);
    var x, y := s[..i], s[i..];
    var u, e := InsertedText(s, pos, text), pos + ByteLen(text);
    BoundaryIsPrefixLen(s, pos);
    InsertedParts(s, pos, text, i);
    KeptMiddle(x, text, y, pos, e);
    DeletedIsKept(u, pos, e);
    TakeDrop(s, i);
  }

  lemma TakeDrop(s: seq<char>, i: nat)
    requires i <= |s|
    ensures s[..i] + s[i..] == s
  {
  }

  lemma DeletedIsKept(s: seq<char>, start: nat, end: nat)
    requires start < end
    ensures DeletedText(s, start, end) == Kept(s, start, end)
  {
  }

  /** `InsertedText` by the character count at the insertion point. */
  lemma InsertedParts(s: seq<char>, pos: int, text: seq<char>, i: nat)
    requires i == CharsBefore(s, pos)
    ensures InsertedText(s, pos, text) == s[..i] + text + s[i..]
  {
  }

  /** Putting back what was deleted gives the text back. */
  lemma InsertUndoesDelete(s: seq<char>, start: nat, end: nat)
    requires start < end && IsCharBoundary(s, start) && IsCharBoundary(s, end)
    ensures InsertedText(DeletedText(s, start, end), start, ByteSlice(s, start, end)) == s
  {
    var i, j := CharsBefore(s, start), CharsBefore(s, end);
    CharsBeforeMono(s, start, end);
    BoundaryIsPrefixLen(s, start);
    DeletedIsKept(s, start, end);
    KeptBetween(s, start, end, i, j);
    SliceBetween(s, start, end, i, j);
    InsertAtSeam(s[..i], s[j..], s[i..j], start);
    ThreeParts(s, i, j);
  }

  /** `ByteSlice` by the character counts at its two ends. */
  lemma SliceBetween(s: seq<char>, x: int, y: int, i: nat, j: nat)
    requires x <= y && CharsBefore(s, x) == i && CharsBefore(s, y) == j
    ensures i <= j <= |s| && ByteSlice(s, x, y) == s[i..j]
  {
    CharsBeforeMono(s, x, y);
  }

  lemma ThreeParts(s: seq<char>, i: nat, j: nat)
    requires i <= j <= |s|
    ensures s[..i] + s[i..j] + s[j..] == s
  {
  }

  /** Removing exactly the bytes `[p, q)` of the middle part `m` of `a + m + b`. */
  lemma KeptMiddle(a: seq<char>, m: seq<char>, b: seq<char>, p: int, q: int)
    requires p == ByteLen(a) && q == p + ByteLen(m)
    ensures Kept(a + m + b, p, q) == a + b
  {
    var s := a + m + b;
    CharsBeforeFront(a, m, b);
    CharsBeforeBack(a, m, b);
    KeptBetween(s, p, q, |a|, |a| + |m|);
    OuterParts(a, m, b);
  }

  /** `Kept` by the character counts at its two ends. */
  lemma KeptBetween(s: seq<char>, x: int, y: int, i: nat, j: nat)
    requires x <= y && CharsBefore(s, x) == i && CharsBefore(s, y) == j
    ensures i <= j <= |s| && Kept(s, x, y) == s[..i] + s[j..]
  {
    CharsBeforeMono(s, x, y);
  }

  lemma OuterParts(a: seq<char>, m: seq<char>, b: seq<char>)
    ensures (a + m + b)[..|a|] + (a + m + b)[|a| + |m|..] == a + b
  {
    var s := a + m + b;
    assert s[..|a|] == a;
    assert s[|a| + |m|..] == b;
  }

  lemma CharsBeforeFront(a: seq<char>, m: seq<char>, b: seq<char>)
    ensures CharsBefore(a + m + b, ByteLen(a)) == |a|
  {
    assert a + m + b == a + (m + b);
    CharsBeforeAtEnd(a, m + b);
  }

  lemma CharsBeforeBack(a: seq<char>, m: seq<char>, b: seq<char>)
    ensures CharsBefore(a + m + b, ByteLen(a) + ByteLen(m)) == |a| + |m|
  {
    ByteLenConcat(a, m);
    CharsBeforeAtEnd(a + m, b);
  }

  /** The end of the first part of a concatenation counts all of its characters. */
  lemma CharsBeforeAtEnd(a: seq<char>, b: seq<char>)
    ensures CharsBefore(a + b, ByteLen(a)) == |a|
  {
    CharsBeforeConcat(a, b, ByteLen(a));
    CharsBeforeAll(a, ByteLen(a));
  }

  /** Inserting at the seam of `a + b`. */
  lemma InsertAtSeam(a: seq<char>, b: seq<char>, text: seq<char>, p: int)
    requires p == ByteLen(a)
    ensures InsertedText(a + b, p, text) == a + text + b
  {
    InsertIntoPiece(a, [], b, 0, text, p);
    assert [] + b == b;
    assert InsertedText([], 0, text) == text;
  }

  /** Removing a range from a concatenation, `a` being `la` bytes long: the part of the range in `a`, then the part in `b`. */
  lemma KeptConcat(a: seq<char>, b: seq<char>, x: int, y: int, la: int)
    requires x <= y && la == ByteLen(a)
    ensures Kept(a + b, x, y) == Kept(a, x, y) + Kept(b, x - la, y - la)
  {
    if y <= la {
      KeptInFirst(a, b, x, y, la);
    } else if x <= la {
      KeptAcross(a, b, x, y, la);
    } else {
      KeptInSecond(a, b, x, y, la);
    }
  }

  lemma KeptInFirst(a: seq<char>, b: seq<char>, x: int, y: int, la: int)
    requires x <= y <= la && la == ByteLen(a)
    ensures Kept(a + b, x, y) == Kept(a, x, y) + Kept(b, x - la, y - la)
  {
    var u, v := CharsBefore(a, x), CharsBefore(a, y);
    CharsBeforeInFirst(a, b, x);
    CharsBeforeInFirst(a, b, y);
    KeptBetween(a + b, x, y, u, v);
    KeptBetween(a, x, y, u, v);
    KeptBetween(b, x - la, y - la, 0, 0);
    RegluedInFirst(a, b, u, v);
  }

  lemma KeptAcross(a: seq<char>, b: seq<char>, x: int, y: int, la: int)
    requires x <= la < y && la == ByteLen(a)
    ensures Kept(a + b, x, y) == Kept(a, x, y) + Kept(b, x - la, y - la)
  {
    var u, j := CharsBefore(a, x), CharsBefore(b, y - la);
    CharsBeforeInFirst(a, b, x);
    CharsBeforeInSecond(a, b, y, la);
    CharsBeforeAll(a, y);
    KeptBetween(a + b, x, y, u, |a| + j);
    KeptBetween(a, x, y, u, |a|);
    KeptBetween(b, x - la, y - la, 0, j);
    RegluedAcross(a, b, u, j);
  }

  lemma KeptInSecond(a: seq<char>, b: seq<char>, x: int, y: int, la: int)
    requires la < x <= y && la == ByteLen(a)
    ensures Kept(a + b, x, y) == Kept(a, x, y) + Kept(b, x - la, y - la)
  {
    var i, j := CharsBefore(b, x - la), CharsBefore(b, y - la);
    CharsBeforeInSecond(a, b, x, la);
    CharsBeforeInSecond(a, b, y, la);
    CharsBeforeAll(a, x);
    CharsBeforeAll(a, y);
    KeptBetween(a + b, x, y, |a| + i, |a| + j);
    KeptBetween(a, x, y, |a|, |a|);
    KeptBetween(b, x - la, y - la, i, j);
    RegluedInSecond(a, b, i, j);
  }

  lemma RegluedInFirst(a: seq<char>, b: seq<char>, u: nat, v: nat)
    requires u <= v <= |a|
    ensures (a + b)[..u] + (a + b)[v..] == (a[..u] + a[v..]) + (b[..0] + b[0..])
  {
    assert (a + b)[..u] == a[..u];
    assert (a + b)[v..] == a[v..] + b;
    assert b[..0] + b[0..] == b;
  }

  lemma RegluedAcross(a: seq<char>, b: seq<char>, u: nat, j: nat)
    requires u <= |a| && j <= |b|
    ensures (a + b)[..u] + (a + b)[|a| + j..] == (a[..u] + a[|a|..]) + (b[..0] + b[j..])
  {
    assert (a + b)[..u] == a[..u];
    assert (a + b)[|a| + j..] == b[j..];
    assert a[..u] + a[|a|..] == a[..u];
    assert b[..0] + b[j..] == b[j..];
  }

  lemma RegluedInSecond(a: seq<char>, b: seq<char>, i: nat, j: nat)
    requires i <= j <= |b|
    ensures (a + b)[..|a| + i] + (a + b)[|a| + j..] == (a[..|a|] + a[|a|..]) + (b[..i] + b[j..])
  {
    assert (a + b)[..|a| + i] == a + b[..i];
    assert (a + b)[|a| + j..] == b[j..];
    assert a[..|a|] + a[|a|..] == a;
  }

  /** A range wholly before the text, or wholly past its end, removes nothing. */
  lemma KeptOutside(s: seq<char>, a: int, b: int)
    requires a <= b && (b <= 0 || a >= ByteLen(s))
    ensures Kept(s, a, b) == s
  {
    if a >= ByteLen(s) {
      CharsBeforeAll(s, a);
      CharsBeforeAll(s, b);
    }
    assert s[..0] + s[0..] == s;
    assert s[..|s|] + s[|s|..] == s;
  }

  /** Inserting into the middle piece of `a + (c + b)` at an offset inside `c`. */
  lemma InsertIntoPiece(a: seq<char>, c: seq<char>, b: seq<char>, offset: nat, text: seq<char>, pos: int)
    requires offset <= ByteLen(c) && pos == ByteLen(a) + offset
    ensures InsertedText(a + (c + b), pos, text) == a + InsertedText(c, offset, text) + b
  {
    var s, la := a + (c + b), ByteLen(a);
    var i := CharsBefore(c, offset);
    var n := |a| + i;
    assert CharsBefore(s, pos) == n by {
      if offset == 0 {
        CharsBeforeInFirst(a, c + b, pos);
        CharsBeforeAll(a, pos);
      } else {
        CharsBeforeInSecond(a, c + b, pos, la);
        CharsBeforeInFirst(c, b, offset);
      }
    }
    PieceCut(a, c, b, i);
    InsertedParts(s, pos, text, n);
    InsertedParts(c, offset, text, i);
    Regroup(a, c[..i], text, c[i..], b);
  }

  lemma PieceCut(a: seq<char>, c: seq<char>, b: seq<char>, i: nat)
    requires i <= |c|
    ensures (a + (c + b))[..|a| + i] == a + c[..i] && (a + (c + b))[|a| + i..] == c[i..] + b
  {
    var s := a + (c + b);
    assert s[..|a| + i] == a + c[..i];
    assert s[|a| + i..] == c[i..] + b;
  }

  lemma Regroup(a: seq<char>, x: seq<char>, t: seq<char>, y: seq<char>, b: seq<char>)
    ensures (a + x) + t + (y + b) == a + (x + t + y) + b
  {
  }
}
