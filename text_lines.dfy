/**
  The line structure of a text: line `k` starts one character after the
  `k`-th `'\n'` and runs up to (not including) the next `'\n'`. Every rope and
  buffer query is specified by the functions here.
 */
module TextLines {
  import opened Options
  import opened Utf8

  /** Number of `'\n'` characters (the rope's `line_count`). */
  function NewlineCount(s: seq<char>): nat
  {
    if s == [] then 0 else (if s[0] == '\n' then 1 else 0) + NewlineCount(s[1..])
  }

  lemma {:induction false} NewlineCountConcat(a: seq<char>, b: seq<char>)
    ensures NewlineCount(a + b) == NewlineCount(a) + NewlineCount(b)
  {
    if a == [] {
      assert a + b == b;
    } else {
      assert (a + b)[1..] == a[1..] + b;
      NewlineCountConcat(a[1..], b);
    }
  }

  lemma NewlineCountSnoc(s: seq<char>, k: nat)
    requires k < |s|
    ensures NewlineCount(s[..k + 1]) == NewlineCount(s[..k]) + if s[k] == '\n' then 1 else 0
  {
    assert s[..k + 1] == s[..k] + [s[k]];
    NewlineCountConcat(s[..k], [s[k]]);
  }

  /** A text without newlines is exactly one with a zero count. */
  lemma {:induction false} NoNewline(s: seq<char>)
    ensures NewlineCount(s) == 0 <==> forall i :: 0 <= i < |s| ==> s[i] != '\n'
  {
    if s != [] {
      NoNewline(s[1..]);
      assert forall i :: 1 <= i < |s| ==> s[i] == s[1..][i - 1];
    }
  }

  /** Counting `'\n'` characters equals counting newline bytes of the UTF-8 encoding. */
  lemma {:induction false} NewlineCountOfEncoding(s: seq<char>)
    ensures CountByte(Encode(s), 10) == NewlineCount(s)
  {
    if s != [] {
      NewlineCountOfEncoding(s[1..]);
      CountByteConcat(EncodeChar(s[0]), Encode(s[1..]), 10);
      NewlineByteOfChar(s[0]);
    }
  }

  /** Character index at which line `k` starts; past the last line it is the end of the text. */
  function LineStart(s: seq<char>, k: nat): (i: nat)
    ensures i <= |s|
  {
    if k == 0 || s == [] then 0
    else if s[0] == '\n' then 1 + LineStart(s[1..], k - 1)
    else 1 + LineStart(s[1..], k)
  }

  /** Byte offset at which line `k` starts (the rope's `line_to_byte`). */
  function LineToByte(s: seq<char>, k: nat): nat
  {
    ByteLen(s[..LineStart(s, k)])
  }

  lemma {:induction false} LineStartConcat(a: seq<char>, b: seq<char>, k: nat)
    ensures LineStart(a + b, k) == if k <= NewlineCount(a) then LineStart(a, k) else |a| + LineStart(b, k - NewlineCount(a))
  {
    if a == [] {
      assert a + b == b;
    } else if k > 0 {
      assert (a + b)[1..] == a[1..] + b;
      if a[0] == '\n' {
        LineStartConcat(a[1..], b, k - 1);
      } else {
        LineStartConcat(a[1..], b, k);
      }
    }
  }

  /** Line starts across a concatenation, in bytes. */
  lemma LineToByteConcat(a: seq<char>, b: seq<char>, k: nat)
    ensures k <= NewlineCount(a) ==> LineToByte(a + b, k) == LineToByte(a, k)
    ensures k > NewlineCount(a) ==> LineToByte(a + b, k) == ByteLen(a) + LineToByte(b, k - NewlineCount(a))
  {
    if k <= NewlineCount(a) {
      LineToByteInFirst(a, b, k);
    } else {
      LineToByteInSecond(a, b, k, k - NewlineCount(a));
    }
  }

  lemma LineToByteInFirst(a: seq<char>, b: seq<char>, k: nat)
    requires k <= NewlineCount(a)
    ensures LineToByte(a + b, k) == LineToByte(a, k)
  {
    LineStartInFirst(a, b, k);
    var i := LineStart(a, k);
    assert (a + b)[..i] == a[..i];
  }

  lemma LineToByteInSecond(a: seq<char>, b: seq<char>, k: nat, m: nat)
    requires k > NewlineCount(a) && m == k - NewlineCount(a)
    ensures LineToByte(a + b, k) == ByteLen(a) + LineToByte(b, m)
  {
    LineStartPastFirst(a, b, k, m);
    var j := LineStart(b, m);
    assert (a + b)[..|a| + j] == a + b[..j];
    ByteLenConcat(a, b[..j]);
  }

  /** One step of `LineToByte` past the first character. */
  lemma LineToByteStep(s: seq<char>, k: nat)
    requires s != [] && k > 0
    ensures LineToByte(s, k) == CharWidth(s[0]) + LineToByte(s[1..], if s[0] == '\n' then k - 1 else k)
  {
    var m := if s[0] == '\n' then k - 1 else k;
    var i := LineStart(s[1..], m);
    assert s[..1 + i] == [s[0]] + s[1..][..i];
    ByteLenConcat([s[0]], s[1..][..i]);
  }

  lemma {:induction false} LineStartPast(s: seq<char>, k: nat)
    requires NewlineCount(s) < k
    ensures LineStart(s, k) == |s|
  {
    if s != [] {
      if s[0] == '\n' {
        LineStartPast(s[1..], k - 1);
      } else {
        LineStartPast(s[1..], k);
      }
    }
  }

  /** Line `k` (for `k` up to the number of newlines) starts right after the `k`-th newline. */
  lemma {:induction false} LineStartAfterNewline(s: seq<char>, k: nat)
    requires k <= NewlineCount(s)
    ensures NewlineCount(s[..LineStart(s, k)]) == k
    ensures k > 0 ==> LineStart(s, k) > 0 && s[LineStart(s, k) - 1] == '\n'
  {
    if k == 0 {
      assert s[..0] == [];
    } else {
      var m := if s[0] == '\n' then k - 1 else k;
      LineStartAfterNewline(s[1..], m);
      var i := LineStart(s[1..], m);
      assert s[..1 + i] == [s[0]] + s[1..][..i];
      NewlineCountConcat([s[0]], s[1..][..i]);
      if m == 0 {
        assert s[0] == '\n';
      }
    }
  }

  /** Once `k` newlines are seen, line `k` has started. */
  lemma LineStartWithin(s: seq<char>, k: nat, j: nat)
    requires j <= |s| && k <= NewlineCount(s[..j])
    ensures LineStart(s, k) == LineStart(s[..j], k) <= j
  {
    assert s == s[..j] + s[j..];
    LineStartConcat(s[..j], s[j..], k);
  }

  /** Before `k` newlines are seen, line `k` has not started (unless the text ends). */
  lemma LineStartBeyond(s: seq<char>, k: nat, j: nat)
    requires j <= |s| && NewlineCount(s[..j]) < k
    ensures j <= LineStart(s, k)
    ensures j < |s| ==> j < LineStart(s, k)
  {
    assert s == s[..j] + s[j..];
    LineStartConcat(s[..j], s[j..], k);
    var t := s[j..];
    if t != [] {
      assert LineStart(t, k - NewlineCount(s[..j])) >= 1;
    }
  }

  /** The text between two consecutive line starts holds no newline but its last character. */
  lemma LineHasNoNewline(s: seq<char>, k: nat, j: nat)
    requires k <= NewlineCount(s) && LineStart(s, k) <= j <= |s| && NewlineCount(s[..j]) == k
    ensures forall i :: LineStart(s, k) <= i < j ==> s[i] != '\n'
  {
    var a := LineStart(s, k);
    LineStartAfterNewline(s, k);
    SplitAt(s, a, j);
    NewlineCountConcat(s[..a], s[a..j]);
    NoNewline(s[a..j]);
  }

  lemma SplitAt(s: seq<char>, a: nat, j: nat)
    requires a <= j <= |s|
    ensures s[..j] == s[..a] + s[a..j]
    ensures forall i :: a <= i < j ==> s[i] == s[a..j][i - a]
  {
  }

  /** Line and column (both counted from 0, the column in characters) of the end of `s`. */
  function LineCol(s: seq<char>): (nat, nat)
  {
    if s == [] then (0, 0)
    else
      var (line, col) := LineCol(s[..|s| - 1]);
      if s[|s| - 1] == '\n' then (line + 1, 0) else (line, col + 1)
  }

  /** The position at the end of `s`: its line is the newline count, its column the characters since the last line start. */
  lemma {:induction false} LineColMeaning(s: seq<char>)
    ensures LineCol(s) == (NewlineCount(s), |s| - LineStart(s, NewlineCount(s)))
  {
    if s != [] {
      var p := s[..|s| - 1];
      var c := s[|s| - 1];
      assert s == p + [c];
      LineColMeaning(p);
      NewlineCountConcat(p, [c]);
      if c == '\n' {
        LineStartConcat(p, [c], NewlineCount(p) + 1);
        assert [c][1..] == [];
      } else {
        LineStartConcat(p, [c], NewlineCount(p));
      }
    }
  }

  /** The position at the end of a concatenation: a piece with newlines resets the column. */
  lemma LineColConcat(a: seq<char>, t: seq<char>)
    ensures NewlineCount(t) > 0 ==> LineCol(a + t) == (NewlineCount(a) + NewlineCount(t), |t| - LineStart(t, NewlineCount(t)))
    ensures NewlineCount(t) == 0 ==> LineCol(a + t) == (LineCol(a).0, LineCol(a).1 + |t|)
  {
    if NewlineCount(t) > 0 {
      LineColConcatNewlines(a, t);
    } else {
      LineColConcatNoNewline(a, t);
    }
  }

  lemma LineColConcatNewlines(a: seq<char>, t: seq<char>)
    requires NewlineCount(t) > 0
    ensures LineCol(a + t) == (NewlineCount(a) + NewlineCount(t), |t| - LineStart(t, NewlineCount(t)))
  {
    var s, na, nt := a + t, NewlineCount(a), NewlineCount(t);
    NewlineCountConcat(a, t);
    LineColParts(s, na + nt);
    LineStartPastFirst(a, t, na + nt, nt);
    PairOf(LineCol(s), na + nt, |t| - LineStart(t, nt));
  }

  lemma LineColConcatNoNewline(a: seq<char>, t: seq<char>)
    requires NewlineCount(t) == 0
    ensures LineCol(a + t) == (LineCol(a).0, LineCol(a).1 + |t|)
  {
    var s, na := a + t, NewlineCount(a);
    NewlineCountConcat(a, t);
    LineColParts(s, na);
    LineColParts(a, na);
    LineStartInFirst(a, t, na);
    PairOf(LineCol(s), LineCol(a).0, LineCol(a).1 + |t|);
  }

  lemma LineColParts(s: seq<char>, n: nat)
    requires n == NewlineCount(s)
    ensures LineCol(s).0 == n && LineCol(s).1 == |s| - LineStart(s, n)
  {
    LineColMeaning(s);
  }

  lemma LineStartInFirst(a: seq<char>, b: seq<char>, k: nat)
    requires k <= NewlineCount(a)
    ensures LineStart(a + b, k) == LineStart(a, k)
  {
    LineStartConcat(a, b, k);
  }

  lemma LineStartPastFirst(a: seq<char>, b: seq<char>, k: nat, m: nat)
    requires k > NewlineCount(a) && m == k - NewlineCount(a)
    ensures LineStart(a + b, k) == |a| + LineStart(b, m)
  {
    LineStartConcat(a, b, k);
  }

  lemma PairOf(p: (nat, nat), x: nat, y: nat)
    requires p.0 == x && p.1 == y
    ensures p == (x, y)
  {
  }

  /** Line and column of byte offset `b` (the rope's `byte_to_line_col`). */
  function ByteToLineCol(s: seq<char>, b: int): (nat, nat)
  {
    LineCol(s[..CharsBefore(s, b)])
  }

  /** The characters of `t` up to its first newline. */
  function TakeLine(t: seq<char>): seq<char>
  {
    if t == [] || t[0] == '\n' then [] else [t[0]] + TakeLine(t[1..])
  }

  /** A line is the prefix up to a newline or the end, and holds no newline. */
  lemma {:induction false} TakeLineMeaning(t: seq<char>)
    ensures |TakeLine(t)| <= |t| && TakeLine(t) == t[..|TakeLine(t)|]
    ensures NewlineCount(TakeLine(t)) == 0
    ensures |TakeLine(t)| == |t| || t[|TakeLine(t)|] == '\n'
  {
    if t != [] && t[0] != '\n' {
      TakeLineMeaning(t[1..]);
      NewlineCountConcat([t[0]], TakeLine(t[1..]));
    }
  }

  /** A newline-free prefix ending at a newline or at the end is the line. */
  lemma {:induction false} TakeLineOf(t: seq<char>, j: nat)
    requires j <= |t| && (forall i :: 0 <= i < j ==> t[i] != '\n') && (j == |t| || t[j] == '\n')
    ensures TakeLine(t) == t[..j]
  {
    if j > 0 {
      TakeLineOf(t[1..], j - 1);
      assert t[..j] == [t[0]] + t[1..][..j - 1];
    }
  }

  /** The same, for a line that starts at `a` inside a longer text. */
  lemma TakeLineAt(s: seq<char>, a: nat, j: nat)
    requires a <= j <= |s| && (forall i :: a <= i < j ==> s[i] != '\n') && (j == |s| || s[j] == '\n')
    ensures TakeLine(s[a..]) == s[a..j]
  {
    assert forall i :: 0 <= i < j - a ==> s[a..][i] == s[a + i];
    TakeLineOf(s[a..], j - a);
    assert s[a..][..j - a] == s[a..j];
  }

  /** Content of line `k` (the rope's `line`): a line that starts at the end of the text does not exist. */
  function Line(s: seq<char>, k: nat): Option<seq<char>>
  {
    var a := LineStart(s, k);
    if a < |s| then Some(TakeLine(s[a..])) else None
  }

  /** Byte range of line `k` without its newline (the rope's `line_byte_range`). */
  function LineByteRange(s: seq<char>, k: nat): Option<(nat, nat)>
  {
    match Line(s, k)
    case Some(l) => Some((LineToByte(s, k), LineToByte(s, k) + ByteLen(l)))
    case None => None
  }

  /** Rust's `split('\n')`: the pieces between newlines, one more than there are newlines. */
  function SplitLines(s: seq<char>): (pieces: seq<seq<char>>)
    ensures |pieces| == NewlineCount(s) + 1
  {
    if s == [] then [[]]
    else if s[0] == '\n' then [[]] + SplitLines(s[1..])
    else
      var rest := SplitLines(s[1..]);
      [[s[0]] + rest[0]] + rest[1..]
  }

  /** The pieces of the split are exactly the lines as `LineStart` and `TakeLine` find them. */
  lemma {:induction false} SplitLinesMeaning(s: seq<char>, k: nat)
    requires k <= NewlineCount(s)
    ensures |SplitLines(s)| == NewlineCount(s) + 1
    ensures SplitLines(s)[k] == TakeLine(s[LineStart(s, k)..])
  {
    if s != [] {
      if s[0] == '\n' {
        if k == 0 {
          SplitLinesMeaning(s[1..], 0);
        } else {
          SplitLinesMeaning(s[1..], k - 1);
          assert s[LineStart(s, k)..] == s[1..][LineStart(s[1..], k - 1)..];
        }
      } else {
        SplitLinesMeaning(s[1..], k);
        if k == 0 {
          assert s[0..] == s;
          assert s[1..][0..] == s[1..];
        } else {
          assert s[LineStart(s, k)..] == s[1..][LineStart(s[1..], k)..];
        }
      }
    }
  }

  /** The last piece of the split is the text after the last newline. */
  lemma LastPiece(s: seq<char>)
    ensures SplitLines(s)[NewlineCount(s)] == s[LineStart(s, NewlineCount(s))..]
  {
    var n := NewlineCount(s);
    var a := LineStart(s, n);
    SplitLinesMeaning(s, n);
    assert s[..|s|] == s;
    LineHasNoNewline(s, n, |s|);
    TakeLineAt(s, a, |s|);
    assert s[a..|s|] == s[a..];
  }

  /**
    `Line` against the split: line `k` exists exactly when it is a piece of the
    split other than an empty last piece, and it is that piece.
   */
  lemma LineIsSplitPiece(s: seq<char>, k: nat)
    ensures var p := SplitLines(s);
      Line(s, k) == if k < |p| - 1 || (k == |p| - 1 && p[k] != []) then Some(p[k]) else None
  {
    var n := NewlineCount(s);
    SplitLinesMeaning(s, 0);
    if k > n {
      LineStartPast(s, k);
    } else {
      SplitLinesMeaning(s, k);
      var a := LineStart(s, k);
      if k < n {
        LineStartAfterNewline(s, k);
        assert s[..|s|] == s;
      } else {
        LastPiece(s);
      }
    }
  }

  /** The split with an empty last piece dropped: the lines a caller sees. */
  function NonEmptyTailLines(s: seq<char>): seq<seq<char>>
  {
    var p := SplitLines(s);
    if p[|p| - 1] == [] then p[..|p| - 1] else p
  }

  /**
    Rust's `str::lines`: the split without an empty last piece, a line ended by
    `"\r\n"` losing its `'\r'`; a bare `'\r'` at the very end is kept.
   */
  function StrLines(s: seq<char>): (lines: seq<seq<char>>)
    ensures |lines| == |NonEmptyTailLines(s)|
  {
    var p := NonEmptyTailLines(s);
    seq(|p|, i requires 0 <= i < |p| => if i < NewlineCount(s) then StripCarriageReturn(p[i]) else p[i])
  }

  function StripCarriageReturn(l: seq<char>): seq<char>
  {
    if |l| > 0 && l[|l| - 1] == '\r' then l[..|l| - 1] else l
  }

  /** An existing line starts inside the text and is the newline-free run there. */
  lemma LineSlice(s: seq<char>, k: nat)
    requires Line(s, k).Some?
    ensures k <= NewlineCount(s)
    ensures var a, l := LineStart(s, k), Line(s, k).value;
      a + |l| <= |s| && l == s[a..a + |l|] && NewlineCount(l) == 0
  {
    if k > NewlineCount(s) {
      LineStartPast(s, k);
    }
    TakeLineMeaning(s[LineStart(s, k)..]);
  }

  /** A character offset inside line `k` maps to the byte offset whose position is `(k, c)`. */
  lemma PositionInLine(s: seq<char>, k: nat, c: nat)
    requires Line(s, k).Some? && c <= |Line(s, k).value|
    ensures LineStart(s, k) + c <= |s|
    ensures LineToByte(s, k) + ByteLen(Line(s, k).value[..c]) == ByteLen(s[..LineStart(s, k) + c])
    ensures ByteToLineCol(s, ByteLen(s[..LineStart(s, k) + c])) == (k, c)
  {
    var a := LineStart(s, k);
    var l := Line(s, k).value;
    LineSlice(s, k);
    var j := a + c;
    PrefixOfLine(s, a, l, c);
    ByteLenConcat(s[..a], l[..c]);
    PositionLineCol(s, k, c, j);
  }

  /** The first `c` characters of a line that starts at `a`. */
  lemma PrefixOfLine(s: seq<char>, a: nat, l: seq<char>, c: nat)
    requires a + |l| <= |s| && l == s[a..a + |l|] && c <= |l|
    ensures l[..c] == s[a..a + c] && s[..a + c] == s[..a] + l[..c] && l == l[..c] + l[c..]
  {
    assert l[..c] == s[a..a + c];
  }

  lemma PositionLineCol(s: seq<char>, k: nat, c: nat, j: nat)
    requires Line(s, k).Some? && c <= |Line(s, k).value| && j == LineStart(s, k) + c
    ensures j <= |s| && ByteToLineCol(s, ByteLen(s[..j])) == (k, c)
  {
    NewlineCountInLine(s, k, c);
    CharsBeforePrefix(s, j);
    assert ByteToLineCol(s, ByteLen(s[..j])) == LineCol(s[..j]);
    LineColParts(s[..j], k);
    LineStartWithin(s, k, j);
    PairOf(LineCol(s[..j]), k, c);
  }

  lemma NewlineCountInLine(s: seq<char>, k: nat, c: nat)
    requires Line(s, k).Some? && c <= |Line(s, k).value|
    ensures LineStart(s, k) + c <= |s| && NewlineCount(s[..LineStart(s, k) + c]) == k
  {
    var a := LineStart(s, k);
    var l := Line(s, k).value;
    LineSlice(s, k);
    LineStartAfterNewline(s, k);
    PrefixOfLine(s, a, l, c);
    var p := l[..c];
    assert NewlineCount(p) == 0 by {
      NewlineCountConcat(p, l[c..]);
    }
    NewlineCountConcat(s[..a], p);
  }

  /** Every position a prefix ends at lies inside the line its line number names. */
  lemma PositionOfPrefix(s: seq<char>, j: nat)
    requires j <= |s|
    ensures var (k, c) := LineCol(s[..j]);
      LineStart(s, k) + c == j
      && (Line(s, k).Some? ==> c <= |Line(s, k).value|)
      && (Line(s, k).None? ==> j == |s|)
  {
    var (k, c) := LineCol(s[..j]);
    LineColMeaning(s[..j]);
    assert s[..j] == s[..j];
    assert k == NewlineCount(s[..j]);
    NewlineCountConcat(s[..j], s[j..]);
    assert s == s[..j] + s[j..];
    LineStartWithin(s, k, j);
    assert s[..j][..j] == s[..j];
    var a := LineStart(s, k);
    if a < |s| {
      LineHasNoNewline(s, k, j);
      TakeLineMeaning(s[a..]);
    }
  }
}
