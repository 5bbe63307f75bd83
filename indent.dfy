/**
  The string rules of the indent calculator: the indent of a line, the
  bracket and colon tests, the dedent keywords, and the indent that the
  tree-based and the fallback paths compute from them. The syntax-tree walk
  that finds the node under the cursor is not modelled; its node kind is a
  parameter.
 */
module Indent {
  import opened Options
  import opened Utf8
  import opened TextLines
  import opened Ropes

  /** `IndentCalculator::new`: one indent level is four spaces. */
  const IndentWidth: nat := 4

  /** Rust's `char::is_whitespace`: the characters with the Unicode White_Space property. */
  predicate IsWhitespace(c: char)
  {
    var v := c as int;
    || (0x09 <= v <= 0x0D) || v == 0x20 || v == 0x85 || v == 0xA0 || v == 0x1680
    || (0x2000 <= v <= 0x200A) || v == 0x2028 || v == 0x2029 || v == 0x202F || v == 0x205F || v == 0x3000
  }

  /** A character of a line's indent: whitespace other than a newline. */
  predicate IsIndentChar(c: char)
  {
    IsWhitespace(c) && c != '\n'
  }

  /** Rust's `trim_start`. */
  function TrimStart(s: seq<char>): (r: seq<char>)
    ensures |r| <= |s| && r == s[|s| - |r|..]
    ensures forall i :: 0 <= i < |s| - |r| ==> IsWhitespace(s[i])
    ensures r != [] ==> !IsWhitespace(r[0])
  {
    if s != [] && IsWhitespace(s[0]) then TrimStart(s[1..]) else s
  }

  /** Rust's `trim_end`. */
  function TrimEnd(s: seq<char>): (r: seq<char>)
    ensures |r| <= |s| && r == s[..|r|]
    ensures forall i :: |r| <= i < |s| ==> IsWhitespace(s[i])
    ensures r != [] ==> !IsWhitespace(r[|r| - 1])
  {
    if s != [] && IsWhitespace(s[|s| - 1]) then TrimEnd(s[..|s| - 1]) else s
  }

  /** Rust's `trim`: whitespace removed from both ends. */
  function Trim(s: seq<char>): seq<char>
  {
    TrimEnd(TrimStart(s))
  }

  /**
    `trim` keeps the middle of the line: the characters before `i` and from `j`
    on are whitespace, and the kept part neither starts nor ends with any.
   */
  lemma TrimMeaning(s: seq<char>)
    ensures var i := |s| - |TrimStart(s)|; var j := i + |Trim(s)|;
      && 0 <= i <= j <= |s| && Trim(s) == s[i..j]
      && (forall k :: 0 <= k < i ==> IsWhitespace(s[k]))
      && (forall k :: j <= k < |s| ==> IsWhitespace(s[k]))
    ensures Trim(s) != [] ==> !IsWhitespace(Trim(s)[0]) && !IsWhitespace(Trim(s)[|Trim(s)| - 1])
  {
    TrimIsSlice(s);
    TrimTail(s);
  }

  lemma TrimIsSlice(s: seq<char>)
    ensures var i := |s| - |TrimStart(s)|; 0 <= i <= i + |Trim(s)| <= |s| && Trim(s) == s[i..i + |Trim(s)|]
  {
    var u := TrimStart(s);
    var i := |s| - |u|;
    var r := TrimEnd(u);
    assert u == s[i..];
    assert r == u[..|r|];
  }

  lemma TrimTail(s: seq<char>)
    ensures var i := |s| - |TrimStart(s)|; forall k :: i + |Trim(s)| <= k < |s| ==> IsWhitespace(s[k])
  {
    var u := TrimStart(s);
    var i := |s| - |u|;
    forall k | i + |TrimEnd(u)| <= k < |s|
      ensures IsWhitespace(s[k])
    {
      assert s[k] == u[k - i];
    }
  }

  /** `get_line_indent`: the longest prefix of the line made of whitespace other than a newline. */
  function GetLineIndent(line: seq<char>): (indent: seq<char>)
    ensures |indent| <= |line| && indent == line[..|indent|]
    ensures forall i :: 0 <= i < |indent| ==> IsIndentChar(indent[i])
    ensures |indent| < |line| ==> !IsIndentChar(line[|indent|])
  {
    if line != [] && IsIndentChar(line[0]) then [line[0]] + GetLineIndent(line[1..]) else []
  }

  /** Rust's `matches(c).count()` for one character: its occurrences. */
  function Occurrences(s: seq<char>, c: char): nat
  {
    multiset(s)[c]
  }

  /** The opening brackets `{`, `[` and `(` of a line. */
  function Opens(s: seq<char>): nat
  {
    Occurrences(s, '{') + Occurrences(s, '[') + Occurrences(s, '(')
  }

  /** The closing brackets `}`, `]` and `)` of a line. */
  function Closes(s: seq<char>): nat
  {
    Occurrences(s, '}') + Occurrences(s, ']') + Occurrences(s, ')')
  }

  /** Brackets are counted part by part. */
  lemma BracketsConcat(a: seq<char>, b: seq<char>)
    ensures Opens(a + b) == Opens(a) + Opens(b) && Closes(a + b) == Closes(a) + Closes(b)
  {
    assert multiset(a + b) == multiset(a) + multiset(b);
  }

  predicate EndsWith(s: seq<char>, c: char)
  {
    |s| > 0 && s[|s| - 1] == c
  }

  predicate StartsWith(s: seq<char>, prefix: seq<char>)
  {
    |prefix| <= |s| && s[..|prefix|] == prefix
  }

  /** `" ".repeat(n)`. */
  function Spaces(n: nat): (r: seq<char>)
    ensures |r| == n && forall i :: 0 <= i < n ==> r[i] == ' '
  {
    seq(n, _ => ' ')
  }

  /** The keywords whose line `should_decrease_indent` dedents. */
  const DedentKeywords: seq<seq<char>> := ["else", "elif", "except", "finally", "case"]

  /** The node kinds under which `should_increase_indent` always indents. */
  const IndentNodes: seq<seq<char>> := [
    "block", "statement_block", "function_item", "function_declaration", "impl_item", "struct_item",
    "enum_item", "match_arm", "closure_expression", "if_statement", "for_statement", "while_statement",
    "loop_expression", "class_declaration", "class_definition", "object", "array"]

  predicate IsIndentNode(kind: seq<char>)
  {
    kind in IndentNodes
  }

  /** The keyword scan of `should_decrease_indent`, stopping at the first keyword that matches. */
  function StartsWithAny(s: seq<char>, keywords: seq<seq<char>>): (b: bool)
    ensures b <==> exists k :: 0 <= k < |keywords| && StartsWith(s, keywords[k])
  {
    if keywords == [] then false
    else if StartsWith(s, keywords[0]) then true
    else
      var b := StartsWithAny(s, keywords[1..]);
      assert forall k :: 1 <= k < |keywords| ==> keywords[k] == keywords[1..][k - 1];
      b
  }

  /** `should_decrease_indent`: the trimmed line opens with a closing bracket or a dedent keyword. */
  predicate ShouldDecreaseIndent(line: seq<char>)
  {
    var trimmed := Trim(line);
    || StartsWith(trimmed, "}") || StartsWith(trimmed, "]") || StartsWith(trimmed, ")")
    || StartsWithAny(trimmed, DedentKeywords)
  }

  /** The keyword scan matches exactly when one of the five keywords starts the text. */
  lemma KeywordScan(t: seq<char>)
    ensures StartsWithAny(t, DedentKeywords) <==>
      || StartsWith(t, DedentKeywords[0]) || StartsWith(t, DedentKeywords[1]) || StartsWith(t, DedentKeywords[2])
      || StartsWith(t, DedentKeywords[3]) || StartsWith(t, DedentKeywords[4])
  {
    if StartsWithAny(t, DedentKeywords) {
      var k :| 0 <= k < |DedentKeywords| && StartsWith(t, DedentKeywords[k]);
      assert k == 0 || k == 1 || k == 2 || k == 3 || k == 4;
    }
  }

  /** Which lines dedent, spelled out: a closing bracket first, or one of the five keywords. */
  lemma ShouldDecreaseIndentMeaning(line: seq<char>)
    ensures var t := Trim(line);
      ShouldDecreaseIndent(line) <==>
        || (t != [] && (t[0] == '}' || t[0] == ']' || t[0] == ')'))
        || StartsWith(t, DedentKeywords[0]) || StartsWith(t, DedentKeywords[1]) || StartsWith(t, DedentKeywords[2])
        || StartsWith(t, DedentKeywords[3]) || StartsWith(t, DedentKeywords[4])
  {
    var t := Trim(line);
    KeywordScan(t);
    assert StartsWith(t, "}") <==> t != [] && t[0] == '}';
    assert StartsWith(t, "]") <==> t != [] && t[0] == ']';
    assert StartsWith(t, ")") <==> t != [] && t[0] == ')';
  }

  /**
    `should_increase_indent` for the node kind found under the cursor: an
    indenting node kind; otherwise a trimmed line ending in an opening bracket
    with more openers than closers, or ending in `':'` and not a `#` comment.
   */
  predicate ShouldIncreaseIndent(kind: seq<char>, line: seq<char>)
  {
    var trimmed := Trim(line);
    if IsIndentNode(kind) then true
    else if EndsWith(trimmed, '{') || EndsWith(trimmed, '[') || EndsWith(trimmed, '(') then Opens(trimmed) > Closes(trimmed)
    else EndsWith(trimmed, ':') && !StartsWith(trimmed, "#")
  }

  /** The string branch of `should_increase_indent`: which lines indent under a node kind that does not. */
  lemma ShouldIncreaseIndentByText(kind: seq<char>, line: seq<char>)
    requires !IsIndentNode(kind)
    ensures var t := Trim(line);
      (EndsWith(t, '{') || EndsWith(t, '[') || EndsWith(t, '(')) ==> (ShouldIncreaseIndent(kind, line) <==> Opens(t) > Closes(t))
    ensures var t := Trim(line);
      EndsWith(t, ':') ==> (ShouldIncreaseIndent(kind, line) <==> !StartsWith(t, "#"))
    ensures var t := Trim(line);
      !EndsWith(t, '{') && !EndsWith(t, '[') && !EndsWith(t, '(') && !EndsWith(t, ':') ==> !ShouldIncreaseIndent(kind, line)
  {
  }

  /**
    One level less: `indent_width` bytes cut off the end of the indent, or none
    left when it is shorter. Rust's byte slice panics when the cut is not a
    character boundary, which only whitespace outside ASCII can cause.
   */
  function Dedented(indent: seq<char>): (r: seq<char>)
    requires ByteLen(indent) >= IndentWidth ==> IsCharBoundary(indent, ByteLen(indent) - IndentWidth)
    ensures ByteLen(indent) < IndentWidth ==> r == []
    ensures ByteLen(indent) >= IndentWidth ==> |r| <= |indent| && r == indent[..|r|] && ByteLen(r) == ByteLen(indent) - IndentWidth
  {
    if ByteLen(indent) >= IndentWidth then ByteSlice(indent, 0, ByteLen(indent) - IndentWidth) else []
  }

  /** On an indent of ASCII whitespace (spaces and tabs) a dedent removes exactly `indent_width` characters. */
  lemma DedentedAscii(indent: seq<char>)
    requires forall i :: 0 <= i < |indent| ==> indent[i] as int < 0x80
    ensures ByteLen(indent) == |indent|
    ensures |indent| >= IndentWidth ==> IsCharBoundary(indent, |indent| - IndentWidth)
    ensures |indent| >= IndentWidth ==> Dedented(indent) == indent[..|indent| - IndentWidth]
  {
    ByteLenAtLeastLength(indent);
    if |indent| >= IndentWidth {
      var n := |indent| - IndentWidth;
      AsciiPrefixLength(indent, n);
      BoundaryAtPrefix(indent, n, n);
      CharsBeforePrefix(indent, n);
    }
  }

  lemma AsciiPrefixLength(s: seq<char>, n: nat)
    requires n <= |s| && forall i :: 0 <= i < |s| ==> s[i] as int < 0x80
    ensures ByteLen(s[..n]) == n
  {
    var p := s[..n];
    assert forall i :: 0 <= i < n ==> p[i] == s[i];
    ByteLenAtLeastLength(p);
  }

  /** The cut of a dedent is well defined for the indent of `line`. */
  predicate DedentAllowed(line: seq<char>)
  {
    var indent := GetLineIndent(line);
    ByteLen(indent) >= IndentWidth ==> IsCharBoundary(indent, ByteLen(indent) - IndentWidth)
  }

  /** The dedent, indent or kept indent that `tree_based_indent` picks from the two tests; dedent wins. */
  function IndentForNode(kind: seq<char>, line: seq<char>): seq<char>
    requires ShouldDecreaseIndent(line) ==> DedentAllowed(line)
  {
    var indent := GetLineIndent(line);
    if ShouldDecreaseIndent(line) then Dedented(indent)
    else if ShouldIncreaseIndent(kind, line) then indent + Spaces(IndentWidth)
    else indent
  }

  /**
    `tree_based_indent` for the cursor's line of `text`, given the kind of the
    node at the cursor: nothing past the last line; otherwise the line's own
    indent one level less, one level more, or kept.
   */
  function TreeBasedIndent(text: seq<char>, cursorLine: nat, kind: seq<char>): (r: seq<char>)
    requires cursorLine < |StrLines(text)| && ShouldDecreaseIndent(StrLines(text)[cursorLine]) ==> DedentAllowed(StrLines(text)[cursorLine])
    ensures cursorLine >= |StrLines(text)| ==> r == []
  {
    var lines := StrLines(text);
    if cursorLine >= |lines| then [] else IndentForNode(kind, lines[cursorLine])
  }

  /** The three cases of `IndentForNode`, on the line itself. */
  lemma IndentForNodeCases(kind: seq<char>, line: seq<char>)
    requires ShouldDecreaseIndent(line) ==> DedentAllowed(line)
    ensures var indent, r := GetLineIndent(line), IndentForNode(kind, line);
      && (ShouldDecreaseIndent(line) ==> r == Dedented(indent) && |r| <= |indent| && r == indent[..|r|])
      && (!ShouldDecreaseIndent(line) && ShouldIncreaseIndent(kind, line) ==> r == indent + "    ")
      && (!ShouldDecreaseIndent(line) && !ShouldIncreaseIndent(kind, line) ==> r == indent)
  {
    assert Spaces(IndentWidth) == "    ";
  }

  /** Dedent takes precedence over indent, and only a dedent shortens the indent. */
  lemma TreeBasedIndentCases(text: seq<char>, cursorLine: nat, kind: seq<char>)
    requires cursorLine < |StrLines(text)|
    requires ShouldDecreaseIndent(StrLines(text)[cursorLine]) ==> DedentAllowed(StrLines(text)[cursorLine])
    ensures var line := StrLines(text)[cursorLine]; var indent := GetLineIndent(line); var r := TreeBasedIndent(text, cursorLine, kind);
      && (ShouldDecreaseIndent(line) ==> r == Dedented(indent) && |r| <= |indent| && r == indent[..|r|])
      && (!ShouldDecreaseIndent(line) && ShouldIncreaseIndent(kind, line) ==> r == indent + "    ")
      && (!ShouldDecreaseIndent(line) && !ShouldIncreaseIndent(kind, line) ==> r == indent)
  {
    var line := StrLines(text)[cursorLine];
    assert TreeBasedIndent(text, cursorLine, kind) == IndentForNode(kind, line);
    IndentForNodeCases(kind, line);
  }

  /** The indent both fallbacks give after `line`: one level more after an unclosed bracket or a colon. */
  function FallbackForLine(line: seq<char>): seq<char>
  {
    var indent := GetLineIndent(line);
    var trimmed := Trim(line);
    if Opens(trimmed) > Closes(trimmed) || EndsWith(trimmed, ':') then indent + Spaces(IndentWidth) else indent
  }

  /** The fallback keeps the line's own indent and adds exactly one level or nothing. */
  lemma FallbackForLineMeaning(line: seq<char>)
    ensures var indent, t := GetLineIndent(line), Trim(line);
      FallbackForLine(line) == if Opens(t) > Closes(t) || EndsWith(t, ':') then indent + "    " else indent
    ensures var r, indent := FallbackForLine(line), GetLineIndent(line);
      |indent| <= |r| && r[..|indent|] == indent && forall i :: 0 <= i < |r| ==> IsIndentChar(r[i])
  {
    var indent := GetLineIndent(line);
    var more := indent + Spaces(IndentWidth);
    assert Spaces(IndentWidth) == "    ";
    assert more[..|indent|] == indent;
    assert forall i :: |indent| <= i < |more| ==> more[i] == ' ';
  }

  /** `fallback_indent`: the indent after line `cursor_line` of `text`, or nothing past the last line. */
  function FallbackIndent(text: seq<char>, cursorLine: nat): (r: seq<char>)
    ensures cursorLine >= |StrLines(text)| ==> r == []
    ensures cursorLine < |StrLines(text)| ==> r == FallbackForLine(StrLines(text)[cursorLine])
  {
    var lines := StrLines(text);
    if cursorLine >= |lines| then [] else FallbackForLine(lines[cursorLine])
  }

  /** `fallback_indent_with_rope`: the same rule on the rope's own line, or nothing when the rope has no such line. */
  method FallbackIndentWithRope(rope: Rope, cursorLine: nat) returns (r: seq<char>)
    requires rope.Valid()
    ensures Line(rope.Text(), cursorLine).None? ==> r == []
    ensures Line(rope.Text(), cursorLine).Some? ==> r == FallbackForLine(Line(rope.Text(), cursorLine).value)
  {
    var lineText := rope.Line(cursorLine);
    if lineText.Some? {
      r := FallbackForLine(lineText.value);
    } else {
      r := [];
    }
  }

  /** A line of `str::lines` is the rope's line of the same number, less a `'\r'` before its newline. */
  lemma {:induction false} StrLineIsLine(s: seq<char>, k: nat)
    ensures k < |StrLines(s)| <==> Line(s, k).Some?
    ensures k < |StrLines(s)| ==>
      StrLines(s)[k] == if k < NewlineCount(s) then StripCarriageReturn(Line(s, k).value) else Line(s, k).value
  {
    LineIsSplitPiece(s, k);
  }

  /** On text without carriage returns the two fallbacks agree line for line. */
  lemma FallbacksAgree(s: seq<char>, k: nat)
    requires forall i :: 0 <= i < |s| ==> s[i] != '\r'
    ensures FallbackIndent(s, k) == match Line(s, k) case None => [] case Some(l) => FallbackForLine(l)
  {
    StrLineIsLine(s, k);
    if Line(s, k).Some? {
      LineSlice(s, k);
      var a, l := LineStart(s, k), Line(s, k).value;
      if |l| > 0 {
        assert l[|l| - 1] == s[a + |l| - 1];
      }
    }
  }
}
