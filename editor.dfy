/**
  The editor: a history of buffer snapshots and a selection whose end is the
  cursor. Every edit copies the current snapshot, edits the copy, pushes it
  with a transaction recording the text and the cursors before and after, and
  moves the cursor; undo and redo step through the history and put the cursor
  where the transaction says. Cursor moves measure lines in bytes, as the
  source does, while columns count characters.
 */
module Editors {
  import opened Options
  import opened Utf8
  import opened TextLines
  import opened Edits
  import opened Ropes
  import opened Points
  import opened Offsets
  import opened Selections
  import opened Transactions
  import opened Buffers
  import opened Histories

  /** `chars().nth(n).unwrap_or('\0').to_string()`: the character with index `n`, or NUL past the end. */
  function NthCharOr(s: seq<char>, n: nat): seq<char>
  {
    if n < |s| then [s[n]] else ['\0']
  }

  /** `move_left`: one column back, or from column 0 to the end (in bytes) of the previous line. */
  function MovedLeft(s: seq<char>, c: Point): Point
  {
    if c.column > 0 then Point(c.row, c.column - 1)
    else if c.row > 0 then
      match Line(s, c.row - 1)
      case Some(l) => Point(c.row - 1, ByteLen(l))
      case None => c
    else c
  }

  /** `move_right`: one column on within the line's byte length, or to the start of the next line. */
  function MovedRight(s: seq<char>, c: Point): Point
  {
    match Line(s, c.row)
    case Some(l) =>
      if c.column < ByteLen(l) then Point(c.row, c.column + 1)
      else if c.row + 1 < NewlineCount(s) + 1 then Point(c.row + 1, 0)
      else c
    case None => c
  }

  /** The column kept when moving to another row: the same, cut at that line's byte length. */
  function ColumnOnRow(s: seq<char>, row: nat, column: nat): nat
  {
    match Line(s, row)
    case Some(l) => if column < ByteLen(l) then column else ByteLen(l)
    case None => 0
  }

  /** `move_up`. */
  function MovedUp(s: seq<char>, c: Point): Point
  {
    if c.row > 0 then Point(c.row - 1, ColumnOnRow(s, c.row - 1, c.column)) else c
  }

  /** `move_down`. */
  function MovedDown(s: seq<char>, c: Point): Point
  {
    if c.row + 1 < NewlineCount(s) + 1 then Point(c.row + 1, ColumnOnRow(s, c.row + 1, c.column)) else c
  }

  /** `move_to_line_end`: the line's byte length as the column. */
  function MovedToLineEnd(s: seq<char>, c: Point): Point
  {
    match Line(s, c.row)
    case Some(l) => Point(c.row, ByteLen(l))
    case None => c
  }

  /** A byte offset reached by a character index survives the trip to a point and back. */
  lemma {:induction false} RoundTripAtPrefix(t: seq<char>, k: nat, x: nat)
    requires k <= |t| && ByteLen(t[..k]) == x
    ensures PointToOffsetSpec(t, OffsetToPointSpec(t, x)) == x
  {
    BoundaryAtPrefix(t, k, x);
    OffsetRoundTrip(t, x);
  }

  /** After an insertion at a point, the cursor the editor computes sits right after the inserted text. */
  lemma {:induction false} CursorAfterInsert(s: seq<char>, c: Point, text: seq<char>, s': seq<char>)
    requires s' == InsertedText(s, PointToOffsetSpec(s, c), text)
    ensures var o := PointToOffsetSpec(s, c);
      PointToOffsetSpec(s', OffsetToPointSpec(s', o + ByteLen(text))) == o + ByteLen(text)
  {
    var o := PointToOffsetSpec(s, c);
    PointOffsetIsBoundary(s, c);
    var i := CharsBefore(s, o);
    var a := s[..i];
    InsertedParts(s, o, text, i);
    FrontOfSplice(a, text, s[i..], s');
    ByteLenConcat(a, text);
    RoundTripAtPrefix(s', |a| + |text|, o + ByteLen(text));
  }

  lemma FrontOfSplice(a: seq<char>, m: seq<char>, b: seq<char>, t: seq<char>)
    requires t == a + m + b
    ensures t[..|a| + |m|] == a + m
  {
  }

  /** After a deletion starting at a boundary, the cursor the editor computes sits exactly at the deletion point. */
  lemma {:induction false} CursorAfterDelete(s: seq<char>, start: nat, end: nat, s': seq<char>)
    requires start < end && IsCharBoundary(s, start) && s' == DeletedText(s, start, end)
    ensures PointToOffsetSpec(s', OffsetToPointSpec(s', start)) == start
  {
    var i, j := CharsBefore(s, start), CharsBefore(s, end);
    KeptBetween(s, start, end, i, j);
    DeletedIsKept(s, start, end);
    assert s'[..i] == s[..i];
    RoundTripAtPrefix(s', i, start);
  }

  /** Moving to the start of a line lands on that line's first byte. */
  lemma LineStartIsLineToByte(s: seq<char>, c: Point)
    ensures PointToOffsetSpec(s, Point(c.row, 0)) == LineToByte(s, c.row)
  {
    match Line(s, c.row)
    case Some(l) =>
      assert l[..0] == [];
    case None =>
  }

  /** Moving to the end of an existing line lands after its last character, whatever the line holds. */
  lemma LineEndIsContentEnd(s: seq<char>, c: Point)
    requires Line(s, c.row).Some?
    ensures PointToOffsetSpec(s, MovedToLineEnd(s, c)) == LineByteRange(s, c.row).value.1
  {
    ByteLenAtLeastLength(Line(s, c.row).value);
    ColumnClampsToLineEnd(s, MovedToLineEnd(s, c));
  }

  /** Moving left from the start of any line but the first lands at the end of the previous line. */
  lemma LeftFromLineStart(s: seq<char>, c: Point)
    requires c.column == 0 && 0 < c.row <= NewlineCount(s)
    ensures Line(s, c.row - 1).Some?
    ensures PointToOffsetSpec(s, MovedLeft(s, c)) == LineByteRange(s, c.row - 1).value.1
  {
    InnerLine(s, c.row - 1);
    LineEndIsContentEnd(s, Point(c.row - 1, 0));
  }

  /** Moving right from the end of any line but the last lands at the start of the next line. */
  lemma RightFromLineEnd(s: seq<char>, c: Point)
    requires Line(s, c.row).Some? && c.column >= ByteLen(Line(s, c.row).value) && c.row < NewlineCount(s)
    ensures MovedRight(s, c) == Point(c.row + 1, 0)
    ensures PointToOffsetSpec(s, MovedRight(s, c)) == LineToByte(s, c.row + 1)
  {
    LineStartIsLineToByte(s, Point(c.row + 1, 0));
  }

  /** Up and down stop at the first and the last row, and otherwise change the row by one. */
  lemma VerticalMoves(s: seq<char>, c: Point)
    ensures c.row == 0 ==> MovedUp(s, c) == c
    ensures c.row >= NewlineCount(s) ==> MovedDown(s, c) == c
    ensures c.row > 0 ==> MovedUp(s, c).row == c.row - 1
    ensures c.row < NewlineCount(s) ==> MovedDown(s, c).row == c.row + 1
    ensures MovedUp(s, c).column <= c.column && MovedDown(s, c).column <= c.column
  {
  }

  class Editor {
    var history: History
    var selection: Selection
    /** Every buffer the history has held, a superset of the snapshots it holds now. */
    ghost var snapshots: set<Buffer>
    ghost var Repr: set<object>

    /** Every snapshot the history holds is a valid buffer inside the footprint, apart from the editor and the history. */
    ghost predicate Valid()
      reads this, Repr
    {
      && this in Repr && history in Repr
      && HeldIn(history.State(), snapshots)
      && forall b :: b in snapshots ==>
           b in Repr && b.Repr <= Repr && this !in b.Repr && history !in b.Repr && b.Valid()
    }

    ghost function Text(): seq<char>
      reads this, Repr
      requires Valid()
    {
      history.current.Text()
    }

    /** `cursor`: the end of the selection. */
    function Cursor(): (p: Point)
      reads this
      ensures p == selection.end
    {
      selection.end
    }

    /** `Editor::new`: an empty buffer, the cursor at the origin, no history. */
    constructor ()
      ensures Valid() && fresh(Repr) && Text() == [] && Cursor() == Point(0, 0)
      ensures history.State().undo == [] && history.State().redo == []
    {
      var buffer := new Buffer();
      history := new History(buffer);
      selection := Selection.Cursor(Point.Zero());
      snapshots := {buffer};
      new;
      Repr := {this, history} + buffer.Repr;
    }

    /** `Editor::from_text`. */
    constructor FromText(text: seq<char>)
      ensures Valid() && fresh(Repr) && Text() == text && Cursor() == Point(0, 0)
      ensures history.State().undo == [] && history.State().redo == []
    {
      var buffer := new Buffer.FromText(text);
      history := new History(buffer);
      selection := Selection.Cursor(Point.Zero());
      snapshots := {buffer};
      new;
      Repr := {this, history} + buffer.Repr;
    }

    /** `buffer`: the current snapshot. */
    function CurrentBuffer(): (b: Buffer)
      reads this, history
      ensures b == history.State().current
    {
      history.Current()
    }

    /** `set_cursor`: an empty selection at the point. */
    method SetCursor(point: Point)
      requires Valid()
      modifies this
      ensures Valid() && selection == Selection.Cursor(point) && Cursor() == point
      ensures history == old(history) && Repr == old(Repr)
    {
      selection := Selection.Cursor(point);
    }

    /**
      `insert`: the text goes in at the cursor's offset in a copy of the
      current snapshot, the copy is pushed with an insert transaction, and the
      cursor moves to the offset just past the inserted bytes.
     */
    method Insert(text: seq<char>)
      requires Valid()
      modifies this, history
      ensures Valid()
      ensures var o := PointToOffsetSpec(old(Text()), old(Cursor()));
        && Text() == InsertedText(old(Text()), o, text)
        && Cursor() == OffsetToPointSpec(Text(), o + ByteLen(text))
      ensures history == old(history) && fresh(history.current)
      ensures history.State() == Pushed(old(history.State()), history.current, InsertTransaction(text, old(Cursor()), Cursor()))
      ensures unchanged(old(Repr) - {this, history})
    {
      ghost var s, c, h := Text(), Cursor(), history.State();
      ghost var o := PointToOffsetSpec(s, c);
      ghost var s' := InsertedText(s, o, text);
      var cursor := Cursor();
      var newBuffer, cursorAfter := InsertAt(history.current, cursor, text, s, o, s', o + ByteLen(text));
      var transaction := InsertTransaction(text, cursor, cursorAfter);
      Commit(newBuffer, transaction, cursorAfter, h, s');
    }

    /**
      `backspace`: nothing at the origin or at offset 0; otherwise the one
      byte before the cursor's offset is removed in a copy, the copy is pushed
      with a delete transaction recording the character whose index is that
      byte offset, and the cursor moves to the deletion point.
     */
    method Backspace()
      requires Valid()
      requires var c := Cursor(); var o := PointToOffsetSpec(Text(), c);
        !(c.row == 0 && c.column == 0) && o > 0 ==> DeleteAllowed(Text(), o - 1, o)
      modifies this, history
      ensures Valid()
      ensures var c, s := old(Cursor()), old(Text()); var o := PointToOffsetSpec(s, c);
        (c.row == 0 && c.column == 0) || o == 0 ==>
          Text() == s && Cursor() == c && history.State() == old(history.State())
      ensures var c, s := old(Cursor()), old(Text()); var o := PointToOffsetSpec(s, c);
        !(c.row == 0 && c.column == 0) && o > 0 ==>
          && Text() == DeletedText(s, o - 1, o)
          && Cursor() == OffsetToPointSpec(Text(), o - 1)
          && fresh(history.current)
          && history.State() == Pushed(old(history.State()), history.current, DeleteTransaction(NthCharOr(s, o - 1), c, Cursor()))
      ensures history == old(history)
      ensures unchanged(old(Repr) - {this, history})
    {
      var cursor := Cursor();
      if cursor.row == 0 && cursor.column == 0 {
        return;
      }
      var cursorOffset := history.current.PointToOffset(cursor);
      assert cursorOffset.Value() == cursorOffset.value;
      if cursorOffset.Value() > 0 {
        ghost var s, h := Text(), history.State();
        ghost var s' := DeletedText(s, cursorOffset.value - 1, cursorOffset.value);
        var newBuffer, deleted, cursorAfter := DeleteBefore(history.current, cursorOffset, s, s');
        var transaction := DeleteTransaction(deleted, cursor, cursorAfter);
        Commit(newBuffer, transaction, cursorAfter, h, s');
      }
    }

    /**
      `delete`: below the end of the text the one byte at the cursor's offset
      is removed in a copy, which is pushed with a delete transaction; the
      cursor stays. At the end nothing happens.
     */
    method Delete()
      requires Valid()
      requires var o := PointToOffsetSpec(Text(), Cursor());
        o < ByteLen(Text()) ==> DeleteAllowed(Text(), o, o + 1)
      modifies this, history
      ensures Valid() && Cursor() == old(Cursor())
      ensures var s := old(Text()); var o := PointToOffsetSpec(s, old(Cursor()));
        o >= ByteLen(s) ==> Text() == s && history.State() == old(history.State())
      ensures var s := old(Text()); var o := PointToOffsetSpec(s, old(Cursor()));
        o < ByteLen(s) ==>
          && Text() == DeletedText(s, o, o + 1)
          && fresh(history.current)
          && history.State() == Pushed(old(history.State()), history.current, DeleteTransaction(NthCharOr(s, o), Cursor(), Cursor()))
      ensures history == old(history)
      ensures unchanged(old(Repr) - {this, history})
    {
      ghost var s := Text();
      var cursor := Cursor();
      var cursorOffset := history.current.PointToOffset(cursor);
      assert cursorOffset.Value() == cursorOffset.value;
      if cursorOffset.Value() < history.current.Len() {
        DeleteForward(cursor, cursorOffset, s);
      }
    }

    /** The editing branch of `delete`, below the end of the text. */
    method DeleteForward(cursor: Point, offset: Offset, ghost s: seq<char>)
      requires Valid() && cursor == Cursor() && s == Text() && offset.value == PointToOffsetSpec(s, cursor)
      requires DeleteAllowed(s, offset.value, offset.value + 1)
      modifies this, history
      ensures Valid() && Cursor() == cursor
      ensures && Text() == DeletedText(s, offset.value, offset.value + 1)
        && fresh(history.current)
        && history.State() == Pushed(old(history.State()), history.current, DeleteTransaction(NthCharOr(s, offset.value), cursor, cursor))
      ensures history == old(history)
      ensures unchanged(old(Repr) - {this, history})
    {
      ghost var h := history.State();
      ghost var s' := DeletedText(s, offset.value, offset.value + 1);
      var newBuffer, deleted := DeleteAt(history.current, offset, s, s');
      var transaction := DeleteTransaction(deleted, cursor, cursor);
      Commit(newBuffer, transaction, cursor, h, s');
    }

    /** `history.push` followed by `set_cursor`, taking the new snapshot's objects into the footprint. */
    method Commit(newBuffer: Buffer, transaction: Transaction, cursor: Point, ghost h: HistoryState, ghost t: seq<char>)
      requires Valid() && newBuffer.Valid() && h == history.State() && t == newBuffer.Text()
      modifies this, history
      ensures Valid() && history == old(history) && history.current == newBuffer && Cursor() == cursor
      ensures Text() == t
      ensures history.State() == Pushed(h, newBuffer, transaction)
      ensures Repr == old(Repr) + newBuffer.Repr
    {
      AddSnapshot(newBuffer, cursor, h, t);
      PushSnapshot(newBuffer, transaction, h, t);
    }

    /** The bookkeeping half of `Commit`: the new snapshot joins the footprint and the cursor moves. */
    method AddSnapshot(newBuffer: Buffer, cursor: Point, ghost h: HistoryState, ghost t: seq<char>)
      requires Valid() && newBuffer.Valid() && h == history.State() && t == newBuffer.Text()
      modifies this
      ensures Valid() && history == old(history) && newBuffer in snapshots && Cursor() == cursor
      ensures h == history.State() && newBuffer.Valid() && t == newBuffer.Text()
      ensures Repr == old(Repr) + newBuffer.Repr
    {
      snapshots, Repr, selection := snapshots + {newBuffer}, Repr + newBuffer.Repr, Selection.Cursor(cursor);
    }

    /** The history half of `Commit`: `history.push` of a snapshot already in the footprint. */
    method PushSnapshot(newBuffer: Buffer, transaction: Transaction, ghost h: HistoryState, ghost t: seq<char>)
      requires Valid() && newBuffer in snapshots && h == history.State() && t == newBuffer.Text()
      modifies history
      ensures Valid() && history.current == newBuffer && Text() == t
      ensures history.State() == Pushed(h, newBuffer, transaction)
    {
      HeldInKept(history.State(), snapshots, newBuffer, transaction);
      history.Push(newBuffer, transaction);
    }

    /** `undo`: the history steps back and the cursor goes to where the undone transaction started. */
    method Undo()
      requires Valid()
      modifies this, history
      ensures Valid() && history == old(history) && Repr == old(Repr)
      ensures history.State() == Undone(old(history.State())).0
      ensures Undone(old(history.State())).1.Some? ==> Cursor() == Undone(old(history.State())).1.value.cursorBefore
      ensures Undone(old(history.State())).1.None? ==> Cursor() == old(Cursor())
    {
      HeldInKept(history.State(), snapshots, history.current, Transaction(Cursor(), Cursor(), EditKind.Insert([])));
      var t := history.Undo();
      if t.Some? {
        SetCursor(t.value.cursorBefore);
      }
    }

    /** `redo`: the history steps forward and the cursor goes to where the redone transaction ended. */
    method Redo()
      requires Valid()
      modifies this, history
      ensures Valid() && history == old(history) && Repr == old(Repr)
      ensures history.State() == Redone(old(history.State())).0
      ensures Redone(old(history.State())).1.Some? ==> Cursor() == Redone(old(history.State())).1.value.cursorAfter
      ensures Redone(old(history.State())).1.None? ==> Cursor() == old(Cursor())
    {
      HeldInKept(history.State(), snapshots, history.current, Transaction(Cursor(), Cursor(), EditKind.Insert([])));
      var t := history.Redo();
      if t.Some? {
        SetCursor(t.value.cursorAfter);
      }
    }

    /** `can_undo`. */
    function CanUndo(): (b: bool)
      reads this, history
      ensures b <==> Undone(history.State()).1.Some?
    {
      history.CanUndo()
    }

    /** `can_redo`. */
    function CanRedo(): (b: bool)
      reads this, history
      ensures b <==> Redone(history.State()).1.Some?
    {
      history.CanRedo()
    }

    /** `move_left`. */
    method MoveLeft()
      requires Valid()
      modifies this
      ensures Valid() && history == old(history) && Repr == old(Repr)
      ensures Cursor() == MovedLeft(Text(), old(Cursor()))
    {
      var cursor := Cursor();
      if cursor.column > 0 {
        selection := Selection.Cursor(Point.New(cursor.row, cursor.column - 1));
      } else if cursor.row > 0 {
        var prevLine := history.current.Line(cursor.row - 1);
        if prevLine.Some? {
          selection := Selection.Cursor(Point.New(cursor.row - 1, ByteLen(prevLine.value)));
        }
      }
    }

    /** `move_right`. */
    method MoveRight()
      requires Valid()
      modifies this
      ensures Valid() && history == old(history) && Repr == old(Repr)
      ensures Cursor() == MovedRight(Text(), old(Cursor()))
    {
      var cursor := Cursor();
      var currentLine := history.current.Line(cursor.row);
      if currentLine.Some? {
        if cursor.column < ByteLen(currentLine.value) {
          selection := Selection.Cursor(Point.New(cursor.row, cursor.column + 1));
        } else if cursor.row + 1 < history.current.LineCount() {
          selection := Selection.Cursor(Point.New(cursor.row + 1, 0));
        }
      }
    }

    /** `move_up`. */
    method MoveUp()
      requires Valid()
      modifies this
      ensures Valid() && history == old(history) && Repr == old(Repr)
      ensures Cursor() == MovedUp(Text(), old(Cursor()))
    {
      var cursor := Cursor();
      if cursor.row > 0 {
        var newRow := cursor.row - 1;
        var column := ColumnOnLine(history.current, newRow, cursor.column);
        selection := Selection.Cursor(Point.New(newRow, column));
      }
    }

    /** `move_down`. */
    method MoveDown()
      requires Valid()
      modifies this
      ensures Valid() && history == old(history) && Repr == old(Repr)
      ensures Cursor() == MovedDown(Text(), old(Cursor()))
    {
      var cursor := Cursor();
      if cursor.row + 1 < history.current.LineCount() {
        var newRow := cursor.row + 1;
        var column := ColumnOnLine(history.current, newRow, cursor.column);
        selection := Selection.Cursor(Point.New(newRow, column));
      }
    }

    /** `move_to_line_start`. */
    method MoveToLineStart()
      requires Valid()
      modifies this
      ensures Valid() && history == old(history) && Repr == old(Repr)
      ensures Cursor() == Point(old(Cursor()).row, 0)
    {
      var cursor := Cursor();
      selection := Selection.Cursor(Point.New(cursor.row, 0));
    }

    /** `move_to_line_end`. */
    method MoveToLineEnd()
      requires Valid()
      modifies this
      ensures Valid() && history == old(history) && Repr == old(Repr)
      ensures Cursor() == MovedToLineEnd(Text(), old(Cursor()))
    {
      var cursor := Cursor();
      var line := history.current.Line(cursor.row);
      if line.Some? {
        selection := Selection.Cursor(Point.New(cursor.row, ByteLen(line.value)));
      }
    }

    /** `text`. */
    method CurrentText() returns (r: seq<char>)
      requires Valid()
      ensures r == Text()
    {
      r := history.current.ToString();
    }

    /** `line_count`. */
    function LineCount(): (n: nat)
      reads this, Repr
      requires Valid()
      ensures n == NewlineCount(Text()) + 1
    {
      history.current.LineCount()
    }
  }

  /** `cursor.column.min(line.len())` on a row that exists, and 0 on one that does not. */
  method ColumnOnLine(buffer: Buffer, row: nat, column: nat) returns (c: nat)
    requires buffer.Valid()
    ensures c == ColumnOnRow(buffer.Text(), row, column)
  {
    var line := buffer.Line(row);
    if line.Some? {
      c := if column < ByteLen(line.value) then column else ByteLen(line.value);
    } else {
      c := 0;
    }
  }

  /** The insert step of `insert`: a copy of the buffer with the text at the cursor, and the cursor after it. */
  method InsertAt(buffer: Buffer, cursor: Point, text: seq<char>, ghost s: seq<char>, ghost o: nat, ghost s': seq<char>, ghost x: nat)
    returns (newBuffer: Buffer, cursorAfter: Point)
    requires buffer.Valid() && buffer.Text() == s
    requires o == PointToOffsetSpec(s, cursor) && s' == InsertedText(s, o, text) && x == o + ByteLen(text)
    ensures fresh(newBuffer) && newBuffer.Valid() && newBuffer.Text() == s'
    ensures cursorAfter == OffsetToPointSpec(newBuffer.Text(), x)
  {
    var offset := buffer.PointToOffset(cursor);
    PointOffsetIsBoundary(s, cursor);
    newBuffer := buffer.Clone();
    newBuffer.Insert(offset, text);
    var after := Offset.New(offset.Value() + ByteLen(text));
    assert after.value == x;
    cursorAfter := newBuffer.OffsetToPoint(after);
  }

  /** The delete step of `backspace`: a copy of the buffer without the byte before `offset`, the character recorded as deleted, and the cursor after. */
  method DeleteBefore(buffer: Buffer, offset: Offset, ghost s: seq<char>, ghost s': seq<char>)
    returns (newBuffer: Buffer, deleted: seq<char>, cursorAfter: Point)
    requires buffer.Valid() && buffer.Text() == s && offset.value > 0
    requires DeleteAllowed(s, offset.value - 1, offset.value) && s' == DeletedText(s, offset.value - 1, offset.value)
    ensures fresh(newBuffer) && newBuffer.Valid() && newBuffer.Text() == s'
    ensures deleted == NthCharOr(s, offset.value - 1)
    ensures cursorAfter == OffsetToPointSpec(newBuffer.Text(), offset.value - 1)
  {
    var start := Offset.New(offset.Value() - 1);
    assert start.value == offset.value - 1;
    var fullText := buffer.ToString();
    deleted := NthCharOr(fullText, start.Value());
    newBuffer := buffer.Clone();
    newBuffer.Delete(start, offset);
    cursorAfter := newBuffer.OffsetToPoint(start);
  }

  /** The delete step of `delete`: a copy of the buffer without the byte at `offset`, and the character recorded as deleted. */
  method DeleteAt(buffer: Buffer, offset: Offset, ghost s: seq<char>, ghost s': seq<char>) returns (newBuffer: Buffer, deleted: seq<char>)
    requires buffer.Valid() && buffer.Text() == s
    requires DeleteAllowed(s, offset.value, offset.value + 1) && s' == DeletedText(s, offset.value, offset.value + 1)
    ensures fresh(newBuffer) && newBuffer.Valid() && newBuffer.Text() == s'
    ensures deleted == NthCharOr(s, offset.value)
  {
    var end := Offset.New(offset.Value() + 1);
    assert end.value == offset.value + 1;
    var fullText := buffer.ToString();
    deleted := NthCharOr(fullText, offset.Value());
    newBuffer := buffer.Clone();
    newBuffer.Delete(offset, end);
  }

  /** Undo straight after `insert` gives back the text and the cursor from before it. */
  method InsertThenUndo(e: Editor, text: seq<char>)
    requires e.Valid()
    modifies e, e.history
    ensures e.Valid() && e.Text() == old(e.Text()) && e.Cursor() == old(e.Cursor())
  {
    ghost var h, c := e.history.State(), e.Cursor();
    e.Insert(text);
    UndoAfterPush(h, e.history.current, InsertTransaction(text, c, e.Cursor()));
    e.Undo();
  }

  /** Undo straight after a `backspace` that removed a byte gives back the text and the cursor from before it. */
  method BackspaceThenUndo(e: Editor)
    requires e.Valid()
    requires var c := e.Cursor(); var o := PointToOffsetSpec(e.Text(), c);
      !(c.row == 0 && c.column == 0) && o > 0 && DeleteAllowed(e.Text(), o - 1, o)
    modifies e, e.history
    ensures e.Valid() && e.Text() == old(e.Text()) && e.Cursor() == old(e.Cursor())
  {
    ghost var h, c, s := e.history.State(), e.Cursor(), e.Text();
    ghost var o := PointToOffsetSpec(s, c);
    e.Backspace();
    UndoAfterPush(h, e.history.current, DeleteTransaction(NthCharOr(s, o - 1), c, e.Cursor()));
    e.Undo();
  }

  /** Undo straight after a `delete` that removed a byte gives back the text and the cursor from before it. */
  method DeleteThenUndo(e: Editor)
    requires e.Valid()
    requires var o := PointToOffsetSpec(e.Text(), e.Cursor());
      o < ByteLen(e.Text()) && DeleteAllowed(e.Text(), o, o + 1)
    modifies e, e.history
    ensures e.Valid() && e.Text() == old(e.Text()) && e.Cursor() == old(e.Cursor())
  {
    ghost var h, c, s := e.history.State(), e.Cursor(), e.Text();
    ghost var o := PointToOffsetSpec(s, c);
    e.Delete();
    UndoAfterPush(h, e.history.current, DeleteTransaction(NthCharOr(s, o), c, c));
    e.Undo();
  }
}
