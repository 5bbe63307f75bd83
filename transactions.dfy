/** The record the history keeps with every snapshot: what changed and where the cursor was. */
module Transactions {
  import opened Points

  /** `EditKind`. */
  datatype EditKind =
    | Insert(text: seq<char>)
    | Delete(text: seq<char>)
    | Replace(oldText: seq<char>, newText: seq<char>)

  datatype Transaction = Transaction(cursorBefore: Point, cursorAfter: Point, edit: EditKind)

  /** `Transaction::insert`. */
  function InsertTransaction(text: seq<char>, cursorBefore: Point, cursorAfter: Point): (t: Transaction)
    ensures t.edit == EditKind.Insert(text)
    ensures t.cursorBefore == cursorBefore && t.cursorAfter == cursorAfter
  {
    Transaction(cursorBefore, cursorAfter, EditKind.Insert(text))
  }

  /** `Transaction::delete`. */
  function DeleteTransaction(text: seq<char>, cursorBefore: Point, cursorAfter: Point): (t: Transaction)
    ensures t.edit == EditKind.Delete(text)
    ensures t.cursorBefore == cursorBefore && t.cursorAfter == cursorAfter
  {
    Transaction(cursorBefore, cursorAfter, EditKind.Delete(text))
  }

  /** `Transaction::replace`. */
  function ReplaceTransaction(oldText: seq<char>, newText: seq<char>, cursorBefore: Point, cursorAfter: Point): (t: Transaction)
    ensures t.edit == EditKind.Replace(oldText, newText)
    ensures t.cursorBefore == cursorBefore && t.cursorAfter == cursorAfter
  {
    Transaction(cursorBefore, cursorAfter, EditKind.Replace(oldText, newText))
  }
}
