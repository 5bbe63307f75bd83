/**
  Undo and redo over buffer snapshots: a stack of earlier snapshots, each
  with the transaction that left it, a stack of undone snapshots, and the
  current one. Snapshots are shared, never copied, so a snapshot on a stack
  is exactly the buffer that was current when it was pushed.
 */
module Histories {
  import opened Options
  import opened Transactions
  import opened Buffers

  /** The three fields of a history, as a value. */
  datatype HistoryState = HistoryState(undo: seq<(Buffer, Transaction)>, redo: seq<(Buffer, Transaction)>, current: Buffer)

  /** `push`: the current snapshot goes on the undo stack with the edit's transaction, and the redo stack is dropped. */
  function Pushed(h: HistoryState, next: Buffer, t: Transaction): HistoryState
  {
    HistoryState(h.undo + [(h.current, t)], [], next)
  }

  /**
    `undo`: the top of the undo stack becomes current, the current snapshot
    goes on the redo stack with the same transaction, and the transaction is
    returned; nothing happens on an empty stack.
   */
  function Undone(h: HistoryState): (HistoryState, Option<Transaction>)
  {
    if h.undo == [] then (h, None)
    else
      var (previous, t) := h.undo[|h.undo| - 1];
      (HistoryState(h.undo[..|h.undo| - 1], h.redo + [(h.current, t)], previous), Some(t))
  }

  /** `redo`: the mirror image of `undo`. */
  function Redone(h: HistoryState): (HistoryState, Option<Transaction>)
  {
    if h.redo == [] then (h, None)
    else
      var (next, t) := h.redo[|h.redo| - 1];
      (HistoryState(h.undo + [(h.current, t)], h.redo[..|h.redo| - 1], next), Some(t))
  }

  /** The snapshots on one stack. */
  function StackSnapshots(st: seq<(Buffer, Transaction)>): set<Buffer>
  {
    set e | e in st :: e.0
  }

  /** Every snapshot a history holds. */
  function Snapshots(h: HistoryState): set<Buffer>
  {
    {h.current} + StackSnapshots(h.undo) + StackSnapshots(h.redo)
  }

  /** Pushing onto a stack adds exactly the pushed snapshot. */
  lemma StackSnapshotsSnoc(st: seq<(Buffer, Transaction)>, e: (Buffer, Transaction))
    ensures StackSnapshots(st + [e]) == StackSnapshots(st) + {e.0}
  {
    assert forall x :: x in st + [e] <==> x in st || x == e;
  }

  lemma SameState(a: HistoryState, b: HistoryState)
    requires a.undo == b.undo && a.redo == b.redo && a.current == b.current
    ensures a == b
  {
  }

  lemma DropLast(s: seq<(Buffer, Transaction)>)
    requires s != []
    ensures s[..|s| - 1] + [s[|s| - 1]] == s
  {
  }

  /** A successful undo followed by a redo gives back the same history and the same transaction. */
  lemma RedoUndoes(h: HistoryState)
    requires h.undo != []
    ensures Redone(Undone(h).0).0 == h
    ensures Redone(Undone(h).0).1 == Undone(h).1
  {
    var n := |h.undo|;
    DropLast(h.undo);
    var u := Undone(h).0;
    assert u.undo == h.undo[..n - 1] && u.current == h.undo[n - 1].0;
    assert u.redo[|u.redo| - 1] == (h.current, h.undo[n - 1].1);
    assert u.redo[..|u.redo| - 1] == h.redo;
    var r := Redone(u).0;
    assert r.undo == h.undo[..n - 1] + [(h.undo[n - 1].0, h.undo[n - 1].1)];
    SameState(r, h);
  }

  /** A successful redo followed by an undo gives back the same history and the same transaction. */
  lemma UndoUndoesRedo(h: HistoryState)
    requires h.redo != []
    ensures Undone(Redone(h).0).0 == h
    ensures Undone(Redone(h).0).1 == Redone(h).1
  {
    var n := |h.redo|;
    DropLast(h.redo);
    var r := Redone(h).0;
    assert r.redo == h.redo[..n - 1] && r.current == h.redo[n - 1].0;
    assert r.undo[|r.undo| - 1] == (h.current, h.redo[n - 1].1);
    assert r.undo[..|r.undo| - 1] == h.undo;
    var u := Undone(r).0;
    assert u.redo == h.redo[..n - 1] + [(h.redo[n - 1].0, h.redo[n - 1].1)];
    SameState(u, h);
  }

  /** Undo right after a push restores the snapshot that was current before it and returns the pushed transaction. */
  lemma UndoAfterPush(h: HistoryState, next: Buffer, t: Transaction)
    ensures Undone(Pushed(h, next, t)) == (HistoryState(h.undo, [(next, t)], h.current), Some(t))
  {
    var p := Pushed(h, next, t);
    assert p.undo[..|p.undo| - 1] == h.undo;
    assert p.undo[|p.undo| - 1] == (h.current, t);
    SameState(Undone(p).0, HistoryState(h.undo, [(next, t)], h.current));
  }

  /**
    There is no batching: after two pushes (two typed characters, say) one
    undo goes back only to the snapshot between them, not to the one before
    both.
   */
  lemma OneUndoPerPush(h: HistoryState, b1: Buffer, t1: Transaction, b2: Buffer, t2: Transaction)
    ensures Undone(Pushed(Pushed(h, b1, t1), b2, t2)).0.current == b1
    ensures Undone(Undone(Pushed(Pushed(h, b1, t1), b2, t2)).0).0.current == h.current
  {
    var p1 := Pushed(h, b1, t1);
    UndoAfterPush(p1, b2, t2);
    var u := Undone(Pushed(p1, b2, t2)).0;
    assert u.undo == p1.undo;
  }

  /** Undo and redo move entries between the stacks without losing any. */
  lemma StackSizesKept(h: HistoryState)
    ensures |Undone(h).0.undo| + |Undone(h).0.redo| == |h.undo| + |h.redo|
    ensures |Redone(h).0.undo| + |Redone(h).0.redo| == |h.undo| + |h.redo|
  {
  }

  /** Undo and redo keep the same snapshots; a push adds only the new one and may drop undone ones. */
  lemma SnapshotsKept(h: HistoryState, next: Buffer, t: Transaction)
    ensures Snapshots(Undone(h).0) == Snapshots(h)
    ensures Snapshots(Redone(h).0) == Snapshots(h)
    ensures Snapshots(Pushed(h, next, t)) <= Snapshots(h) + {next}
  {
    if h.undo != [] {
      var n := |h.undo|;
      DropLast(h.undo);
      StackSnapshotsSnoc(h.undo[..n - 1], h.undo[n - 1]);
      StackSnapshotsSnoc(h.redo, (h.current, h.undo[n - 1].1));
    }
    if h.redo != [] {
      var n := |h.redo|;
      DropLast(h.redo);
      StackSnapshotsSnoc(h.redo[..n - 1], h.redo[n - 1]);
      StackSnapshotsSnoc(h.undo, (h.current, h.redo[n - 1].1));
    }
    StackSnapshotsSnoc(h.undo, (h.current, t));
  }

  /** Every snapshot of `h`, current or on a stack, is one of `bs`. */
  ghost predicate HeldIn(h: HistoryState, bs: set<Buffer>)
  {
    && h.current in bs
    && (forall i :: 0 <= i < |h.undo| ==> h.undo[i].0 in bs)
    && (forall i :: 0 <= i < |h.redo| ==> h.redo[i].0 in bs)
  }

  /** `HeldIn` is containment of the snapshot set. */
  lemma HeldInIsSnapshots(h: HistoryState, bs: set<Buffer>)
    ensures HeldIn(h, bs) <==> Snapshots(h) <= bs
  {
    if Snapshots(h) <= bs {
      forall i | 0 <= i < |h.undo| ensures h.undo[i].0 in bs {
        assert h.undo[i] in h.undo;
      }
      forall i | 0 <= i < |h.redo| ensures h.redo[i].0 in bs {
        assert h.redo[i] in h.redo;
      }
    }
    if HeldIn(h, bs) {
      forall b | b in Snapshots(h) ensures b in bs {
        if b != h.current {
          if b in StackSnapshots(h.undo) {
            var e :| e in h.undo && e.0 == b;
            var i :| 0 <= i < |h.undo| && h.undo[i] == e;
          } else {
            var e :| e in h.redo && e.0 == b;
            var i :| 0 <= i < |h.redo| && h.redo[i] == e;
          }
        }
      }
    }
  }

  /** Undo and redo keep every snapshot among the same buffers, and a push adds only the new one. */
  lemma HeldInKept(h: HistoryState, bs: set<Buffer>, next: Buffer, t: Transaction)
    requires HeldIn(h, bs)
    ensures HeldIn(Undone(h).0, bs) && HeldIn(Redone(h).0, bs)
    ensures HeldIn(Pushed(h, next, t), bs + {next})
  {
    if h.undo != [] {
      var u := Undone(h).0;
      assert forall i :: 0 <= i < |u.undo| ==> u.undo[i] == h.undo[i];
    }
    if h.redo != [] {
      var r := Redone(h).0;
      assert forall i :: 0 <= i < |r.redo| ==> r.redo[i] == h.redo[i];
    }
  }

  class History {
    var undoStack: seq<(Buffer, Transaction)>
    var redoStack: seq<(Buffer, Transaction)>
    var current: Buffer

    function State(): HistoryState
      reads this
    {
      HistoryState(undoStack, redoStack, current)
    }

    /** `History::new`: both stacks empty. */
    constructor (buffer: Buffer)
      ensures State() == HistoryState([], [], buffer)
    {
      undoStack, redoStack := [], [];
      current := buffer;
    }

    /** `current`. */
    function Current(): (b: Buffer)
      reads this
      ensures b in Snapshots(State())
    {
      current
    }

    /** `push`. */
    method Push(newBuffer: Buffer, transaction: Transaction)
      modifies this
      ensures State() == Pushed(old(State()), newBuffer, transaction)
    {
      undoStack := undoStack + [(current, transaction)];
      current := newBuffer;
      redoStack := [];
    }

    /** `undo`. */
    method Undo() returns (t: Option<Transaction>)
      modifies this
      ensures (State(), t) == Undone(old(State()))
    {
      if undoStack == [] {
        return None;
      }
      var (previous, transaction) := undoStack[|undoStack| - 1];
      undoStack := undoStack[..|undoStack| - 1];
      redoStack := redoStack + [(current, transaction)];
      current := previous;
      t := Some(transaction);
    }

    /** `redo`. */
    method Redo() returns (t: Option<Transaction>)
      modifies this
      ensures (State(), t) == Redone(old(State()))
    {
      if redoStack == [] {
        return None;
      }
      var (next, transaction) := redoStack[|redoStack| - 1];
      redoStack := redoStack[..|redoStack| - 1];
      undoStack := undoStack + [(current, transaction)];
      current := next;
      t := Some(transaction);
    }

    /** `can_undo`: exactly when an undo would succeed. */
    function CanUndo(): (b: bool)
      reads this
      ensures b <==> Undone(State()).1.Some?
    {
      undoStack != []
    }

    /** `can_redo`: exactly when a redo would succeed. */
    function CanRedo(): (b: bool)
      reads this
      ensures b <==> Redone(State()).1.Some?
    {
      redoStack != []
    }
  }
}
