/**
 * The server's shared drawing history (server/drawing-state.js): a list of
 * visible operations, a stack of undone operations, and an id counter.
 *
 * The state is given as a value (`LogState`) with one step function per
 * operation; the class `DrawingState` updates its fields in place and
 * promises that it moves exactly as the step functions say. The lemmas
 * state what the history guarantees: ids are stamped in increasing order
 * and never reused, undo and redo only move the boundary between the two
 * stacks, and undo followed by redo (or redo followed by undo) is the
 * identity.
 */
module DrawingLog {
  import opened Wrappers

  /** A JSON-like value carried in one field of an operation. */
  datatype Value = Text(text: string) | Number(number: real) | Flag(flag: bool) | Null

  /** The fields of an object, by property name. */
  type Fields = map<string, Value>

  /**
   * A committed operation: the caller's fields, with the `id` and
   * `timestamp` properties stamped by the log.
   */
  datatype Operation = Operation(fields: Fields, id: nat, timestamp: int)

  /**
   * The three pieces of state: the visible operations (oldest first), the
   * undone operations (most recently undone last, i.e. on top) and the id
   * that the next committed operation receives.
   */
  datatype LogState = LogState(operations: seq<Operation>, undoStack: seq<Operation>, operationId: nat)

  datatype ChangeKind = UndoKind | RedoKind

  /** What a successful undo or redo reports: the moved operation and the visible operations after it. */
  datatype Change = Change(kind: ChangeKind, operation: Operation, remainingOperations: seq<Operation>)

  /** The counters the server exposes for observation. */
  datatype Summary = Summary(totalOperations: nat, undoStackSize: nat, lastOperationId: int)

  /** The state of a freshly constructed log. */
  const Initial := LogState([], [], 0)

  /** The property names the log overwrites when it stamps an operation. */
  const StampedKeys: set<string> := {"id", "timestamp"}

  function Reversed<T>(s: seq<T>): (r: seq<T>)
    ensures |r| == |s|
    ensures forall i :: 0 <= i < |s| ==> r[i] == s[|s| - 1 - i]
  {
    if s == [] then [] else Reversed(s[1..]) + [s[0]]
  }

  /**
   * Every operation the log still holds, in commit order: the visible ones
   * followed by the undone ones, the most recently undone (the newest) last.
   */
  function Timeline(s: LogState): seq<Operation>
  {
    s.operations + Reversed(s.undoStack)
  }

  predicate IdsIncreasing(ops: seq<Operation>)
  {
    forall i, j :: 0 <= i < j < |ops| ==> ops[i].id < ops[j].id
  }

  predicate IdsBelow(ops: seq<Operation>, bound: nat)
  {
    forall i :: 0 <= i < |ops| ==> ops[i].id < bound
  }

  /** The log's invariant: the timeline is in strictly increasing id order and every id was already handed out. */
  predicate Consistent(s: LogState)
  {
    IdsIncreasing(Timeline(s)) && IdsBelow(Timeline(s), s.operationId)
  }

  /**
   * addOperation: the caller's fields, with `id` and `timestamp` replaced,
   * are appended to the visible list; the counter advances by one and the
   * redo stack is emptied.
   */
  function Commit(s: LogState, input: Fields, now: int): (r: (Operation, LogState))
    ensures r.0.id == s.operationId && r.0.timestamp == now
    ensures r.0.fields.Keys == input.Keys - StampedKeys
    ensures forall k :: k in r.0.fields ==> r.0.fields[k] == input[k]
    ensures r.1.operations == s.operations + [r.0]
    ensures r.1.undoStack == [] && r.1.operationId == s.operationId + 1
  {
    var op := Operation(input - StampedKeys, s.operationId, now);
    (op, LogState(s.operations + [op], [], s.operationId + 1))
  }

  /**
   * undo: with nothing visible, reports nothing and changes nothing;
   * otherwise moves the newest visible operation to the top of the undo stack.
   */
  function UndoLast(s: LogState): (r: (Option<Change>, LogState))
    ensures s.operations == [] ==> r == (None, s)
    ensures s.operations != [] ==>
      var n := |s.operations|;
      && r.1 == LogState(s.operations[..n - 1], s.undoStack + [s.operations[n - 1]], s.operationId)
      && r.0 == Some(Change(UndoKind, s.operations[n - 1], r.1.operations))
  {
    if |s.operations| == 0 then (None, s)
    else
      var n := |s.operations|;
      var op := s.operations[n - 1];
      var s' := s.(operations := s.operations[..n - 1], undoStack := s.undoStack + [op]);
      (Some(Change(UndoKind, op, s'.operations)), s')
  }

  /**
   * redo: with nothing undone, reports nothing and changes nothing;
   * otherwise moves the top of the undo stack back to the end of the visible list.
   */
  function RedoLast(s: LogState): (r: (Option<Change>, LogState))
    ensures s.undoStack == [] ==> r == (None, s)
    ensures s.undoStack != [] ==>
      var m := |s.undoStack|;
      && r.1 == LogState(s.operations + [s.undoStack[m - 1]], s.undoStack[..m - 1], s.operationId)
      && r.0 == Some(Change(RedoKind, s.undoStack[m - 1], r.1.operations))
  {
    if |s.undoStack| == 0 then (None, s)
    else
      var m := |s.undoStack|;
      var op := s.undoStack[m - 1];
      var s' := s.(operations := s.operations + [op], undoStack := s.undoStack[..m - 1]);
      (Some(Change(RedoKind, op, s'.operations)), s')
  }

  /** clear: both stacks are emptied; the counter is kept. */
  function Reset(s: LogState): (r: LogState)
    ensures r.operations == [] && r.undoStack == []
    ensures r.operationId == s.operationId
  {
    s.(operations := [], undoStack := [])
  }

  lemma {:induction false} ReversedSnoc<T>(s: seq<T>, x: T)
    ensures Reversed(s + [x]) == [x] + Reversed(s)
  {
    var a, b := Reversed(s + [x]), [x] + Reversed(s);
    assert |a| == |b|;
    forall i | 0 <= i < |a| ensures a[i] == b[i] {
      if i > 0 {
        assert (s + [x])[|s| - i] == s[|s| - 1 - (i - 1)];
      }
    }
  }

  /** The fresh log is consistent. */
  lemma InitialConsistent()
    ensures Consistent(Initial)
  {
  }

  /**
   * Committing keeps the invariant; the new id is larger than every id the
   * log holds, and committing discards the undone operations from the timeline.
   */
  lemma {:induction false} CommitKeepsConsistent(s: LogState, input: Fields, now: int)
    requires Consistent(s)
    ensures Consistent(Commit(s, input, now).1)
    ensures Timeline(Commit(s, input, now).1) == s.operations + [Commit(s, input, now).0]
    ensures forall i :: 0 <= i < |Timeline(s)| ==> Timeline(s)[i].id < Commit(s, input, now).0.id
  {
    var (op, s') := Commit(s, input, now);
    assert Timeline(s') == s.operations + [op];
    assert forall i :: 0 <= i < |s.operations| ==> s.operations[i] == Timeline(s)[i];
  }

  /** Undo only moves the boundary between the two stacks: the timeline is unchanged. */
  lemma {:induction false} UndoKeepsTimeline(s: LogState)
    ensures Timeline(UndoLast(s).1) == Timeline(s)
    ensures UndoLast(s).1.operationId == s.operationId
  {
    if s.operations != [] {
      var n := |s.operations|;
      var s' := UndoLast(s).1;
      ReversedSnoc(s.undoStack, s.operations[n - 1]);
      calc {
        Timeline(s');
        s.operations[..n - 1] + Reversed(s.undoStack + [s.operations[n - 1]]);
        s.operations[..n - 1] + ([s.operations[n - 1]] + Reversed(s.undoStack));
        { assert s.operations[..n - 1] + [s.operations[n - 1]] == s.operations; }
        Timeline(s);
      }
    }
  }

  /** Redo only moves the boundary between the two stacks: the timeline is unchanged. */
  lemma {:induction false} RedoKeepsTimeline(s: LogState)
    ensures Timeline(RedoLast(s).1) == Timeline(s)
    ensures RedoLast(s).1.operationId == s.operationId
  {
    if s.undoStack != [] {
      var m := |s.undoStack|;
      var s' := RedoLast(s).1;
      var top := s.undoStack[m - 1];
      assert s.undoStack == s.undoStack[..m - 1] + [top];
      ReversedSnoc(s.undoStack[..m - 1], top);
      calc {
        Timeline(s);
        s.operations + Reversed(s.undoStack[..m - 1] + [top]);
        s.operations + ([top] + Reversed(s.undoStack[..m - 1]));
        (s.operations + [top]) + Reversed(s.undoStack[..m - 1]);
        Timeline(s');
      }
    }
  }

  lemma UndoKeepsConsistent(s: LogState)
    requires Consistent(s)
    ensures Consistent(UndoLast(s).1)
  {
    UndoKeepsTimeline(s);
  }

  lemma RedoKeepsConsistent(s: LogState)
    requires Consistent(s)
    ensures Consistent(RedoLast(s).1)
  {
    RedoKeepsTimeline(s);
  }

  lemma ResetKeepsConsistent(s: LogState)
    requires Consistent(s)
    ensures Consistent(Reset(s))
  {
  }

  /** The visible operations of a consistent log are in strictly increasing id order: commit order. */
  lemma {:induction false} VisibleInCommitOrder(s: LogState)
    requires Consistent(s)
    ensures IdsIncreasing(s.operations)
    ensures IdsBelow(s.operations, s.operationId)
  {
    assert forall i :: 0 <= i < |s.operations| ==> s.operations[i] == Timeline(s)[i];
  }

  /** The operations' timestamps never decrease along the sequence. */
  predicate TimestampsOrdered(ops: seq<Operation>)
  {
    forall i, j :: 0 <= i < j < |ops| ==> ops[i].timestamp <= ops[j].timestamp
  }

  /**
   * The history is ordered by timestamp as long as the clock does not go
   * back: a commit stamped no earlier than every operation the log holds
   * keeps the timeline, and with it the visible list, in timestamp order.
   */
  lemma {:induction false} CommitKeepsTimeOrder(s: LogState, input: Fields, now: int)
    requires TimestampsOrdered(Timeline(s))
    requires forall i :: 0 <= i < |Timeline(s)| ==> Timeline(s)[i].timestamp <= now
    ensures TimestampsOrdered(Timeline(Commit(s, input, now).1))
    ensures TimestampsOrdered(Commit(s, input, now).1.operations)
  {
    var (op, s') := Commit(s, input, now);
    assert Timeline(s') == s.operations + [op];
    assert forall i :: 0 <= i < |s.operations| ==> s.operations[i] == Timeline(s)[i];
  }

  /** Undo, redo and clear keep the timeline in timestamp order. */
  lemma UndoRedoResetKeepTimeOrder(s: LogState)
    requires TimestampsOrdered(Timeline(s))
    ensures TimestampsOrdered(Timeline(UndoLast(s).1))
    ensures TimestampsOrdered(Timeline(RedoLast(s).1))
    ensures TimestampsOrdered(Timeline(Reset(s)))
  {
    UndoKeepsTimeline(s);
    RedoKeepsTimeline(s);
  }

  /** Undo immediately followed by redo restores both stacks and reports the same operation. */
  lemma UndoThenRedo(s: LogState)
    requires s.operations != []
    ensures RedoLast(UndoLast(s).1).1 == s
    ensures RedoLast(UndoLast(s).1).0.value.operation == UndoLast(s).0.value.operation
  {
    var n := |s.operations|;
    assert s.operations[..n - 1] + [s.operations[n - 1]] == s.operations;
    assert (s.undoStack + [s.operations[n - 1]])[..|s.undoStack|] == s.undoStack;
  }

  /** Redo immediately followed by undo restores both stacks and reports the same operation. */
  lemma RedoThenUndo(s: LogState)
    requires s.undoStack != []
    ensures UndoLast(RedoLast(s).1).1 == s
    ensures UndoLast(RedoLast(s).1).0.value.operation == RedoLast(s).0.value.operation
  {
    var m := |s.undoStack|;
    assert s.undoStack[..m - 1] + [s.undoStack[m - 1]] == s.undoStack;
    assert (s.operations + [s.undoStack[m - 1]])[..|s.operations|] == s.operations;
  }

  /** A commit invalidates pending redos: redo right after a commit reports nothing. */
  lemma CommitThenRedo(s: LogState, input: Fields, now: int)
    ensures RedoLast(Commit(s, input, now).1).0 == None
  {
  }

  /** After clear, both undo and redo report nothing, and the next commit still gets a fresh id. */
  lemma ResetThenUndoRedo(s: LogState, input: Fields, now: int)
    ensures UndoLast(Reset(s)).0 == None && RedoLast(Reset(s)).0 == None
    ensures Commit(Reset(s), input, now).0.id == s.operationId
  {
  }

  /**
   * Two commits and an undo: the undo reports the second operation and
   * leaves only the first visible; a redo then restores both.
   */
  lemma {:induction false} CommitCommitUndoRedo(a: Fields, b: Fields, t1: int, t2: int)
    ensures
      var (opA, s1) := Commit(Initial, a, t1);
      var (opB, s2) := Commit(s1, b, t2);
      var (undone, s3) := UndoLast(s2);
      var (redone, s4) := RedoLast(s3);
      && opA.id == 0 && opB.id == 1
      && undone == Some(Change(UndoKind, opB, [opA]))
      && s3.operations == [opA]
      && redone == Some(Change(RedoKind, opB, [opA, opB]))
      && s4 == s2
  {
    var (opA, s1) := Commit(Initial, a, t1);
    var (opB, s2) := Commit(s1, b, t2);
    assert s2.operations == [opA, opB];
    assert s2.operations[..1] == [opA];
    UndoThenRedo(s2);
  }

  /** The live drawing history, updated in place as server/drawing-state.js does. */
  class DrawingState {
    var operations: seq<Operation>
    var undoStack: seq<Operation>
    var operationId: nat

    /** The fields, as a value. */
    function State(): LogState
      reads this
    {
      LogState(operations, undoStack, operationId)
    }

    ghost predicate Valid()
      reads this
    {
      Consistent(State())
    }

    constructor ()
      ensures State() == Initial && Valid()
    {
      operations := [];
      undoStack := [];
      operationId := 0;
    }

    method AddOperation(input: Fields, now: int) returns (op: Operation)
      requires Valid()
      modifies this
      ensures Valid()
      ensures (op, State()) == Commit(old(State()), input, now)
    {
      ghost var before := State();
      op := Operation(input - StampedKeys, operationId, now);
      operationId := operationId + 1;
      operations := operations + [op];
      undoStack := [];
      CommitKeepsConsistent(before, input, now);
    }

    method Undo() returns (result: Option<Change>)
      requires Valid()
      modifies this
      ensures Valid()
      ensures (result, State()) == UndoLast(old(State()))
    {
      ghost var before := State();
      UndoKeepsConsistent(before);
      if |operations| == 0 {
        return None;
      }
      var operation := operations[|operations| - 1];
      operations := operations[..|operations| - 1];
      undoStack := undoStack + [operation];
      result := Some(Change(UndoKind, operation, operations));
    }

    method Redo() returns (result: Option<Change>)
      requires Valid()
      modifies this
      ensures Valid()
      ensures (result, State()) == RedoLast(old(State()))
    {
      ghost var before := State();
      RedoKeepsConsistent(before);
      if |undoStack| == 0 {
        return None;
      }
      var operation := undoStack[|undoStack| - 1];
      undoStack := undoStack[..|undoStack| - 1];
      operations := operations + [operation];
      result := Some(Change(RedoKind, operation, operations));
    }

    /** The visible operations, for replay to a joining client: in strictly increasing id (commit) order. */
    function GetAllOperations(): (ops: seq<Operation>)
      requires Valid()
      reads this
      ensures ops == operations
      ensures IdsIncreasing(ops) && IdsBelow(ops, operationId)
    {
      VisibleInCommitOrder(State());
      operations
    }

    method Clear()
      requires Valid()
      modifies this
      ensures Valid()
      ensures State() == Reset(old(State()))
    {
      operations := [];
      undoStack := [];
    }

    /**
     * The two stack sizes and the last id handed out; every operation the
     * log holds has an id no larger than that last id.
     */
    function GetStateSummary(): (r: Summary)
      requires Valid()
      reads this
      ensures r.totalOperations == |operations| && r.undoStackSize == |undoStack|
      ensures r.lastOperationId + 1 == operationId
      ensures forall i :: 0 <= i < |Timeline(State())| ==> Timeline(State())[i].id <= r.lastOperationId
    {
      Summary(|operations|, |undoStack|, operationId - 1)
    }
  }
}
