/** The resume editor's linear undo/redo history: a list of form snapshots and
    a pointer to the current one. Snapshots are immutable values here, so the
    deep copies the service makes on the way in and out are implicit. */
module History {
  import opened Options

  /** Snapshots in the order they were pushed, and the index of the current
      one (`-1` while there is none). */
  datatype History<T> = History(entries: seq<T>, pointer: int)

  /** The invariant every reachable history keeps: the pointer designates an
      entry, and it is `-1` exactly when there is no entry. */
  predicate Valid<T>(h: History<T>) {
    && -1 <= h.pointer < |h.entries|
    && (h.pointer == -1 <==> |h.entries| == 0)
  }

  /** The service's initial state, and the state `clear` returns to. */
  function Empty<T>(): (h: History<T>)
    ensures Valid(h) && |h.entries| == 0
    ensures !CanUndo(h) && !CanRedo(h)
  {
    History([], -1)
  }

  /** `canUndo`: some entry precedes the current one. */
  predicate CanUndo<T>(h: History<T>) {
    h.pointer > 0
  }

  /** `canRedo`: some entry follows the current one. */
  predicate CanRedo<T>(h: History<T>) {
    h.pointer < |h.entries| - 1
  }

  /** The snapshot the pointer designates, if any. */
  function Current<T>(h: History<T>): Option<T>
    requires Valid(h)
  {
    if h.pointer >= 0 then Some(h.entries[h.pointer]) else None
  }

  /** `addState`: keep the entries up to the current one, drop the redo
      entries after it, append the new snapshot and make it current. */
  function AddState<T>(h: History<T>, state: T): (r: History<T>)
    requires Valid(h)
    ensures Valid(r)
    ensures |r.entries| == h.pointer + 2
    ensures forall i :: 0 <= i <= h.pointer ==> r.entries[i] == h.entries[i]
    ensures Current(r) == Some(state)
    ensures !CanRedo(r)
    ensures CanUndo(r) <==> Current(h).Some?
  {
    History(h.entries[..h.pointer + 1] + [state], h.pointer + 1)
  }

  /** `undo`: step back one entry and return that snapshot; without an entry
      to step back to, return nothing and change nothing. */
  function Undo<T>(h: History<T>): (r: (History<T>, Option<T>))
    requires Valid(h)
    ensures Valid(r.0) && r.0.entries == h.entries
    ensures r.1.Some? <==> CanUndo(h)
    ensures CanUndo(h) ==> r.0.pointer == h.pointer - 1 && r.1 == Some(h.entries[h.pointer - 1])
    ensures CanUndo(h) ==> r.1 == Current(r.0) && CanRedo(r.0)
    ensures !CanUndo(h) ==> r.0 == h
  {
    if CanUndo(h) then
      var h' := h.(pointer := h.pointer - 1);
      (h', Some(h'.entries[h'.pointer]))
    else (h, None)
  }

  /** `redo`: step forward one entry and return that snapshot; without an
      entry to step forward to, return nothing and change nothing. */
  function Redo<T>(h: History<T>): (r: (History<T>, Option<T>))
    requires Valid(h)
    ensures Valid(r.0) && r.0.entries == h.entries
    ensures r.1.Some? <==> CanRedo(h)
    ensures CanRedo(h) ==> r.0.pointer == h.pointer + 1 && r.1 == Some(h.entries[h.pointer + 1])
    ensures CanRedo(h) ==> r.1 == Current(r.0) && CanUndo(r.0)
    ensures !CanRedo(h) ==> r.0 == h
  {
    if CanRedo(h) then
      var h' := h.(pointer := h.pointer + 1);
      (h', Some(h'.entries[h'.pointer]))
    else (h, None)
  }

  /** `clear`: forget every snapshot. */
  function Clear<T>(h: History<T>): (r: History<T>)
    ensures Valid(r) && |r.entries| == 0 && r.pointer == -1
    ensures !CanUndo(r) && !CanRedo(r)
  {
    Empty()
  }

  /** Redo undoes an undo: the pointer and the returned snapshot are the ones
      current before the undo. */
  lemma UndoThenRedo<T>(h: History<T>)
    requires Valid(h) && CanUndo(h)
    ensures Redo(Undo(h).0) == (h, Current(h))
  {
  }

  /** Undo undoes a redo. */
  lemma RedoThenUndo<T>(h: History<T>)
    requires Valid(h) && CanRedo(h)
    ensures Undo(Redo(h).0) == (h, Current(h))
  {
  }

  /** Pushing after an undo erases the entry that was current before the undo
      and every redo entry: the history is the prefix up to the new pointer
      plus the pushed snapshot. */
  lemma AddAfterUndo<T>(h: History<T>, state: T)
    requires Valid(h) && CanUndo(h)
    ensures AddState(Undo(h).0, state).entries == h.entries[..h.pointer] + [state]
    ensures !CanRedo(AddState(Undo(h).0, state))
  {
  }

  /** The worked example: `[A, B, C]`, undo twice to `A`, push `D`, giving `[A, D]`
      with redo unavailable. */
  lemma DiscardRedoExample<T>(a: T, b: T, c: T, d: T)
    ensures
      var h := AddState(AddState(AddState(Empty(), a), b), c);
      var back := Undo(Undo(h).0).0;
      var r := AddState(back, d);
      Current(back) == Some(a) && r.entries == [a, d] && !CanRedo(r) && CanUndo(r)
  {
    var h := AddState(AddState(AddState(Empty(), a), b), c);
    assert h.entries == [a, b, c] && h.pointer == 2;
    var back := Undo(Undo(h).0).0;
    assert back.pointer == 0;
    assert AddState(back, d).entries == [a] + [d];
  }

  /** What a toolbar button or form handler can do to the history. */
  datatype Op<T> = Push(state: T) | UndoOp | RedoOp | ClearOp

  function Apply<T>(h: History<T>, op: Op<T>): History<T>
    requires Valid(h)
  {
    match op
    case Push(s) => AddState(h, s)
    case UndoOp => Undo(h).0
    case RedoOp => Redo(h).0
    case ClearOp => Clear(h)
  }

  /** Any sequence of pushes, undos, redos and clears keeps the pointer within
      `[-1, |entries| - 1]` and `-1` only on an empty history. */
  function Run<T>(h: History<T>, ops: seq<Op<T>>): (r: History<T>)
    requires Valid(h)
    ensures Valid(r)
    decreases |ops|
  {
    if |ops| == 0 then h else Run(Apply(h, ops[0]), ops[1..])
  }

  /** `triggerUndo` followed by the form's undo handler: only when undo is
      possible does the trigger fire, and the form is then rebuilt from the
      snapshot the history now designates. */
  function TriggerUndo<T>(h: History<T>, form: T): (r: (History<T>, T))
    requires Valid(h)
    ensures Valid(r.0)
    ensures CanUndo(h) ==> Current(r.0) == Some(r.1) && r.0.pointer == h.pointer - 1
    ensures !CanUndo(h) ==> r == (h, form)
  {
    if CanUndo(h) then
      var (h', snapshot) := Undo(h);
      (h', snapshot.value)
    else (h, form)
  }

  /** `triggerRedo` followed by the form's redo handler. */
  function TriggerRedo<T>(h: History<T>, form: T): (r: (History<T>, T))
    requires Valid(h)
    ensures Valid(r.0)
    ensures CanRedo(h) ==> Current(r.0) == Some(r.1) && r.0.pointer == h.pointer + 1
    ensures !CanRedo(h) ==> r == (h, form)
  {
    if CanRedo(h) then
      var (h', snapshot) := Redo(h);
      (h', snapshot.value)
    else (h, form)
  }
}
