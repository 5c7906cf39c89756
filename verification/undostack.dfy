/** `UndoStack`: a list of undo items and the index of the newest one still in
    effect (-1 when there is none). Pushing drops every item that was undone; undo
    and redo move the index and hand back the callback to run.

    The items are kept opaque: the stack never looks inside them. Running a callback
    is left to the caller, which receives it as an `Effect`. */
module UndoStack {
  import opened Results

  datatype UndoStack<T> = UndoStack(stack: seq<T>, index: int)

  /** The callback an undo or a redo runs, with the item it belongs to. */
  datatype Effect<T> = RunUndo(item: T) | RunRedo(item: T)

  /** The new state together with the callback to run. */
  datatype Step<T> = Step(state: UndoStack<T>, run: Effect<T>)

  /** The index is -1 or names an item. */
  predicate Valid<T>(s: UndoStack<T>) {
    -1 <= s.index < |s.stack|
  }

  /** Nothing is left to redo. */
  predicate AtNewest<T>(s: UndoStack<T>) {
    s.index == |s.stack| - 1
  }

  /** The constructor: an empty stack. */
  function New<T>(): (s: UndoStack<T>)
    ensures Valid(s) && AtNewest(s) && s.index == -1
  {
    UndoStack([], -1)
  }

  /** `push`: the index moves on, every item past it is dropped, and the new item
      goes at the index. */
  function Push<T>(s: UndoStack<T>, item: T): (r: UndoStack<T>)
    requires Valid(s)
    ensures Valid(r) && AtNewest(r)
    ensures r.index == s.index + 1 && r.stack[r.index] == item
    ensures r.stack[..r.index] == s.stack[..s.index + 1]
  {
    var index := s.index + 1;
    UndoStack(s.stack[..index] + [item], index)
  }

  /** `undo`: the item at the index is undone and the index moves back; with no item
      in effect it throws. */
  function Undo<T>(s: UndoStack<T>): (r: Result<Step<T>>)
    requires Valid(s)
    ensures r.Err? <==> s.index == -1
    ensures r.Err? ==> r.error == AlreadyOldest
    ensures r.Ok? ==> && Valid(r.value.state) && r.value.state.stack == s.stack
                      && r.value.state.index + 1 == s.index
                      && r.value.run == RunUndo(s.stack[s.index])
  {
    if s.index >= 0 then
      Ok(Step(s.(index := s.index - 1), RunUndo(s.stack[s.index])))
    else Err(AlreadyOldest)
  }

  /** `redo`: the item after the index is redone and the index moves on to it; when
      there is none it throws. */
  function Redo<T>(s: UndoStack<T>): (r: Result<Step<T>>)
    requires Valid(s)
    ensures r.Err? <==> AtNewest(s)
    ensures r.Err? ==> r.error == AlreadyNewest
    ensures r.Ok? ==> && Valid(r.value.state) && r.value.state.stack == s.stack
                      && r.value.state.index == s.index + 1
                      && r.value.run == RunRedo(s.stack[s.index + 1])
  {
    if s.index + 1 < |s.stack| then
      Ok(Step(s.(index := s.index + 1), RunRedo(s.stack[s.index + 1])))
    else Err(AlreadyNewest)
  }

  /** Redo after undo returns to the same state and redoes the item just undone. */
  lemma UndoThenRedo<T>(s: UndoStack<T>)
    requires Valid(s) && Undo(s).Ok?
    ensures Redo(Undo(s).value.state) == Ok(Step(s, RunRedo(s.stack[s.index])))
  {
  }

  /** Undo after redo returns to the same state and undoes the item just redone. */
  lemma RedoThenUndo<T>(s: UndoStack<T>)
    requires Valid(s) && Redo(s).Ok?
    ensures Undo(Redo(s).value.state) == Ok(Step(s, RunUndo(s.stack[s.index + 1])))
  {
  }

  /** After a push there is nothing to redo, and the next undo undoes the new item. */
  lemma PushThenUndo<T>(s: UndoStack<T>, item: T)
    requires Valid(s)
    ensures Redo(Push(s, item)) == Err(AlreadyNewest)
    ensures Undo(Push(s, item)).Ok? && Undo(Push(s, item)).value.run == RunUndo(item)
    ensures Undo(Push(s, item)).value.state.index == s.index
  {
  }

  /** `k` undos in a row, with the callbacks they hand back in order. */
  function UndoTimes<T>(s: UndoStack<T>, k: nat): (r: Result<(UndoStack<T>, seq<Effect<T>>)>)
    requires Valid(s)
    ensures r.Ok? ==> Valid(r.value.0) && r.value.0.stack == s.stack && |r.value.1| == k
    decreases k
  {
    if k == 0 then Ok((s, []))
    else match Undo(s)
      case Err(e) => Err(e)
      case Ok(step) =>
        match UndoTimes(step.state, k - 1)
        case Err(e) => Err(e)
        case Ok(rest) => Ok((rest.0, [step.run] + rest.1))
  }

  /** Undoing `k` times succeeds exactly when `k` items are in effect; it undoes them
      newest first and leaves the index `k` places back. */
  lemma {:induction false} UndoHistory<T>(s: UndoStack<T>, k: nat)
    requires Valid(s)
    ensures UndoTimes(s, k).Ok? <==> k <= s.index + 1
    ensures UndoTimes(s, k).Ok? ==>
      && UndoTimes(s, k).value.0.index == s.index - k
      && forall t :: 0 <= t < k ==> UndoTimes(s, k).value.1[t] == RunUndo(s.stack[s.index - t])
    decreases k
  {
    if k > 0 && s.index >= 0 {
      var s' := Undo(s).value.state;
      UndoHistory(s', k - 1);
      if UndoTimes(s, k).Ok? {
        var effects := UndoTimes(s, k).value.1;
        assert effects == [RunUndo(s.stack[s.index])] + UndoTimes(s', k - 1).value.1;
        forall t | 0 <= t < k
          ensures effects[t] == RunUndo(s.stack[s.index - t])
        {
          if t > 0 {
            assert effects[t] == UndoTimes(s', k - 1).value.1[t - 1];
          }
        }
      }
    }
  }
}
