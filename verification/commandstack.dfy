/**
 * The undo/redo history of `CommandStack`: an undo stack and a redo stack
 * of commands, each stack's top being the last element of its sequence.
 *
 * The stack is generic in the state `S` the commands act on and the command
 * type `C`. A command's `Do` and `Undo` are passed in as functions; running
 * one gives a `Run`: the new state, the command as it now is (commands
 * record what their `Do` created), and the exception that escaped, if any.
 * A stack entry is the command object itself, so the updated command is
 * what goes back on a stack.
 */
module CommandStack {
  import opened Base

  datatype Run<S, C> = Run(state: S, cmd: C, failure: Option<Error>)

  datatype History<C> = History(undo: seq<C>, redo: seq<C>)

  /** What a stack operation leaves: the stacks, the state, and the exception it let through. */
  datatype Outcome<S, C> = Outcome(history: History<C>, state: S, failure: Option<Error>)

  function NewHistory<C>(): (h: History<C>)
    ensures !CanUndo(h) && !CanRedo(h)
  {
    History([], [])
  }

  predicate CanUndo<C>(h: History<C>) {
    |h.undo| > 0
  }

  predicate CanRedo<C>(h: History<C>) {
    |h.redo| > 0
  }

  /** Both stacks together. */
  function Size<C>(h: History<C>): nat {
    |h.undo| + |h.redo|
  }

  /**
   * `Exec`: runs `Do`, then pushes the command on the undo stack and
   * empties the redo stack. An exception from `Do` escapes before either
   * stack is touched.
   */
  function Exec<S, C>(h: History<C>, s: S, c: C, doIt: (S, C) -> Run<S, C>): (r: Outcome<S, C>)
    ensures r.state == doIt(s, c).state && r.failure == doIt(s, c).failure
    ensures r.failure.Some? ==> r.history == h
    ensures r.failure.None? ==>
      && CanUndo(r.history) && !CanRedo(r.history)
      && r.history.undo[|r.history.undo| - 1] == doIt(s, c).cmd
      && r.history.undo[..|r.history.undo| - 1] == h.undo
  {
    var run := doIt(s, c);
    if run.failure.Some? then Outcome(h, run.state, run.failure)
    else Outcome(History(h.undo + [run.cmd], []), run.state, None)
  }

  /**
   * `Undo`: nothing on an empty undo stack; otherwise pops the top command,
   * runs its `Undo` and pushes it on the redo stack. An exception from
   * `Undo` escapes after the pop, so the command is then on neither stack.
   */
  function Undo<S, C>(h: History<C>, s: S, undoIt: (S, C) -> Run<S, C>): (r: Outcome<S, C>)
    ensures !CanUndo(h) ==> r == Outcome(h, s, None)
    ensures CanUndo(h) ==>
      var run := undoIt(s, h.undo[|h.undo| - 1]);
      && r.state == run.state && r.failure == run.failure
      && r.history.undo == h.undo[..|h.undo| - 1]
      && (run.failure.None? ==> r.history.redo == h.redo + [run.cmd])
      && (run.failure.Some? ==> r.history.redo == h.redo)
  {
    if |h.undo| == 0 then Outcome(h, s, None)
    else
      var run := undoIt(s, h.undo[|h.undo| - 1]);
      var popped := History(h.undo[..|h.undo| - 1], h.redo);
      if run.failure.Some? then Outcome(popped, run.state, run.failure)
      else Outcome(popped.(redo := popped.redo + [run.cmd]), run.state, None)
  }

  /**
   * `Redo`: nothing on an empty redo stack; otherwise pops the top command,
   * runs its `Do` and pushes it back on the undo stack (again lost from both
   * stacks if `Do` throws).
   */
  function Redo<S, C>(h: History<C>, s: S, doIt: (S, C) -> Run<S, C>): (r: Outcome<S, C>)
    ensures !CanRedo(h) ==> r == Outcome(h, s, None)
    ensures CanRedo(h) ==>
      var run := doIt(s, h.redo[|h.redo| - 1]);
      && r.state == run.state && r.failure == run.failure
      && r.history.redo == h.redo[..|h.redo| - 1]
      && (run.failure.None? ==> r.history.undo == h.undo + [run.cmd])
      && (run.failure.Some? ==> r.history.undo == h.undo)
  {
    if |h.redo| == 0 then Outcome(h, s, None)
    else
      var run := doIt(s, h.redo[|h.redo| - 1]);
      var popped := History(h.undo, h.redo[..|h.redo| - 1]);
      if run.failure.Some? then Outcome(popped, run.state, run.failure)
      else Outcome(popped.(undo := popped.undo + [run.cmd]), run.state, None)
  }

  /** A successful `Undo` or `Redo` moves one command between the stacks; a failed one loses it. */
  lemma UndoRedoKeepSize<S, C>(h: History<C>, s: S, doIt: (S, C) -> Run<S, C>, undoIt: (S, C) -> Run<S, C>)
    ensures var u := Undo(h, s, undoIt);
      Size(u.history) == if CanUndo(h) && u.failure.Some? then Size(h) - 1 else Size(h)
    ensures var r := Redo(h, s, doIt);
      Size(r.history) == if CanRedo(h) && r.failure.Some? then Size(h) - 1 else Size(h)
  {
  }

  /**
   * `Undo` then `Redo` puts the same command back on top of the undo stack
   * and leaves the redo stack as it was; when re-running `Do` gives the
   * command back unchanged, both stacks are restored exactly.
   */
  lemma UndoThenRedo<S, C>(h: History<C>, s: S, doIt: (S, C) -> Run<S, C>, undoIt: (S, C) -> Run<S, C>)
    requires CanUndo(h)
    requires Undo(h, s, undoIt).failure.None?
    ensures var u := Undo(h, s, undoIt);
      var r := Redo(u.history, u.state, doIt);
      var again := doIt(u.state, undoIt(s, h.undo[|h.undo| - 1]).cmd);
      && r.state == again.state
      && r.history.redo == h.redo
      && (again.failure.None? ==>
            && r.history.undo == h.undo[..|h.undo| - 1] + [again.cmd]
            && (again.cmd == h.undo[|h.undo| - 1] ==> r.history == h))
  {
    var u := Undo(h, s, undoIt);
    assert u.history.redo[..|u.history.redo| - 1] == h.redo;
  }

  /** `Redo` then `Undo` likewise restores both stacks when `Undo` gives the command back unchanged. */
  lemma RedoThenUndo<S, C>(h: History<C>, s: S, doIt: (S, C) -> Run<S, C>, undoIt: (S, C) -> Run<S, C>)
    requires CanRedo(h)
    requires Redo(h, s, doIt).failure.None?
    ensures var r := Redo(h, s, doIt);
      var u := Undo(r.history, r.state, undoIt);
      var back := undoIt(r.state, doIt(s, h.redo[|h.redo| - 1]).cmd);
      && u.state == back.state
      && u.history.undo == h.undo
      && (back.failure.None? && back.cmd == h.redo[|h.redo| - 1] ==> u.history == h)
  {
    var r := Redo(h, s, doIt);
    assert r.history.undo[..|r.history.undo| - 1] == h.undo;
  }

  /**
   * `undoIt` inverts `doIt` for command `c` at state `s`, as far as `view`
   * can see: whenever `Do` succeeds, `Undo` of the command it leaves
   * succeeds and returns to a state that looks like `s`.
   */
  ghost predicate Inverts<S, C, V>(doIt: (S, C) -> Run<S, C>, undoIt: (S, C) -> Run<S, C>, view: S -> V, s: S, c: C) {
    var d := doIt(s, c);
    d.failure.None? ==> undoIt(d.state, d.cmd).failure.None? && view(undoIt(d.state, d.cmd).state) == view(s)
  }

  /**
   * Executing an invertible command and undoing it returns to the prior
   * state (as seen through `view`), with the undo stack as before and the
   * command alone on the redo stack.
   */
  lemma ExecThenUndo<S, C, V>(h: History<C>, s: S, c: C, doIt: (S, C) -> Run<S, C>, undoIt: (S, C) -> Run<S, C>, view: S -> V)
    requires Inverts(doIt, undoIt, view, s, c)
    requires doIt(s, c).failure.None?
    ensures var e := Exec(h, s, c, doIt);
      var u := Undo(e.history, e.state, undoIt);
      && u.failure.None? && view(u.state) == view(s)
      && u.history.undo == h.undo && |u.history.redo| == 1 && CanRedo(u.history)
  {
    var e := Exec(h, s, c, doIt);
    assert e.history.undo[|e.history.undo| - 1] == doIt(s, c).cmd;
  }
}
