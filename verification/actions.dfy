/** The `Controller` of action/action.go: sequences `Setup`, `Forward` and
    the push onto the history for `Do`, and walks the history for `Undo`
    and `Redo`.

    The Go `Action` interface is realised by the closed set of commands of
    cmd/cmd.go. The controller does not own the document the commands edit;
    each call takes the document and returns it, edited or not, with the
    error the Go call would return (`None` for nil). The mutex is left out:
    every call is one atomic step.
 */
module Actions {
  import opened Wrappers
  import History
  import Commands
  import Tree

  type Cmd = Commands.Cmd

  datatype Controller = Controller(stack: History.Ring<Cmd>)

  /** What a controller call leaves behind: the controller, the document and the returned error. */
  datatype Outcome = Outcome(ctl: Controller, doc: Tree.Doc, err: Option<Fault>)

  predicate Valid(c: Controller)
  {
    History.Valid(c.stack)
  }

  function Undos(c: Controller): seq<Option<Cmd>>
    requires Valid(c)
  {
    History.Undos(c.stack)
  }

  function Redos(c: Controller): seq<Option<Cmd>>
    requires Valid(c)
  {
    History.Redos(c.stack)
  }

  /** `CreateController(historySize)`; `make` panics on a negative size. */
  function CreateController(historySize: int): (c: Controller)
    requires historySize >= 0
    ensures Valid(c) && |c.stack.buffer| == historySize
    ensures Undos(c) == [] && Redos(c) == []
  {
    Controller(History.Create(historySize))
  }

  /** `Controller.Do`: a nil action is refused with `NoAction`; a `Setup` or
      `Forward` error is returned and nothing is recorded; only a command
      whose `Forward` succeeded is pushed. With a history of size 0 the push
      indexes an empty buffer and panics after the edit has been made. */
  function Do(c: Controller, d: Tree.Doc, a: Option<Cmd>): (r: Outcome)
    requires Valid(c)
    ensures Valid(r.ctl)
    ensures r.err.Some? ==> r.ctl == c
    ensures r.err.Some? && r.doc != d ==> |c.stack.buffer| == 0 && r.err == Some(Panic("index out of range"))
    ensures a.None? ==> r == Outcome(c, d, Some(NoAction))
    ensures r.err.None? <==>
              && a.Some? && |c.stack.buffer| > 0
              && Commands.Setup(a.value, d).Ok?
              && Commands.Forward(Commands.Setup(a.value, d).value, d).Ok?
    ensures r.err.None? ==>
              var c1 := Commands.Setup(a.value, d).value;
              && r.doc == Commands.Forward(c1, d).value
              && Redos(r.ctl) == []
              && |Undos(r.ctl)| > 0 && Undos(r.ctl)[|Undos(r.ctl)| - 1] == Some(c1)
    ensures r.err.None? ==>
              Undos(r.ctl) == (if History.Full(c.stack) then Undos(c)[1..] else Undos(c))
                              + [Some(Commands.Setup(a.value, d).value)]
    ensures a.Some? && Commands.Setup(a.value, d).Fail? ==>
              r == Outcome(c, d, Some(Commands.Setup(a.value, d).fault))
    ensures a.Some? && Commands.Setup(a.value, d).Ok? ==>
              var c1 := Commands.Setup(a.value, d).value;
              && (Commands.Forward(c1, d).Fail? ==> r == Outcome(c, d, Some(Commands.Forward(c1, d).fault)))
              && (Commands.Forward(c1, d).Ok? && |c.stack.buffer| == 0 ==>
                    r == Outcome(c, Commands.Forward(c1, d).value, Some(Panic("index out of range"))))
  {
    match a
    case None => Outcome(c, d, Some(NoAction))
    case Some(cmd) =>
      match Commands.Setup(cmd, d)
      case Fail(f) => Outcome(c, d, Some(f))
      case Ok(c1) =>
        match Commands.Forward(c1, d)
        case Fail(f) => Outcome(c, d, Some(f))
        case Ok(d1) =>
          if |c.stack.buffer| == 0 then Outcome(c, d1, Some(Panic("index out of range")))
          else
            History.DoRefines(c.stack, c1);
            Outcome(Controller(History.Do(c.stack, c1)), d1, None)
  }

  /** `Controller.Undo`: `NoAction` when the history has nothing to undo;
      otherwise the cursor moves back first and `Backward` runs afterwards,
      so a failing `Backward` still leaves the cursor moved. */
  function Undo(c: Controller, d: Tree.Doc): (r: Outcome)
    requires Valid(c)
    ensures Valid(r.ctl)
    ensures Undos(c) == [] <==> r.err == Some(NoAction)
    ensures Undos(c) == [] ==> r == Outcome(c, d, Some(NoAction))
    ensures Undos(c) != [] ==>
              var a := Undos(c)[|Undos(c)| - 1];
              && a.Some?
              && Undos(r.ctl) == Undos(c)[..|Undos(c)| - 1]
              && Redos(r.ctl) == [a] + Redos(c)
              && match Commands.Backward(a.value, d)
                 case Ok(d1) => r.doc == d1 && r.err == None
                 case Fail(f) => r.doc == d && r.err == Some(f)
  {
    History.UndoRefines(c.stack);
    var (s, a) := History.Undo(c.stack);
    match a
    case None => Outcome(Controller(s), d, Some(NoAction))
    case Some(cmd) =>
      match Commands.Backward(cmd, d)
      case Ok(d1) => Outcome(Controller(s), d1, None)
      case Fail(f) => Outcome(Controller(s), d, Some(f))
  }

  /** `Controller.Redo`: `NoAction` when there is nothing to redo; otherwise
      the cursor moves forward first and `Forward` runs afterwards. */
  function Redo(c: Controller, d: Tree.Doc): (r: Outcome)
    requires Valid(c)
    ensures Valid(r.ctl)
    ensures Redos(c) == [] <==> r.err == Some(NoAction)
    ensures Redos(c) == [] ==> r == Outcome(c, d, Some(NoAction))
    ensures Redos(c) != [] ==>
              var a := Redos(c)[0];
              && a.Some?
              && Undos(r.ctl) == Undos(c) + [a]
              && Redos(r.ctl) == Redos(c)[1..]
              && match Commands.Forward(a.value, d)
                 case Ok(d1) => r.doc == d1 && r.err == None
                 case Fail(f) => r.doc == d && r.err == Some(f)
  {
    History.RedoRefines(c.stack);
    var (s, a) := History.Redo(c.stack);
    match a
    case None => Outcome(Controller(s), d, Some(NoAction))
    case Some(cmd) =>
      match Commands.Forward(cmd, d)
      case Ok(d1) => Outcome(Controller(s), d1, None)
      case Fail(f) => Outcome(Controller(s), d, Some(f))
  }

  // ---------------------------------------------------------------------
  // Properties of the controller

  /** A new controller has nothing to undo or redo. */
  lemma FreshControllerHasNothing(historySize: int, d: Tree.Doc)
    requires historySize >= 0
    ensures Undo(CreateController(historySize), d).err == Some(NoAction)
    ensures Redo(CreateController(historySize), d).err == Some(NoAction)
  {
  }

  /** Do, then Undo, then Redo: in a well-formed tree the Undo gives back the
      document as it was before the Do, and the Redo gives back the document
      and the controller as they were right after the Do. */
  lemma {:induction false} DoUndoRedo(c: Controller, d: Tree.Doc, cmd: Cmd)
    requires Valid(c) && Tree.WellFormed(d) && Commands.AsConstructed(cmd)
    requires Do(c, d, Some(cmd)).err == None
    ensures var r1 := Do(c, d, Some(cmd));
            var r2 := Undo(r1.ctl, r1.doc);
            var r3 := Redo(r2.ctl, r2.doc);
            && r2.err == None && r2.doc == d
            && r3.err == None && r3.doc == r1.doc && r3.ctl == r1.ctl
  {
    var r1 := Do(c, d, Some(cmd));
    var c1 := Commands.Setup(cmd, d).value;
    Commands.ForwardBackwardRestores(cmd, d);
    UndoRedoLast(r1.ctl, c1, d, r1.doc);
  }

  /** Undo then Redo on a controller whose newest undo entry is `c1`, with
      `c1` taking `d` to `d1` and back. */
  lemma UndoRedoLast(k: Controller, c1: Cmd, d: Tree.Doc, d1: Tree.Doc)
    requires Valid(k) && Undos(k) != [] && Undos(k)[|Undos(k)| - 1] == Some(c1)
    requires Commands.Forward(c1, d) == Ok(d1) && Commands.Backward(c1, d1) == Ok(d)
    ensures var r2 := Undo(k, d1);
            var r3 := Redo(r2.ctl, r2.doc);
            && r2.err == None && r2.doc == d
            && r3.err == None && r3.doc == d1 && r3.ctl == k
  {
    History.UndoThenRedoRestores(k.stack);
  }

  /** A successful Do discards whatever had been undone: Redo then reports `NoAction`. */
  lemma DoLeavesNothingToRedo(c: Controller, d: Tree.Doc, cmd: Cmd)
    requires Valid(c)
    requires Do(c, d, Some(cmd)).err == None
    ensures var r := Do(c, d, Some(cmd));
            Redo(r.ctl, r.doc).err == Some(NoAction)
  {
  }
}
