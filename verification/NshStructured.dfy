/** Ordinary structured semantics, and how far the parser implements it.

    `Std` is what apps/nshlib/README.txt describes: if-then-else-fi, loops, and
    a `break` that leaves the innermost loop.  As in nsh_script.c a failing
    plain command ends the script.
 */
module NshStructured {
  import opened Numbers
  import opened NshState
  import opened NshProgram

  datatype Flow =
    | Next(fail: bool, trace: Trace)
    | Leave(fail: bool, trace: Trace)
    | Failed(trace: Trace)
    | Endless(trace: Trace)

  function Std(run: Interpreter, p: Prog, inLoop: bool, fail: bool, trace: Trace, fuel: nat): Flow
    decreases fuel, p
  {
    match p
    case Nop => Next(fail, trace)
    case Cmd(w, next) =>
      var call := Call(Clip(w), fail);
      if run(trace, call) then Failed(trace + [call])
      else Std(run, next, inLoop, false, trace + [call], fuel)
    case Quit(next) =>
      if inLoop then Leave(false, trace) else Std(run, next, inLoop, false, trace, fuel)
    case Choose(c, thn, hasElse, els, next) =>
      var call := Call(Clip(c), fail);
      var t := trace + [call];
      var f := if !run(trace, call) then Std(run, thn, inLoop, false, t, fuel)
               else if hasElse then Std(run, els, inLoop, false, t, fuel)
               else Next(false, t);
      if f.Next? then Std(run, next, inLoop, f.fail, f.trace, fuel) else f
    case Repeat(until, c, body, next) =>
      var call := Call(Clip(c), fail);
      if run(trace, call) != until then
        Std(run, next, inLoop, false, trace + [call], fuel)
      else
        var f := Std(run, body, true, false, trace + [call], fuel);
        match f
        case Next(fail', trace') =>
          if fuel == 0 then Endless(trace') else Std(run, p, inLoop, fail', trace', fuel - 1)
        case Leave(fail', trace') => Std(run, next, inLoop, fail', trace', fuel)
        case Failed(_) => f
        case Endless(_) => f
  }

  // ----- Which programs the parser runs as written -----

  /** No loop stands in this block outside an `if`. */
  predicate NoDirectLoop(p: Prog) {
    match p
    case Nop => true
    case Cmd(_, next) => NoDirectLoop(next)
    case Quit(next) => NoDirectLoop(next)
    case Choose(_, _, _, _, next) => NoDirectLoop(next)
    case Repeat(_, _, _, _) => false
  }

  /** `direct` says that no `if` lies between the block and the loop around it.
      A loop may not be the direct child of a loop body, and a `break` in a loop
      must be.  What follows such a `break` is never run. */
  predicate InScope(p: Prog, inLoop: bool, direct: bool) {
    match p
    case Nop => true
    case Cmd(_, next) => InScope(next, inLoop, direct)
    case Quit(next) => if inLoop then direct && NoDirectLoop(next) else InScope(next, inLoop, direct)
    case Choose(_, thn, hasElse, els, next) =>
      && InScope(thn, inLoop, false) && (hasElse ==> InScope(els, inLoop, false))
      && InScope(next, inLoop, direct)
    case Repeat(_, _, body, next) =>
      !(inLoop && direct) && InScope(body, true, true) && InScope(next, inLoop, direct)
  }

  function IfDepth(p: Prog): nat {
    match p
    case Nop => 0
    case Cmd(_, next) => IfDepth(next)
    case Quit(next) => IfDepth(next)
    case Choose(_, thn, _, els, next) => Max(1 + Max(IfDepth(thn), IfDepth(els)), IfDepth(next))
    case Repeat(_, _, body, next) => Max(IfDepth(body), IfDepth(next))
  }

  function LoopDepth(p: Prog): nat {
    match p
    case Nop => 0
    case Cmd(_, next) => LoopDepth(next)
    case Quit(next) => LoopDepth(next)
    case Choose(_, thn, _, els, next) => Max(Max(LoopDepth(thn), LoopDepth(els)), LoopDepth(next))
    case Repeat(_, _, body, next) => Max(1 + LoopDepth(body), LoopDepth(next))
  }

  /** Both stacks have room for the program. */
  predicate Fits(p: Prog, np: Np) {
    && np.Valid()
    && np.iendx + IfDepth(p) < |np.ie|
    && np.lpndx + LoopDepth(p) < |np.lp|
  }

  /** Between two commands, with the top of the loop stack telling whether
      there is a loop around. */
  predicate Ready(np: Np) {
    && Boundary(np)
    && (np.lpndx > 0 <==> np.Loop().state == LoopDo)
  }

  /** Both stacks are as they were, up to the current levels. */
  predicate Same(a: Np, b: Np) {
    && a.Valid() && b.Valid()
    && LoopFrame(a, b) && a.Loop() == b.Loop()
    && a.iendx == b.iendx
    && forall i :: 0 <= i <= a.iendx ==> a.ie[i] == b.ie[i]
  }

  /** The top loop is disabled until its "done". */
  function Disabled(np: Np): (r: Np)
    requires np.Valid()
    ensures r.Valid()
  {
    np.(lp := np.lp[np.lpndx := np.Loop().(enable := false)])
  }

  lemma SameTrans(a: Np, b: Np, c: Np)
    requires Same(a, b) && Same(b, c)
    ensures Same(a, c)
  {
  }

  lemma SameReady(a: Np, b: Np)
    requires Ready(a) && Same(a, b) && Boundary(b)
    ensures Ready(b) && a.LoopEnabled() == b.LoopEnabled() && a.CmdEnabled() == b.CmdEnabled() && a.ItefEnabled() == b.ItefEnabled()
    ensures forall p :: Fits(p, a) ==> Fits(p, b)
  {
  }

  // ----- One level further in -----

  /** `b` is in a branch of an `if` met at `a`. */
  predicate InIf(a: Np, b: Np) {
    && a.Valid() && b.Valid()
    && LoopFrame(a, b) && a.Loop() == b.Loop()
    && b.iendx == a.iendx + 1
    && forall i :: 0 <= i <= a.iendx ==> a.ie[i] == b.ie[i]
  }

  /** `b` is in the body of a loop met at `a`. */
  predicate InLoop(a: Np, b: Np) {
    && a.Valid() && b.Valid()
    && |a.lp| == |b.lp| && b.lpndx == a.lpndx + 1
    && (forall i :: 0 <= i <= a.lpndx ==> a.lp[i] == b.lp[i])
    && b.Loop().state == LoopDo && b.Loop().iendx == a.iendx == b.iendx
    && forall i :: 0 <= i <= a.iendx ==> a.ie[i] == b.ie[i]
  }

  lemma EnterIf(run: Interpreter, np: Np, c: Words, trace: Trace)
    requires Ready(np) && np.iendx < |np.ie| - 1
    ensures var n2 := InThen(run, np, c, trace);
      && Ready(n2) && InIf(np, n2)
      && n2.Itef() == ItefLevel(ItefThen, !np.CmdEnabled(), Tested(run, np, np.CmdEnabled(), c, trace).failed)
      && n2.fail == Tested(run, np, np.CmdEnabled(), c, trace).fail
  {
  }

  lemma StayInIf(a: Np, b: Np, c: Np)
    requires InIf(a, b) && Same(b, c)
    ensures InIf(a, c) && b.Itef() == c.Itef()
  {
  }

  /** The state after "else". */
  function InElse(np: Np): (r: Np)
    requires Ready(np)
    ensures Ready(r)
  {
    Fetch(np).(ie := np.ie[np.iendx := np.Itef().(state := ItefElse)])
  }

  lemma TurnInIf(a: Np, b: Np)
    requires InIf(a, b) && Ready(b)
    ensures InIf(a, InElse(b)) && InElse(b).Itef() == b.Itef().(state := ItefElse)
  {
  }

  lemma LeaveIf(run: Interpreter, a: Np, b: Np, trace: Trace)
    requires InIf(a, b) && Boundary(b) && b.Itef().InBranch()
    ensures var r := Apply(run, b, ["fi"], trace);
      r.Ends? && r.trace == trace && r.np.fail == b.fail && Same(a, r.np) && Boundary(r.np)
  {
    ApplyFi(run, b, trace);
    hide Apply;
  }

  lemma EnterLoop(run: Interpreter, np: Np, until: bool, c: Words, trace: Trace)
    requires Ready(np) && np.lpndx < |np.lp| - 1
    ensures var n2 := InDo(run, np, until, c, trace);
      && Ready(n2) && InLoop(np, n2) && n2.Itef() == np.Itef()
      && n2.Loop().enable == (np.ItefEnabled() && Tested(run, np, np.ItefEnabled(), c, trace).failed == until)
      && n2.Loop().topoffs == np.fpos
      && n2.fail == Tested(run, np, np.ItefEnabled(), c, trace).fail
  {
  }

  lemma StayInLoop(a: Np, b: Np, c: Np)
    requires InLoop(a, b) && (Same(b, c) || Same(Disabled(b), c))
    ensures InLoop(a, c) && c.Loop().topoffs == b.Loop().topoffs
    ensures if Same(b, c) then c.Loop().enable == b.Loop().enable else !c.Loop().enable
  {
  }

  lemma LeaveLoop(run: Interpreter, a: Np, b: Np, trace: Trace)
    requires Boundary(a) && InLoop(a, b) && Boundary(b) && b.Loop().topoffs >= 0
    ensures var r := Apply(run, b, ["done"], trace);
      && r.Ends? && r.trace == trace && r.np.fail == b.fail && Same(a, r.np) && Boundary(r.np)
      && r.np.jump == b.Loop().enable
  {
    ApplyDone(run, b, trace);
    hide Apply;
  }

  // ----- Skipping -----

  /** The block was passed over: nothing ran and nothing changed. */
  predicate Skipped(np: Np, trace: Trace, r: Result) {
    && r.Ends? && r.trace == trace
    && Same(np, r.np) && r.np.fail == np.fail && Boundary(r.np)
  }

  /** A block met while commands are disabled runs nothing and jumps nowhere.
      While only the loop around it is disabled, that takes a block without a
      loop of its own on its top level. */
  lemma {:induction false} SkipBlock(run: Interpreter, p: Prog, np: Np, trace: Trace, fuel: nat)
    requires Ready(np) && WellFormed(p) && Fits(p, np)
    requires !np.CmdEnabled() && (np.ItefEnabled() ==> NoDirectLoop(p))
    ensures Skipped(np, trace, Big(run, p, np, trace, fuel))
    decreases p, 1
  {
    match p
    case Nop =>
    case Cmd(w, next) =>
      ApplyCmd(run, np, w, trace);
      hide Apply;
      SkipNext(run, next, np, Fetch(np), trace, fuel);
    case Quit(next) =>
      ApplyBreak(run, np, trace);
      hide Apply;
      SkipNext(run, next, np, Fetch(np), trace, fuel);
    case Choose(_, _, _, _, _) => SkipChoose(run, p, np, trace, fuel);
    case Repeat(_, _, _, _) => SkipRepeat(run, p, np, trace, fuel);
  }

  lemma {:induction false} SkipNext(run: Interpreter, next: Prog, np: Np, n1: Np, trace: Trace, fuel: nat)
    requires Ready(np) && WellFormed(next) && Fits(next, np)
    requires !np.CmdEnabled() && (np.ItefEnabled() ==> NoDirectLoop(next))
    requires Same(np, n1) && Boundary(n1) && n1.fail == np.fail
    ensures Skipped(np, trace, Big(run, next, n1, trace, fuel))
    decreases next, 2
  {
    hide Big;
    SameReady(np, n1);
    SkipBlock(run, next, n1, trace, fuel);
    SameTrans(np, n1, Big(run, next, n1, trace, fuel).np);
  }

  lemma {:induction false} SkipChoose(run: Interpreter, p: Prog, np: Np, trace: Trace, fuel: nat)
    requires Ready(np) && WellFormed(p) && Fits(p, np) && p.Choose?
    requires !np.CmdEnabled() && (np.ItefEnabled() ==> NoDirectLoop(p))
    ensures Skipped(np, trace, Big(run, p, np, trace, fuel))
    decreases p, 0
  {
    hide Big, BigElse, Apply, InThen, InIf, Same, LoopFrame;
    BigChoose(run, p, np, trace, fuel);
    EnterIf(run, np, p.cond, trace);
    var n2 := InThen(run, np, p.cond, trace);
    FitsBranch(p, np, n2);
    SkipBlock(run, p.thn, n2, trace, fuel);
    var n3 := Big(run, p.thn, n2, trace, fuel).np;
    SameReady(n2, n3);
    StayInIf(np, n2, n3);
    SkipElse(run, p.hasElse, p.els, np, n3, trace, fuel);
    var n4 := BigElse(run, p.hasElse, p.els, n3, trace, fuel).np;
    LeaveIf(run, np, n4, trace);
    SkipNext(run, p.next, np, Apply(run, n4, ["fi"], trace).np, trace, fuel);
  }

  lemma FitsBranch(p: Prog, np: Np, n2: Np)
    requires p.Choose? && Fits(p, np) && InIf(np, n2)
    ensures Fits(p.thn, n2) && Fits(p.els, n2) && Fits(p.next, np)
  {
  }

  lemma FitsBody(p: Prog, np: Np, n2: Np)
    requires p.Repeat? && Fits(p, np) && InLoop(np, n2)
    ensures Fits(p.body, n2) && Fits(p.next, np)
  {
  }

  lemma {:induction false} SkipElse(
    run: Interpreter, hasElse: bool, els: Prog, out: Np, np: Np, trace: Trace, fuel: nat)
    requires Ready(np) && WellFormed(els) && Fits(els, np) && InIf(out, np)
    requires np.Itef().state == ItefThen && (np.Itef().disabled || !np.Itef().ifcond || !hasElse)
    ensures var r := BigElse(run, hasElse, els, np, trace, fuel);
      && r.Ends? && r.trace == trace && r.np.fail == np.fail && Boundary(r.np)
      && InIf(out, r.np) && r.np.Itef().InBranch()
    decreases els, 2
  {
    ApplyElse(run, np, trace);
    hide Apply, Big, InIf, Same, LoopFrame;
    if hasElse {
      var n1 := InElse(np);
      TurnInIf(out, np);
      SkipBlock(run, els, n1, trace, fuel);
      StayInIf(out, n1, Big(run, els, n1, trace, fuel).np);
    }
  }

  lemma {:induction false} SkipRepeat(run: Interpreter, p: Prog, np: Np, trace: Trace, fuel: nat)
    requires Ready(np) && WellFormed(p) && Fits(p, np) && p.Repeat?
    requires !np.ItefEnabled()
    ensures Skipped(np, trace, Big(run, p, np, trace, fuel))
    decreases p, 0
  {
    hide Big, Apply, InDo, InLoop, Same, LoopFrame;
    BigRepeat(run, p, np, trace, fuel);
    EnterLoop(run, np, p.until, p.cond, trace);
    var n2 := InDo(run, np, p.until, p.cond, trace);
    FitsBody(p, np, n2);
    SkipBlock(run, p.body, n2, trace, fuel);
    var n3 := Big(run, p.body, n2, trace, fuel).np;
    StayInLoop(np, n2, n3);
    LeaveLoop(run, np, n3, trace);
    SkipNext(run, p.next, np, Apply(run, n3, ["done"], trace).np, trace, fuel);
  }

  // ----- Running -----

  /** The parser did what the structured semantics does, and left both stacks
      as they were; after `break` the loop is disabled until its "done". */
  predicate Agrees(np: Np, f: Flow, r: Result)
    requires np.Valid()
  {
    match f
    case Next(fail, trace) =>
      r.Ends? && r.trace == trace && r.np.fail == fail && Same(np, r.np) && Boundary(r.np)
    case Leave(fail, trace) =>
      r.Ends? && r.trace == trace && r.np.fail == fail && Same(Disabled(np), r.np) && Boundary(r.np)
    case Failed(trace) => r.Stops? && r.trace == trace
    case Endless(trace) => r.NoFuel? && r.trace == trace
  }

  /** `break` only leaves the loop from the top level of its body. */
  lemma {:induction false} NoLeave(run: Interpreter, p: Prog, inLoop: bool, direct: bool, fail: bool, trace: Trace, fuel: nat)
    requires InScope(p, inLoop, direct) && !(inLoop && direct)
    ensures !Std(run, p, inLoop, fail, trace, fuel).Leave?
    decreases fuel, p
  {
    match p
    case Nop =>
    case Cmd(w, next) =>
      NoLeave(run, next, inLoop, direct, false, trace + [Call(Clip(w), fail)], fuel);
    case Quit(next) =>
      NoLeave(run, next, inLoop, direct, false, trace, fuel);
    case Choose(c, thn, hasElse, els, next) =>
      var t := trace + [Call(Clip(c), fail)];
      NoLeave(run, thn, inLoop, false, false, t, fuel);
      if hasElse { NoLeave(run, els, inLoop, false, false, t, fuel); }
      var f := if !run(trace, Call(Clip(c), fail)) then Std(run, thn, inLoop, false, t, fuel)
               else if hasElse then Std(run, els, inLoop, false, t, fuel)
               else Next(false, t);
      if f.Next? { NoLeave(run, next, inLoop, direct, f.fail, f.trace, fuel); }
    case Repeat(_, c, body, next) =>
      var t := trace + [Call(Clip(c), fail)];
      NoLeave(run, next, inLoop, direct, false, t, fuel);
      var f := Std(run, body, true, false, t, fuel);
      if f.Next? && fuel > 0 { NoLeave(run, p, inLoop, direct, f.fail, f.trace, fuel - 1); }
      if f.Leave? { NoLeave(run, next, inLoop, direct, f.fail, f.trace, fuel); }
  }

  /** What must hold for the parser to run `p` from `np` as it is written. */
  predicate Runs(p: Prog, np: Np, direct: bool) {
    && Ready(np) && np.CmdEnabled() && WellFormed(p) && Fits(p, np)
    && InScope(p, np.lpndx > 0, direct)
    && (np.lpndx > 0 && direct ==> np.iendx == np.Loop().iendx)
  }

  /** The headline: a program in scope runs as the structured semantics says. */
  lemma {:induction false} Structured(run: Interpreter, p: Prog, np: Np, direct: bool, trace: Trace, fuel: nat)
    requires Runs(p, np, direct)
    ensures Agrees(np, Std(run, p, np.lpndx > 0, np.fail, trace, fuel), Big(run, p, np, trace, fuel))
    decreases fuel, p, 3
  {
    match p
    case Nop =>
    case Cmd(_, _) => StructuredCmd(run, p, np, direct, trace, fuel);
    case Quit(next) =>
      hide Apply, Same, LoopFrame;
      ApplyBreak(run, np, trace);
      if np.lpndx == 0 {
        FetchSame(np, false);
        StructuredNext(run, next, np, Fetch(np).(fail := false), direct, trace, fuel);
      } else {
        StructuredQuit(run, next, np, trace, fuel);
      }
    case Choose(_, _, _, _, _) => StructuredChoose(run, p, np, direct, trace, fuel);
    case Repeat(_, _, _, _) => StructuredRepeat(run, p, np, direct, trace, fuel);
  }

  lemma FetchSame(np: Np, fail: bool)
    requires Boundary(np)
    ensures var n1 := Fetch(np).(fail := fail); Same(np, n1) && Boundary(n1)
  {
  }

  lemma {:induction false} StructuredCmd(run: Interpreter, p: Prog, np: Np, direct: bool, trace: Trace, fuel: nat)
    requires Runs(p, np, direct) && p.Cmd?
    ensures Agrees(np, Std(run, p, np.lpndx > 0, np.fail, trace, fuel), Big(run, p, np, trace, fuel))
    decreases fuel, p, 2
  {
    hide Apply, Same, LoopFrame;
    ApplyCmd(run, np, p.words, trace);
    FetchSame(np, false);
    var call := Call(Clip(p.words), np.fail);
    if !run(trace, call) {
      StructuredNext(run, p.next, np, Fetch(np).(fail := false), direct, trace + [call], fuel);
    }
  }

  lemma {:induction false} StructuredNext(
    run: Interpreter, next: Prog, np: Np, n1: Np, direct: bool, trace: Trace, fuel: nat)
    requires Runs(next, np, direct) && Same(np, n1) && Boundary(n1)
    ensures Agrees(np, Std(run, next, np.lpndx > 0, n1.fail, trace, fuel), Big(run, next, n1, trace, fuel))
    decreases fuel, next, 4
  {
    hide Big, Std;
    SameReady(np, n1);
    Structured(run, next, n1, direct, trace, fuel);
    AgreesSame(np, n1, Std(run, next, np.lpndx > 0, n1.fail, trace, fuel), Big(run, next, n1, trace, fuel));
  }

  lemma AgreesSame(np: Np, n1: Np, f: Flow, r: Result)
    requires np.Valid() && Same(np, n1) && Agrees(n1, f, r)
    ensures Agrees(np, f, r)
  {
  }

  lemma StructuredQuit(run: Interpreter, next: Prog, np: Np, trace: Trace, fuel: nat)
    requires Ready(np) && np.CmdEnabled() && WellFormed(next) && Fits(next, np)
    requires np.lpndx > 0 && np.iendx == np.Loop().iendx && NoDirectLoop(next)
    ensures Agrees(np, Leave(false, trace), Big(run, next, Broken(np), trace, fuel))
  {
    var n1 := Broken(np);
    assert Same(Disabled(np), n1);
    SkipBlock(run, next, n1, trace, fuel);
    hide Big;
    SameTrans(Disabled(np), n1, Big(run, next, n1, trace, fuel).np);
  }

  lemma {:induction false} DirectInScope(p: Prog)
    requires InScope(p, true, true)
    ensures NoDirectLoop(p)
  {
    match p
    case Nop =>
    case Cmd(_, next) => DirectInScope(next);
    case Quit(_) =>
    case Choose(_, _, _, _, next) => DirectInScope(next);
  }

  // ----- if -----

  /** Both branches of the `if` met at `out` have gone by. */
  predicate Chosen(out: Np, f: Flow, r: Result) {
    match f
    case Next(fail, trace) =>
      && r.Ends? && r.trace == trace && r.np.fail == fail
      && InIf(out, r.np) && Boundary(r.np) && r.np.Itef().InBranch()
    case Leave(_, _) => false
    case Failed(trace) => r.Stops? && r.trace == trace
    case Endless(trace) => r.NoFuel? && r.trace == trace
  }

  /** The condition held: the first branch runs and the second is skipped. */
  lemma {:induction false} RunThen(run: Interpreter, p: Prog, out: Np, np: Np, trace: Trace, fuel: nat)
    requires p.Choose? && Runs(p.thn, np, false) && InIf(out, np) && Fits(p.els, np) && WellFormed(p.els)
    requires np.Itef() == ItefLevel(ItefThen, false, false)
    ensures Chosen(out, Std(run, p.thn, np.lpndx > 0, np.fail, trace, fuel),
      (var (n3, t3) :- Big(run, p.thn, np, trace, fuel); BigElse(run, p.hasElse, p.els, n3, t3, fuel)))
    decreases fuel, p.thn, 4
  {
    hide Big, BigElse, Std, InIf, Same, LoopFrame;
    Structured(run, p.thn, np, false, trace, fuel);
    NoLeave(run, p.thn, np.lpndx > 0, false, np.fail, trace, fuel);
    var r3 := Big(run, p.thn, np, trace, fuel);
    if r3.Ends? {
      SameReady(np, r3.np);
      StayInIf(out, np, r3.np);
      SkipElse(run, p.hasElse, p.els, out, r3.np, r3.trace, fuel);
    }
  }

  /** The condition failed: the first branch is skipped and the second runs. */
  lemma {:induction false} RunElse(run: Interpreter, p: Prog, out: Np, np: Np, trace: Trace, fuel: nat)
    requires p.Choose? && Ready(np) && WellFormed(p.thn) && Fits(p.thn, np) && InIf(out, np)
    requires WellFormed(p.els) && Fits(p.els, np) && (p.hasElse ==> InScope(p.els, np.lpndx > 0, false))
    requires np.Itef() == ItefLevel(ItefThen, false, true) && np.LoopEnabled()
    ensures Chosen(out,
      if p.hasElse then Std(run, p.els, np.lpndx > 0, np.fail, trace, fuel) else Next(np.fail, trace),
      (var (n3, t3) :- Big(run, p.thn, np, trace, fuel); BigElse(run, p.hasElse, p.els, n3, t3, fuel)))
    decreases fuel, p.els, 4
  {
    hide Big, Std, InIf, Same, LoopFrame, Apply;
    SkipBlock(run, p.thn, np, trace, fuel);
    var n3 := Big(run, p.thn, np, trace, fuel).np;
    SameReady(np, n3);
    SameDepth(np, n3);
    StayInIf(out, np, n3);
    if p.hasElse {
      ApplyElse(run, n3, trace);
      TurnInIf(out, n3);
      var n4 := InElse(n3);
      SameElse(n3);
      Structured(run, p.els, n4, false, trace, fuel);
      NoLeave(run, p.els, n4.lpndx > 0, false, n4.fail, trace, fuel);
      var r := Big(run, p.els, n4, trace, fuel);
      if r.Ends? { StayInIf(out, n4, r.np); }
    }
  }

  lemma SameDepth(a: Np, b: Np)
    requires Same(a, b)
    ensures a.lpndx == b.lpndx
  {
  }

  lemma SameElse(np: Np)
    requires Ready(np)
    ensures var r := InElse(np);
      r.lpndx == np.lpndx && r.fail == np.fail && r.LoopEnabled() == np.LoopEnabled()
    ensures forall p :: Fits(p, np) ==> Fits(p, InElse(np))
  {
  }

  lemma {:induction false} StructuredChoose(run: Interpreter, p: Prog, np: Np, direct: bool, trace: Trace, fuel: nat)
    requires Runs(p, np, direct) && p.Choose?
    ensures Agrees(np, Std(run, p, np.lpndx > 0, np.fail, trace, fuel), Big(run, p, np, trace, fuel))
    decreases fuel, p, 2
  {
    hide Big, BigElse, Apply, InThen, Same, LoopFrame, Chosen, InScope, Boundary;
    RunBranch(run, p, np, direct, trace, fuel);
    BigChoose(run, p, np, trace, fuel);
    var f := BranchFlow(run, p, np, trace, fuel);
    var r4 := BranchResult(run, p, np, trace, fuel);
    assert Std(run, p, np.lpndx > 0, np.fail, trace, fuel)
        == if f.Next? then Std(run, p.next, np.lpndx > 0, f.fail, f.trace, fuel) else f;
    hide Std;
    FinishIf(run, p, np, direct, f, r4, fuel);
  }

  function BranchFlow(run: Interpreter, p: Prog, np: Np, trace: Trace, fuel: nat): Flow
    requires p.Choose?
  {
    var call := Call(Clip(p.cond), np.fail);
    if !run(trace, call) then Std(run, p.thn, np.lpndx > 0, false, trace + [call], fuel)
    else if p.hasElse then Std(run, p.els, np.lpndx > 0, false, trace + [call], fuel)
    else Next(false, trace + [call])
  }

  function BranchResult(run: Interpreter, p: Prog, np: Np, trace: Trace, fuel: nat): (r: Result)
    requires p.Choose? && Boundary(np) && np.iendx < |np.ie| - 1
    ensures r.np.Valid()
  {
    var (n3, t3) :- Big(run, p.thn, InThen(run, np, p.cond, trace),
                        Tested(run, np, np.CmdEnabled(), p.cond, trace).trace, fuel);
    BigElse(run, p.hasElse, p.els, n3, t3, fuel)
  }

  lemma {:induction false} RunBranch(run: Interpreter, p: Prog, np: Np, direct: bool, trace: Trace, fuel: nat)
    requires Runs(p, np, direct) && p.Choose?
    ensures np.iendx < |np.ie| - 1
    ensures Chosen(np, BranchFlow(run, p, np, trace, fuel), BranchResult(run, p, np, trace, fuel))
    decreases fuel, p, 1
  {
    hide Big, BigElse, Apply, InThen, InIf, Same, LoopFrame, Std, Chosen;
    EnterIf(run, np, p.cond, trace);
    var n2 := InThen(run, np, p.cond, trace);
    InIfDepth(np, n2);
    FitsBranch(p, np, n2);
    var t := Tested(run, np, np.CmdEnabled(), p.cond, trace).trace;
    if n2.Itef().ifcond {
      RunElse(run, p, np, n2, t, fuel);
    } else {
      RunThen(run, p, np, n2, t, fuel);
    }
  }

  /** From the end of the branches on. */
  lemma {:induction false} FinishIf(run: Interpreter, p: Prog, np: Np, direct: bool, f: Flow, r4: Result, fuel: nat)
    requires p.Choose? && Runs(p, np, direct) && r4.np.Valid() && Chosen(np, f, r4)
    ensures Agrees(np, if f.Next? then Std(run, p.next, np.lpndx > 0, f.fail, f.trace, fuel) else f,
      (var (n4, t4) :- r4; var (n5, t5) :- Apply(run, n4, ["fi"], t4); Big(run, p.next, n5, t5, fuel)))
    decreases fuel, p, 1
  {
    hide Big, BigElse, Apply, InIf, Same, LoopFrame, Std;
    if r4.Ends? {
      LeaveIf(run, np, r4.np, r4.trace);
      StructuredNext(run, p.next, np, Apply(run, r4.np, ["fi"], r4.trace).np, direct, r4.trace, fuel);
    }
  }

  lemma InIfDepth(a: Np, b: Np)
    requires InIf(a, b)
    ensures a.lpndx == b.lpndx && a.Loop() == b.Loop()
  {
  }

  // ----- while and until -----

  lemma {:induction false} StructuredRepeat(run: Interpreter, p: Prog, np: Np, direct: bool, trace: Trace, fuel: nat)
    requires Runs(p, np, direct) && p.Repeat?
    ensures Agrees(np, Std(run, p, np.lpndx > 0, np.fail, trace, fuel), Big(run, p, np, trace, fuel))
    decreases fuel, p, 2
  {
    var t := trace + [Call(Clip(p.cond), np.fail)];
    DirectInScope(p.body);
    StdRepeat(run, p, np.lpndx > 0, np.fail, trace, fuel);
    hide Big, Apply, InDo, InLoop, Same, LoopFrame, Std, Again, AfterBody, Agrees, InScope;
    BigRepeat(run, p, np, trace, fuel);
    EnterLoop(run, np, p.until, p.cond, trace);
    var n2 := InDo(run, np, p.until, p.cond, trace);
    FitsBody(p, np, n2);
    if n2.Loop().enable {
      RunBody(run, p, np, n2, direct, t, fuel);
    } else {
      SkipBody(run, p, np, n2, direct, t, fuel);
    }
  }

  /** The condition did not let the body run. */
  lemma {:induction false} SkipBody(run: Interpreter, p: Prog, np: Np, n2: Np, direct: bool, trace: Trace, fuel: nat)
    requires p.Repeat? && Runs(p, np, direct) && NoDirectLoop(p.body)
    requires InLoop(np, n2) && Ready(n2) && !n2.Loop().enable && Fits(p.body, n2) && Fits(p.next, np)
    requires n2.Loop().topoffs == np.fpos
    ensures Agrees(np, Std(run, p.next, np.lpndx > 0, n2.fail, trace, fuel),
      (var (n3, t3) :- Big(run, p.body, n2, trace, fuel);
       var (n4, t4) :- Apply(run, n3, ["done"], t3);
       Again(run, p, n4, t4, fuel)))
    decreases fuel, p, 1
  {
    assert n2.Loop().state == LoopDo;
    hide Big, Apply, InLoop, Same, LoopFrame, Std, Disabled, Again;
    SkipBlock(run, p.body, n2, trace, fuel);
    var n3 := Big(run, p.body, n2, trace, fuel).np;
    StayInLoop(np, n2, n3);
    RunDone(run, p, np, direct, n3, trace, fuel);
  }

  /** What follows the body of a loop. */
  function AfterBody(run: Interpreter, p: Prog, inLoop: bool, f: Flow, fuel: nat): Flow
    requires p.Repeat?
  {
    match f
    case Next(fail', trace') =>
      if fuel == 0 then Endless(trace') else Std(run, p, inLoop, fail', trace', fuel - 1)
    case Leave(fail', trace') => Std(run, p.next, inLoop, fail', trace', fuel)
    case Failed(_) => f
    case Endless(_) => f
  }

  lemma StdRepeat(run: Interpreter, p: Prog, inLoop: bool, fail: bool, trace: Trace, fuel: nat)
    requires p.Repeat?
    ensures var call := Call(Clip(p.cond), fail);
      Std(run, p, inLoop, fail, trace, fuel) ==
        if run(trace, call) != p.until then Std(run, p.next, inLoop, false, trace + [call], fuel)
        else AfterBody(run, p, inLoop, Std(run, p.body, true, false, trace + [call], fuel), fuel)
  {
  }

  /** The condition let the body run: around again, or past the loop. */
  lemma {:induction false} RunBody(run: Interpreter, p: Prog, np: Np, n2: Np, direct: bool, trace: Trace, fuel: nat)
    requires p.Repeat? && Runs(p, np, direct)
    requires InLoop(np, n2) && Ready(n2) && n2.CmdEnabled() && Fits(p.body, n2) && Fits(p.next, np)
    requires n2.Loop().topoffs == np.fpos
    ensures Agrees(np,
      AfterBody(run, p, np.lpndx > 0, Std(run, p.body, true, n2.fail, trace, fuel), fuel),
      (var (n3, t3) :- Big(run, p.body, n2, trace, fuel);
       var (n4, t4) :- Apply(run, n3, ["done"], t3);
       Again(run, p, n4, t4, fuel)))
    decreases fuel, p, 1
  {
    hide Big, Apply, InLoop, Same, LoopFrame, Std, Disabled, Again;
    InLoopDepth(np, n2);
    Structured(run, p.body, n2, true, trace, fuel);
    var f := Std(run, p.body, true, n2.fail, trace, fuel);
    var r3 := Big(run, p.body, n2, trace, fuel);
    if f.Next? {
      StayInLoop(np, n2, r3.np);
      RunDone(run, p, np, direct, r3.np, r3.trace, fuel);
    } else if f.Leave? {
      StayInLoop(np, n2, r3.np);
      NotBoth(n2, r3.np);
      RunDone(run, p, np, direct, r3.np, r3.trace, fuel);
    }
  }

  /** From the end of the body on. */
  lemma {:induction false} RunDone(run: Interpreter, p: Prog, np: Np, direct: bool, n3: Np, trace: Trace, fuel: nat)
    requires p.Repeat? && Runs(p, np, direct) && Fits(p.next, np)
    requires InLoop(np, n3) && Boundary(n3) && n3.Loop().topoffs == np.fpos
    ensures Agrees(np,
      if !n3.Loop().enable then Std(run, p.next, np.lpndx > 0, n3.fail, trace, fuel)
      else if fuel == 0 then Endless(trace)
      else Std(run, p, np.lpndx > 0, n3.fail, trace, fuel - 1),
      (var (n4, t4) :- Apply(run, n3, ["done"], trace); Again(run, p, n4, t4, fuel)))
    decreases fuel, p, 0
  {
    hide Big, Apply, InLoop, Same, LoopFrame, Std;
    LeaveLoop(run, np, n3, trace);
    var n4 := Apply(run, n3, ["done"], trace).np;
    if !n4.jump {
      StructuredNext(run, p.next, np, n4, direct, trace, fuel);
    } else if fuel > 0 {
      StructuredNext(run, p, np, n4, direct, trace, fuel - 1);
    }
  }

  lemma InLoopDepth(a: Np, b: Np)
    requires InLoop(a, b)
    ensures b.lpndx == a.lpndx + 1 && b.Loop().iendx == b.iendx
  {
  }

  lemma NotBoth(a: Np, b: Np)
    requires a.Valid() && a.Loop().enable && Same(Disabled(a), b)
    ensures !Same(a, b)
  {
  }
}
