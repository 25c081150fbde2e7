/** `break` below an `if`: what it does to the parser, and exactly which blocks
    and loops it keeps from running as they are written. */
module NshBreak {
  import opened NshState
  import opened NshProgram
  import opened NshStructured
  import opened NshLimits

  /** The loops inside a block, if it has any, are in scope.  `direct` says that
      no `if` lies between the block and the loop around it. */
  predicate Orderly(p: Prog, direct: bool) {
    match p
    case Nop => true
    case Cmd(_, next) => Orderly(next, direct)
    case Quit(next) => Orderly(next, direct)
    case Choose(_, thn, hasElse, els, next) =>
      Orderly(thn, false) && (hasElse ==> Orderly(els, false)) && Orderly(next, direct)
    case Repeat(_, _, body, next) => !direct && InScope(body, true, true) && Orderly(next, direct)
  }

  lemma {:induction false} OrderlyDirect(p: Prog)
    requires Orderly(p, true)
    ensures NoDirectLoop(p)
  {
    match p
    case Nop =>
    case Cmd(_, next) => OrderlyDirect(next);
    case Quit(next) => OrderlyDirect(next);
    case Choose(_, _, _, _, next) => OrderlyDirect(next);
  }

  // ----- After the break -----

  /** `b` is between two commands of the loop body that `np` is in, with the loop
      disabled, whatever has become of the `if` levels. */
  predicate Off(np: Np, b: Np)
    requires np.Valid()
  {
    Ready(b) && |b.lp| == |np.lp| && b.lpndx == np.lpndx && b.Loop() == np.Loop().(enable := false)
  }

  /** The script stopped, or ran another command, or is at `if` level `top` or below. */
  predicate Drift(np: Np, top: int, trace: Trace, r: Result)
    requires np.Valid()
  {
    Disturbed(trace, r) || (r.Ends? && r.trace == trace && Off(np, r.np) && r.np.iendx <= top)
  }

  lemma BreakOff(np: Np)
    requires Ready(np) && np.lpndx > 0
    ensures Off(np, Broken(np)) && Broken(np).iendx == np.Loop().iendx && Broken(np).ie == np.ie
    ensures forall p :: Fits(p, np) && np.Loop().iendx <= np.iendx ==> Fits(p, Broken(np))
  {
  }

  /** The rest of a block is passed over. */
  lemma RestOff(run: Interpreter, p: Prog, np: Np, b: Np, trace: Trace, fuel: nat)
    requires np.Valid() && np.lpndx > 0 && np.Loop().state == LoopDo && Off(np, b)
    requires WellFormed(p) && NoDirectLoop(p) && Fits(p, b)
    ensures var r := Big(run, p, b, trace, fuel);
      r.Ends? && r.trace == trace && Off(np, r.np) && r.np.iendx == b.iendx && Same(b, r.np)
  {
    SkipBlock(run, p, b, trace, fuel);
    hide Big;
    SameReady(b, Big(run, p, b, trace, fuel).np);
  }

  /** Or it is not, if it has loops of its own. */
  lemma RestDrift(run: Interpreter, p: Prog, np: Np, b: Np, trace: Trace, fuel: nat)
    requires np.Valid() && np.lpndx > 0 && np.Loop().state == LoopDo && Off(np, b) && WellFormed(p)
    ensures Drift(np, b.iendx, trace, Big(run, p, b, trace, fuel))
  {
    hide Big, Same, LoopFrame, Fits;
    if Passes(p, b) {
      SkipBlock(run, p, b, trace, fuel);
      SameOff(np, b, Big(run, p, b, trace, fuel).np);
    } else {
      NotSkipped(run, p, b, trace, fuel);
    }
  }

  lemma SameOff(np: Np, b: Np, c: Np)
    requires np.Valid() && Off(np, b) && Same(b, c) && Boundary(c)
    ensures Off(np, c) && c.iendx == b.iendx
  {
    SameReady(b, c);
  }

  /** A `break` below an `if` takes the parser back to the `if` level L of the
      loop, so that the "else" or "fi" of its branch acts on that level: on the
      `if` around the loop, if there is one, and on nothing, which stops the
      script, if there is none.  The structured semantics leaves the loop. */
  lemma BreakBelowIf(run: Interpreter, next: Prog, np: Np, trace: Trace, fuel: nat)
    requires Ready(np) && np.CmdEnabled() && np.lpndx > 0 && np.Loop().iendx < np.iendx
    requires WellFormed(next) && NoDirectLoop(next) && Fits(next, np)
    ensures Std(run, Quit(next), true, np.fail, trace, fuel) == Leave(false, trace)
    ensures var r, L := Big(run, Quit(next), np, trace, fuel), np.Loop().iendx;
      && r.Ends? && r.trace == trace && Off(np, r.np) && r.np.iendx == L
      && (forall i :: 0 <= i <= L ==> r.np.ie[i] == np.ie[i])
    ensures var r, L := Big(run, Quit(next), np, trace, fuel), np.Loop().iendx;
      var o := Apply(run, r.np, ["fi"], trace);
      && o.trace == trace
      && if np.ie[L].InBranch() && L >= 1 then o.Ends? && Off(np, o.np) && o.np.iendx == L - 1 else o.Stops?
    ensures var r, L := Big(run, Quit(next), np, trace, fuel), np.Loop().iendx;
      var o := Apply(run, r.np, ["else"], trace);
      && o.trace == trace
      && if np.ie[L].state == ItefThen
         then o.Ends? && Off(np, o.np) && o.np.iendx == L && o.np.Itef() == np.ie[L].(state := ItefElse)
         else o.Stops?
  {
    hide Apply, Off;
    ApplyBreak(run, np, trace);
    BreakOff(np);
    RestOff(run, next, np, Broken(np), trace, fuel);
    var r := Big(run, next, Broken(np), trace, fuel);
    assert Big(run, Quit(next), np, trace, fuel) == r;
    hide Big, Broken;
    Closing(run, np, r.np, trace);
  }

  lemma Closing(run: Interpreter, np: Np, b: Np, trace: Trace)
    requires np.Valid() && Off(np, b)
    ensures var o := Apply(run, b, ["fi"], trace);
      && o.trace == trace
      && if b.Itef().InBranch() && b.iendx >= 1 then o.Ends? && Off(np, o.np) && o.np.iendx == b.iendx - 1 else o.Stops?
    ensures var o := Apply(run, b, ["else"], trace);
      && o.trace == trace
      && if b.Itef().state == ItefThen
         then o.Ends? && Off(np, o.np) && o.np.iendx == b.iendx && o.np.Itef() == b.Itef().(state := ItefElse)
         else o.Stops?
  {
    hide Apply;
    ApplyFi(run, b, trace);
    ApplyElse(run, b, trace);
  }

  /** The rest of an `if` and what follows it, after a `break` in its last branch. */
  lemma CloseBranch(run: Interpreter, next: Prog, np: Np, b: Np, trace: Trace, fuel: nat)
    requires np.Valid() && np.lpndx > 0 && np.Loop().state == LoopDo && Off(np, b) && WellFormed(next)
    ensures Drift(np, b.iendx - 1, trace,
      (var (n5, t5) :- Apply(run, b, ["fi"], trace); Big(run, next, n5, t5, fuel)))
  {
    Closing(run, np, b, trace);
    hide Apply, Big, Off;
    var r := Apply(run, b, ["fi"], trace);
    if r.Ends? {
      RestDrift(run, next, np, r.np, trace, fuel);
    }
  }

  /** The same after a `break` in the first branch. */
  lemma CloseIf(run: Interpreter, p: Prog, np: Np, b: Np, trace: Trace, fuel: nat)
    requires np.Valid() && np.lpndx > 0 && np.Loop().state == LoopDo && Off(np, b) && p.Choose? && WellFormed(p)
    ensures Drift(np, b.iendx - 1, trace,
      (var (n4, t4) :- BigElse(run, p.hasElse, p.els, b, trace, fuel);
       var (n5, t5) :- Apply(run, n4, ["fi"], t4);
       Big(run, p.next, n5, t5, fuel)))
  {
    Closing(run, np, b, trace);
    hide Apply, Big, Off;
    if p.hasElse {
      var r := Apply(run, b, ["else"], trace);
      if r.Ends? {
        RestDrift(run, p.els, np, r.np, trace, fuel);
        var r4 := Big(run, p.els, r.np, trace, fuel);
        if !Disturbed(trace, r4) {
          CloseBranch(run, p.next, np, r4.np, trace, fuel);
        }
      }
    } else {
      CloseBranch(run, p.next, np, b, trace, fuel);
    }
  }

  // ----- A run that reaches such a break -----

  /** The number of commands that a block runs if its plain commands and the
      conditions of its `if`s succeed and its loops are not entered. */
  function Calls(p: Prog): nat {
    match p
    case Nop => 0
    case Cmd(_, next) => 1 + Calls(next)
    case Quit(next) => 0
    case Choose(_, thn, _, _, next) => 1 + Calls(thn) + Calls(next)
    case Repeat(_, _, _, next) => 1 + Calls(next)
  }

  /** Which of them must fail for that, counted from the start of the trace: the
      tests of the `while` loops. */
  function Pass(p: Prog, k: nat): (r: set<nat>)
    ensures forall x :: x in r ==> k <= x < k + Calls(p)
  {
    match p
    case Nop => {}
    case Cmd(_, next) => Pass(next, k + 1)
    case Quit(_) => {}
    case Choose(_, thn, _, _, next) => Pass(thn, k + 1) + Pass(next, k + 1 + Calls(thn))
    case Repeat(until, _, _, next) => (if until then {} else {k}) + Pass(next, k + 1)
  }

  /** Which commands must fail to get from the k-th command to the first `break`
      that is out of place. */
  function Route(p: Prog, k: nat, direct: bool): (r: set<nat>)
    ensures forall x :: x in r ==> x >= k
  {
    match p
    case Nop => {}
    case Cmd(_, next) => Route(next, k + 1, direct)
    case Quit(_) => {}
    case Choose(_, thn, hasElse, els, next) =>
      if !InScope(thn, true, false) then Route(thn, k + 1, false)
      else if hasElse && !InScope(els, true, false) then {k} + Route(els, k + 1, false)
      else Pass(thn, k + 1) + Route(next, k + 1 + Calls(thn), direct)
    case Repeat(until, _, _, next) => (if until then {} else {k}) + Route(next, k + 1, direct)
  }

  /** From the k-th command on, the commands in `fails` fail and the others succeed. */
  ghost predicate Obeys(run: Interpreter, fails: set<nat>, k: nat) {
    forall t: Trace, c: Call :: |t| >= k ==> run(t, c) == (|t| in fails)
  }

  /** In the next n commands `fails` is what it takes to pass a block. */
  ghost predicate Agree(fails: set<nat>, pass: set<nat>, k: nat, n: nat) {
    forall x :: k <= x < k + n ==> (x in fails <==> x in pass)
  }

  lemma {:induction false} AllPassed(run: Interpreter, p: Prog, fails: set<nat>, fail: bool, trace: Trace, fuel: nat)
    requires InScope(p, true, false) && Obeys(run, fails, |trace|)
    requires Agree(fails, Pass(p, |trace|), |trace|, Calls(p))
    ensures var f := Std(run, p, true, fail, trace, fuel);
      f.Next? && |f.trace| == |trace| + Calls(p)
    decreases p
  {
    match p
    case Nop =>
    case Cmd(w, next) =>
      AllPassed(run, next, fails, false, trace + [Call(Clip(w), fail)], fuel);
    case Choose(c, thn, _, _, next) =>
      AllPassed(run, thn, fails, false, trace + [Call(Clip(c), fail)], fuel);
      var f := Std(run, thn, true, false, trace + [Call(Clip(c), fail)], fuel);
      AllPassed(run, next, fails, f.fail, f.trace, fuel);
    case Repeat(until, c, _, next) =>
      StdRepeat(run, p, true, fail, trace, fuel);
      var t := trace + [Call(Clip(c), fail)];
      assert run(trace, Call(Clip(c), fail)) == (|trace| in fails);
      AllPassed(run, next, fails, false, t, fuel);
  }

  /** Is the parser at the `if` level of the loop around? */
  predicate Direct(np: Np)
    requires np.Valid()
  {
    np.iendx == np.Loop().iendx
  }

  /** A block whose loops are in order, met in the body of a loop. */
  predicate InBody(p: Prog, np: Np) {
    && Ready(np) && np.CmdEnabled() && np.lpndx > 0 && np.Loop().iendx <= np.iendx
    && Orderly(p, Direct(np)) && WellFormed(p) && Fits(p, np)
  }

  /** The run leads from here to a `break` out of place. */
  ghost predicate Leads(run: Interpreter, p: Prog, np: Np, trace: Trace) {
    InBody(p, np) && !InScope(p, true, Direct(np)) && Obeys(run, Route(p, |trace|, Direct(np)), |trace|)
  }

  /** The structured semantics leaves the loop; the parser goes on below the
      level where it should be, or stops. */
  predicate Parted(np: Np, f: Flow, r: Result)
    requires np.Valid()
  {
    f.Leave? && Drift(np, if Direct(np) then np.iendx - 1 else np.Loop().iendx, f.trace, r)
  }

  lemma {:induction false} Astray(run: Interpreter, p: Prog, np: Np, trace: Trace, fuel: nat)
    requires Leads(run, p, np, trace)
    ensures Parted(np, Std(run, p, true, np.fail, trace, fuel), Big(run, p, np, trace, fuel))
    decreases p, 2
  {
    match p
    case Cmd(_, _) =>
      AstrayCmd(run, p, np, trace, fuel);
    case Quit(next) =>
      AstrayQuit(run, next, np, trace, fuel);
    case Repeat(_, _, _, _) =>
      AstrayRepeat(run, p, np, trace, fuel);
    case Choose(_, thn, hasElse, els, _) =>
      if !InScope(thn, true, false) {
        AstrayThen(run, p, np, trace, fuel);
      } else if hasElse && !InScope(els, true, false) {
        AstrayElse(run, p, np, trace, fuel);
      } else {
        AstrayAfter(run, p, np, trace, fuel);
      }
  }

  lemma AstrayQuit(run: Interpreter, next: Prog, np: Np, trace: Trace, fuel: nat)
    requires Leads(run, Quit(next), np, trace)
    ensures Parted(np, Std(run, Quit(next), true, np.fail, trace, fuel), Big(run, Quit(next), np, trace, fuel))
  {
    assert !Direct(np) by { if Direct(np) { OrderlyDirect(next); } }
    hide Apply, Off;
    ApplyBreak(run, np, trace);
    BreakOff(np);
    RestDrift(run, next, np, Broken(np), trace, fuel);
    assert Big(run, Quit(next), np, trace, fuel) == Big(run, next, Broken(np), trace, fuel);
  }

  /** A loop on the way is not entered. */
  lemma {:induction false} AstrayRepeat(run: Interpreter, p: Prog, np: Np, trace: Trace, fuel: nat)
    requires Leads(run, p, np, trace) && p.Repeat?
    ensures Parted(np, Std(run, p, true, np.fail, trace, fuel), Big(run, p, np, trace, fuel))
    decreases p, 1
  {
    RepeatLeads(run, p, np, trace);
    DirectInScope(p.body);
    StdRepeat(run, p, true, np.fail, trace, fuel);
    hide Big, Std, Apply, InDo, InLoop, Same, LoopFrame, Fits, Off, Obeys, Route, InScope;
    var t := trace + [Call(Clip(p.cond), np.fail)];
    BigRepeat(run, p, np, trace, fuel);
    EnterLoop(run, np, p.until, p.cond, trace);
    var n2 := InDo(run, np, p.until, p.cond, trace);
    FitsBody(p, np, n2);
    SkipBlock(run, p.body, n2, t, fuel);
    var n3 := Big(run, p.body, n2, t, fuel).np;
    StayInLoop(np, n2, n3);
    LeaveLoop(run, np, n3, t);
    AstrayNext(run, p.next, np, Apply(run, n3, ["done"], t).np, t, fuel);
  }

  lemma RepeatLeads(run: Interpreter, p: Prog, np: Np, trace: Trace)
    requires Leads(run, p, np, trace) && p.Repeat?
    ensures var call := Call(Clip(p.cond), np.fail);
      && run(trace, call) != p.until && np.lpndx < |np.lp| - 1 && InScope(p.body, true, true)
      && Leads(run, p.next, np, trace + [call])
  {
    var call := Call(Clip(p.cond), np.fail);
    assert run(trace, call) == (|trace| in Route(p, |trace|, Direct(np)));
    assert |trace + [call]| == |trace| + 1;
  }

  lemma {:induction false} AstrayCmd(run: Interpreter, p: Prog, np: Np, trace: Trace, fuel: nat)
    requires Leads(run, p, np, trace) && p.Cmd?
    ensures Parted(np, Std(run, p, true, np.fail, trace, fuel), Big(run, p, np, trace, fuel))
    decreases p, 1
  {
    hide Apply, Same, LoopFrame, Off;
    ApplyCmd(run, np, p.words, trace);
    FetchSame(np, false);
    var call := Call(Clip(p.words), np.fail);
    assert !run(trace, call) && |trace + [call]| == |trace| + 1;
    AstrayNext(run, p.next, np, Fetch(np).(fail := false), trace + [call], fuel);
  }

  lemma {:induction false} AstrayNext(run: Interpreter, next: Prog, np: Np, n1: Np, trace: Trace, fuel: nat)
    requires Leads(run, next, np, trace) && Same(np, n1) && Boundary(n1)
    ensures Parted(np, Std(run, next, true, n1.fail, trace, fuel), Big(run, next, n1, trace, fuel))
    decreases next, 3
  {
    hide Big, Std, Obeys, Route, InScope;
    SameReady(np, n1);
    Astray(run, next, n1, trace, fuel);
  }

  lemma StdChoose(run: Interpreter, p: Prog, np: Np, trace: Trace, fuel: nat)
    requires p.Choose?
    ensures var f := BranchFlow(run, p, np, trace, fuel);
      Std(run, p, np.lpndx > 0, np.fail, trace, fuel)
      == if f.Next? then Std(run, p.next, np.lpndx > 0, f.fail, f.trace, fuel) else f
  {
  }

  lemma OffInIf(np: Np, n2: Np, b: Np)
    requires InIf(np, n2) && Off(n2, b)
    ensures Off(np, b)
  {
  }

  lemma FitsParts(p: Prog, np: Np)
    requires p.Choose? && Fits(p, np)
    ensures np.iendx < |np.ie| - 1 && Fits(p.els, np) && Fits(p.next, np)
  {
  }

  /** The first branch of an `if`, and its start. */
  lemma ThenLeads(run: Interpreter, p: Prog, np: Np, trace: Trace)
    requires Leads(run, p, np, trace) && p.Choose? && !InScope(p.thn, true, false)
    ensures var call := Call(Clip(p.cond), np.fail); var n2 := InThen(run, np, p.cond, trace);
      && !run(trace, call) && n2.fail == false && InIf(np, n2) && n2.lpndx == np.lpndx && n2.Loop() == np.Loop()
      && Leads(run, p.thn, n2, trace + [call]) && !Direct(n2)
  {
    EnterIf(run, np, p.cond, trace);
    FitsBranch(p, np, InThen(run, np, p.cond, trace));
    hide InThen;
  }

  lemma {:induction false} AstrayThen(run: Interpreter, p: Prog, np: Np, trace: Trace, fuel: nat)
    requires Leads(run, p, np, trace) && p.Choose? && !InScope(p.thn, true, false)
    ensures Parted(np, Std(run, p, true, np.fail, trace, fuel), Big(run, p, np, trace, fuel))
    decreases p, 1
  {
    hide Big, BigElse, Apply, InThen, Std, Off, InIf, Fits, Obeys, Route, InScope;
    FitsParts(p, np);
    ThenLeads(run, p, np, trace);
    BigChoose(run, p, np, trace, fuel);
    StdChoose(run, p, np, trace, fuel);
    var t := trace + [Call(Clip(p.cond), np.fail)];
    var n2 := InThen(run, np, p.cond, trace);
    Astray(run, p.thn, n2, t, fuel);
    var f, r3 := Std(run, p.thn, true, false, t, fuel), Big(run, p.thn, n2, t, fuel);
    if !Disturbed(f.trace, r3) {
      OffInIf(np, n2, r3.np);
      CloseIf(run, p, np, r3.np, r3.trace, fuel);
    }
  }

  /** The second branch of an `if`, and its start. */
  lemma ElseLeads(run: Interpreter, p: Prog, np: Np, trace: Trace, fuel: nat) returns (n4: Np)
    requires Leads(run, p, np, trace) && p.Choose? && InScope(p.thn, true, false)
    requires p.hasElse && !InScope(p.els, true, false)
    ensures var call := Call(Clip(p.cond), np.fail);
      && run(trace, call) && n4.fail == false && InIf(np, n4) && n4.lpndx == np.lpndx && n4.Loop() == np.Loop()
      && Leads(run, p.els, n4, trace + [call]) && !Direct(n4)
    ensures var t := trace + [Call(Clip(p.cond), np.fail)];
      && np.iendx < |np.ie| - 1
      && BranchResult(run, p, np, trace, fuel) == Big(run, p.els, n4, t, fuel)
  {
    hide InThen, Big, Apply, Route, InScope, Obeys, Orderly, Same, InIf, InElse;
    ElseObeys(run, p, np, trace);
    FitsParts(p, np);
    var t := trace + [Call(Clip(p.cond), np.fail)];
    EnterIf(run, np, p.cond, trace);
    var n2 := InThen(run, np, p.cond, trace);
    FitsBranch(p, np, n2);
    SkipBlock(run, p.thn, n2, t, fuel);
    var n3 := Big(run, p.thn, n2, t, fuel).np;
    SameReady(n2, n3);
    StayInIf(np, n2, n3);
    ApplyElse(run, n3, t);
    ElseEnabled(np, n3);
    n4 := InElse(n3);
  }

  lemma ElseEnabled(np: Np, n3: Np)
    requires Ready(np) && np.CmdEnabled() && InIf(np, n3) && Ready(n3) && n3.Itef() == ItefLevel(ItefThen, false, true)
    ensures var n4 := InElse(n3);
      && InIf(np, n4) && n4.CmdEnabled() && n4.fail == n3.fail && n4.lpndx == np.lpndx && n4.Loop() == np.Loop()
      && n4.iendx == np.iendx + 1 && Ready(n4)
      && n4 == Fetch(n3).(ie := n3.ie[n3.iendx := n3.Itef().(state := ItefElse)])
    ensures forall p :: Fits(p, n3) ==> Fits(p, InElse(n3))
  {
  }

  lemma ElseObeys(run: Interpreter, p: Prog, np: Np, trace: Trace)
    requires Leads(run, p, np, trace) && p.Choose? && InScope(p.thn, true, false)
    requires p.hasElse && !InScope(p.els, true, false)
    ensures Orderly(p.els, false) && WellFormed(p.els) && Obeys(run, Route(p.els, |trace| + 1, false), |trace| + 1)
    ensures run(trace, Call(Clip(p.cond), np.fail))
  {
  }

  lemma {:induction false} AstrayElse(run: Interpreter, p: Prog, np: Np, trace: Trace, fuel: nat)
    requires Leads(run, p, np, trace) && p.Choose? && InScope(p.thn, true, false)
    requires p.hasElse && !InScope(p.els, true, false)
    ensures Parted(np, Std(run, p, true, np.fail, trace, fuel), Big(run, p, np, trace, fuel))
    decreases p, 1
  {
    hide Big, BigElse, Apply, InThen, Std, Off, InIf, Fits, Obeys, Route, InScope;
    FitsParts(p, np);
    var n4 := ElseLeads(run, p, np, trace, fuel);
    BigChoose(run, p, np, trace, fuel);
    StdChoose(run, p, np, trace, fuel);
    var t := trace + [Call(Clip(p.cond), np.fail)];
    Astray(run, p.els, n4, t, fuel);
    var f, r4 := Std(run, p.els, true, false, t, fuel), Big(run, p.els, n4, t, fuel);
    if !Disturbed(f.trace, r4) {
      OffInIf(np, n4, r4.np);
      CloseBranch(run, p.next, np, r4.np, r4.trace, fuel);
    }
  }

  /** The `if` without what follows it. */
  function Alone(p: Prog): Prog
    requires p.Choose?
  {
    Choose(p.cond, p.thn, p.hasElse, p.els, Nop)
  }

  lemma WithoutNext(p: Prog, np: Np)
    requires InBody(p, np) && p.Choose? && InScope(p.thn, true, false)
    requires p.hasElse ==> InScope(p.els, true, false)
    ensures Runs(Alone(p), np, Direct(np))
  {
    var q := Alone(p);
    assert InScope(Nop, true, Direct(np)) && IfDepth(Nop) == 0 && LoopDepth(Nop) == 0;
    assert InScope(q, true, Direct(np));
  }

  /** Past an `if` whose branches are in order. */
  lemma AfterLeads(run: Interpreter, p: Prog, np: Np, trace: Trace, fuel: nat)
    requires Leads(run, p, np, trace) && p.Choose? && InScope(p.thn, true, false)
    requires p.hasElse ==> InScope(p.els, true, false)
    ensures np.iendx < |np.ie| - 1
    ensures var f := BranchFlow(run, p, np, trace, fuel);
      f.Next? && Leads(run, p.next, np, f.trace) && Chosen(np, f, BranchResult(run, p, np, trace, fuel))
  {
    hide Big, BigElse, Apply, InThen, Chosen;
    var t := trace + [Call(Clip(p.cond), np.fail)];
    assert |t| == |trace| + 1;
    AllPassed(run, p.thn, Route(p, |trace|, Direct(np)), false, t, fuel);
    FitsParts(p, np);
    var q := Alone(p);
    WithoutNext(p, np);
    RunBranch(run, q, np, Direct(np), trace, fuel);
    hide Std;
    assert BranchFlow(run, q, np, trace, fuel) == BranchFlow(run, p, np, trace, fuel);
    assert BranchResult(run, q, np, trace, fuel) == BranchResult(run, p, np, trace, fuel);
  }

  lemma {:induction false} AstrayAfter(run: Interpreter, p: Prog, np: Np, trace: Trace, fuel: nat)
    requires Leads(run, p, np, trace) && p.Choose? && InScope(p.thn, true, false)
    requires p.hasElse ==> InScope(p.els, true, false)
    ensures Parted(np, Std(run, p, true, np.fail, trace, fuel), Big(run, p, np, trace, fuel))
    decreases p, 1
  {
    hide Big, BigElse, Apply, InThen, Std, Off, InIf, Fits, Obeys, Route, InScope, Drift;
    AfterLeads(run, p, np, trace, fuel);
    StdChoose(run, p, np, trace, fuel);
    var r4 := BranchResult(run, p, np, trace, fuel);
    BigChoose(run, p, np, trace, fuel);
    LeaveIf(run, np, r4.np, r4.trace);
    AstrayNext(run, p.next, np, Apply(run, r4.np, ["fi"], r4.trace).np, r4.trace, fuel);
  }

  // ----- Exactly when -----

  ghost predicate AlwaysAgrees(p: Prog, np: Np)
    requires np.Valid()
  {
    forall run: Interpreter, trace: Trace, fuel: nat ::
      Agrees(np, Std(run, p, np.lpndx > 0, np.fail, trace, fuel), Big(run, p, np, trace, fuel))
  }

  lemma PartedDisagrees(np: Np, f: Flow, r: Result)
    requires np.Valid() && Direct(np) && Parted(np, f, r)
    ensures !Agrees(np, f, r)
  {
  }

  /** A block on the top level of a loop body, whose own loops are in order, does
      on every run what the structured semantics says exactly if no `break` that
      can be reached stands below an `if`. */
  lemma BreakExactly(p: Prog, np: Np)
    requires InBody(p, np) && Direct(np)
    ensures AlwaysAgrees(p, np) <==> InScope(p, true, true)
  {
    hide Big, Std, InScope, Off, Fits, Orderly, WellFormed;
    if InScope(p, true, true) {
      forall run: Interpreter, trace: Trace, fuel: nat
        ensures Agrees(np, Std(run, p, np.lpndx > 0, np.fail, trace, fuel), Big(run, p, np, trace, fuel))
      {
        Structured(run, p, np, true, trace, fuel);
      }
    } else {
      var fails := Route(p, 0, true);
      var run: Interpreter := (t: Trace, c: Call) => |t| in fails;
      Astray(run, p, np, [], 0);
      PartedDisagrees(np, Std(run, p, true, np.fail, [], 0), Big(run, p, np, [], 0));
      assert !Agrees(np, Std(run, p, np.lpndx > 0, np.fail, [], 0), Big(run, p, np, [], 0));
    }
  }

  /** A loop with such a body, wherever it is met, runs as written exactly if its
      body is in scope; otherwise it stops the script or ends below its level. */
  lemma LoopExactly(p: Prog, np: Np)
    requires p.Repeat? && p.next == Nop && Orderly(p.body, true) && WellFormed(p)
    requires Ready(np) && np.CmdEnabled() && Fits(p, np)
    ensures AlwaysAgrees(p, np) <==> InScope(p.body, true, true)
  {
    hide Big, Std, InScope, Off, Fits, Orderly, WellFormed;
    if InScope(p.body, true, true) {
      LoopRuns(p, np);
      forall run: Interpreter, trace: Trace, fuel: nat
        ensures Agrees(np, Std(run, p, np.lpndx > 0, np.fail, trace, fuel), Big(run, p, np, trace, fuel))
      {
        Structured(run, p, np, false, trace, fuel);
      }
    } else {
      var fails := Route(p.body, 1, true) + if p.until then {0} else {};
      var run: Interpreter := (t: Trace, c: Call) => |t| in fails;
      LoopAstray(run, p, np, 0);
      assert !Agrees(np, Std(run, p, np.lpndx > 0, np.fail, [], 0), Big(run, p, np, [], 0));
    }
  }

  lemma LoopRuns(p: Prog, np: Np)
    requires p.Repeat? && p.next == Nop && InScope(p.body, true, true) && WellFormed(p)
    requires Ready(np) && np.CmdEnabled() && Fits(p, np)
    ensures Runs(p, np, false)
  {
    assert InScope(Nop, np.lpndx > 0, false);
  }

  /** The body of the loop, and its start. */
  lemma BodyLeads(run: Interpreter, p: Prog, np: Np)
    requires p.Repeat? && Orderly(p.body, true) && WellFormed(p) && !InScope(p.body, true, true)
    requires Ready(np) && np.CmdEnabled() && Fits(p, np)
    requires Obeys(run, Route(p.body, 1, true) + if p.until then {0} else {}, 0)
    ensures var call := Call(Clip(p.cond), np.fail); var n2 := InDo(run, np, p.until, p.cond, []);
      && np.lpndx < |np.lp| - 1 && run([], call) == p.until && n2.fail == false && InLoop(np, n2)
      && Leads(run, p.body, n2, [call]) && Direct(n2) && n2.Loop().topoffs == np.fpos
      && Tested(run, np, np.ItefEnabled(), p.cond, []).trace == [call]
  {
    var call := Call(Clip(p.cond), np.fail);
    var fails := Route(p.body, 1, true) + if p.until then {0} else {};
    assert run([], call) == (0 in fails);
    EnterLoop(run, np, p.until, p.cond, []);
    var n2 := InDo(run, np, p.until, p.cond, []);
    FitsBody(p, np, n2);
    hide InDo;
    assert [] + [call] == [call];
  }

  lemma LoopAstray(run: Interpreter, p: Prog, np: Np, fuel: nat)
    requires p.Repeat? && p.next == Nop && Orderly(p.body, true) && WellFormed(p) && !InScope(p.body, true, true)
    requires Ready(np) && np.CmdEnabled() && Fits(p, np)
    requires Obeys(run, Route(p.body, 1, true) + if p.until then {0} else {}, 0)
    ensures !Agrees(np, Std(run, p, np.lpndx > 0, np.fail, [], fuel), Big(run, p, np, [], fuel))
  {
    StdRepeat(run, p, np.lpndx > 0, np.fail, [], fuel);
    hide Big, Std, InScope, Fits, Orderly, WellFormed, Route, Obeys, InDo, Apply, Same, LoopFrame, Again;
    BodyLeads(run, p, np);
    BigRepeat(run, p, np, [], fuel);
    var t := [Call(Clip(p.cond), np.fail)];
    assert [] + t == t;
    var n2 := InDo(run, np, p.until, p.cond, []);
    Astray(run, p.body, n2, t, fuel);
    var f := Std(run, p.body, true, false, t, fuel);
    var r3 := Big(run, p.body, n2, t, fuel);
    StdNop(run, np.lpndx > 0, f.fail, f.trace, fuel);
    if !Disturbed(f.trace, r3) {
      DoneLow(run, np, n2, r3.np, r3.trace, fuel);
      LowDisagrees(run, p, np, Apply(run, r3.np, ["done"], r3.trace).np, f, fuel);
    }
  }

  lemma LowDisagrees(run: Interpreter, p: Prog, np: Np, n4: Np, f: Flow, fuel: nat)
    requires np.Valid() && n4.Valid() && p.Repeat? && p.next == Nop && !n4.jump && n4.iendx < np.iendx && f.Leave?
    ensures !Agrees(np, Next(f.fail, f.trace), Again(run, p, n4, f.trace, fuel))
  {
    assert Big(run, Nop, n4, f.trace, fuel) == Ends(n4, f.trace);
    hide Big;
  }

  lemma StdNop(run: Interpreter, inLoop: bool, fail: bool, trace: Trace, fuel: nat)
    ensures Std(run, Nop, inLoop, fail, trace, fuel) == Next(fail, trace)
  {
  }

  /** "done" of a loop whose `if` level was lost. */
  lemma DoneLow(run: Interpreter, np: Np, n2: Np, b: Np, trace: Trace, fuel: nat)
    requires InLoop(np, n2) && Off(n2, b) && b.iendx < np.iendx
    ensures var r := Apply(run, b, ["done"], trace);
      && r.Ends? && !r.np.jump && r.np.iendx < np.iendx
      && Big(run, Nop, r.np, r.trace, fuel) == r
  {
    ApplyDone(run, b, trace);
    hide Apply;
  }
}
