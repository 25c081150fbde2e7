/** Where the parser parts from the structured semantics, and exactly when. */
module NshLimits {
  import opened NshState
  import opened NshProgram
  import opened NshStructured

  // ----- Skipping -----

  /** The block stopped the script or ran a command. */
  predicate Disturbed(trace: Trace, r: Result) {
    r.Stops? || |r.trace| > |trace|
  }

  /** The blocks that are passed over when met disabled at `np`. */
  predicate Passes(p: Prog, np: Np)
    requires np.Valid()
  {
    Fits(p, np) && (np.ItefEnabled() ==> NoDirectLoop(p))
  }

  /** Every other block stops the script for want of stack levels, or runs a
      command although commands are disabled. */
  lemma {:induction false} NotSkipped(run: Interpreter, p: Prog, np: Np, trace: Trace, fuel: nat)
    requires Ready(np) && WellFormed(p) && !np.CmdEnabled() && !Passes(p, np)
    ensures Disturbed(trace, Big(run, p, np, trace, fuel))
    decreases p, 2
  {
    match p
    case Nop =>
    case Cmd(w, next) =>
      hide Apply, Same, LoopFrame, Fits;
      ApplyCmd(run, np, w, trace);
      NextNotSkipped(run, next, np, Fetch(np), trace, fuel);
    case Quit(next) =>
      hide Apply, Same, LoopFrame, Fits;
      ApplyBreak(run, np, trace);
      NextNotSkipped(run, next, np, Fetch(np), trace, fuel);
    case Choose(_, _, _, _, _) => ChooseNotSkipped(run, p, np, trace, fuel);
    case Repeat(_, _, _, _) => RepeatNotSkipped(run, p, np, trace, fuel);
  }

  lemma {:induction false} NextNotSkipped(run: Interpreter, next: Prog, np: Np, n1: Np, trace: Trace, fuel: nat)
    requires Ready(np) && WellFormed(next) && !np.CmdEnabled() && !Passes(next, np)
    requires Same(np, n1) && Boundary(n1)
    ensures Disturbed(trace, Big(run, next, n1, trace, fuel))
    decreases next, 3
  {
    hide Big;
    SameReady(np, n1);
    NotSkipped(run, next, n1, trace, fuel);
  }

  lemma FitsChoose(p: Prog, np: Np, n2: Np)
    requires p.Choose? && InIf(np, n2)
    ensures Fits(p, np) <==> Fits(p.thn, n2) && Fits(p.els, n2) && Fits(p.next, np)
  {
  }

  lemma FitsRepeat(p: Prog, np: Np, n2: Np)
    requires p.Repeat? && InLoop(np, n2)
    ensures Fits(p, np) <==> Fits(p.body, n2) && Fits(p.next, np)
  {
  }

  lemma {:induction false} ChooseNotSkipped(run: Interpreter, p: Prog, np: Np, trace: Trace, fuel: nat)
    requires p.Choose? && Ready(np) && WellFormed(p) && !np.CmdEnabled() && !Passes(p, np)
    ensures Disturbed(trace, Big(run, p, np, trace, fuel))
    decreases p, 1
  {
    hide Big, BigElse, Apply, InThen, InIf, Same, LoopFrame, Fits;
    BigChoose(run, p, np, trace, fuel);
    if np.iendx < |np.ie| - 1 {
      EnterIf(run, np, p.cond, trace);
      var n2 := InThen(run, np, p.cond, trace);
      FitsChoose(p, np, n2);
      if !Fits(p.thn, n2) {
        NotSkipped(run, p.thn, n2, trace, fuel);
      } else {
        SkipBlock(run, p.thn, n2, trace, fuel);
        var n3 := Big(run, p.thn, n2, trace, fuel).np;
        SameReady(n2, n3);
        StayInIf(np, n2, n3);
        ElseNotSkipped(run, p, np, n2, n3, trace, fuel);
      }
    }
  }

  lemma {:induction false} ElseNotSkipped(run: Interpreter, p: Prog, np: Np, n2: Np, n3: Np, trace: Trace, fuel: nat)
    requires p.Choose? && Ready(np) && WellFormed(p) && !np.CmdEnabled()
    requires Same(n2, n3) && Ready(n3) && InIf(np, n3) && n3.Itef().state == ItefThen && n3.Itef().disabled
    requires !(Fits(p.els, n2) && Passes(p.next, np))
    ensures Disturbed(trace,
      (var (n4, t4) :- BigElse(run, p.hasElse, p.els, n3, trace, fuel);
       var (n5, t5) :- Apply(run, n4, ["fi"], t4);
       Big(run, p.next, n5, t5, fuel)))
    decreases p, 0
  {
    FitsSame(p.els, n2, n3);
    hide Big, Apply, InIf, Same, LoopFrame, Fits;
    if !Fits(p.els, n2) {
      ApplyElse(run, n3, trace);
      SameElse(n3);
      SameFits(p.els, n3);
      NotSkipped(run, p.els, InElse(n3), trace, fuel);
    } else {
      SkipElse(run, p.hasElse, p.els, np, n3, trace, fuel);
      var n4 := BigElse(run, p.hasElse, p.els, n3, trace, fuel).np;
      LeaveIf(run, np, n4, trace);
      NextNotSkipped(run, p.next, np, Apply(run, n4, ["fi"], trace).np, trace, fuel);
    }
  }

  lemma FitsSame(p: Prog, a: Np, b: Np)
    requires Same(a, b)
    ensures Fits(p, a) <==> Fits(p, b)
    ensures p == Nop ==> Fits(p, a)
  {
  }

  lemma SameFits(p: Prog, np: Np)
    requires Ready(np)
    ensures Fits(p, InElse(np)) <==> Fits(p, np)
  {
  }

  lemma {:induction false} RepeatNotSkipped(run: Interpreter, p: Prog, np: Np, trace: Trace, fuel: nat)
    requires p.Repeat? && Ready(np) && WellFormed(p) && !np.CmdEnabled() && !Passes(p, np)
    ensures Disturbed(trace, Big(run, p, np, trace, fuel))
    decreases p, 1
  {
    hide Big, Apply, InDo, InLoop, Same, LoopFrame, Fits;
    BigRepeat(run, p, np, trace, fuel);
    if np.lpndx < |np.lp| - 1 && !np.ItefEnabled() {
      EnterLoop(run, np, p.until, p.cond, trace);
      var n2 := InDo(run, np, p.until, p.cond, trace);
      FitsRepeat(p, np, n2);
      if !Fits(p.body, n2) {
        NotSkipped(run, p.body, n2, trace, fuel);
      } else {
        SkipBlock(run, p.body, n2, trace, fuel);
        var n3 := Big(run, p.body, n2, trace, fuel).np;
        StayInLoop(np, n2, n3);
        LeaveLoop(run, np, n3, trace);
        NextNotSkipped(run, p.next, np, Apply(run, n3, ["done"], trace).np, trace, fuel);
      }
    }
  }

  /** A block met while commands are disabled is passed over without effect
      exactly when it fits the stacks and, if only the loop is disabled, has no
      loop on its top level. */
  lemma SkipExactly(run: Interpreter, p: Prog, np: Np, trace: Trace, fuel: nat)
    requires Ready(np) && WellFormed(p) && !np.CmdEnabled()
    ensures Skipped(np, trace, Big(run, p, np, trace, fuel)) <==> Passes(p, np)
  {
    hide Big, Same, LoopFrame, Fits;
    if Passes(p, np) {
      SkipBlock(run, p, np, trace, fuel);
    } else {
      NotSkipped(run, p, np, trace, fuel);
    }
  }

  // ----- A loop that its test ends -----

  /** When the test of a loop says stop, the test is all that runs before the
      commands after the loop, exactly if no loop is a direct child of the body.
      Otherwise the test of the inner loop is run too, and its body may be. */
  lemma LoopExitExactly(run: Interpreter, p: Prog, np: Np, trace: Trace, fuel: nat)
    requires p.Repeat? && Ready(np) && np.CmdEnabled() && WellFormed(p) && Fits(p, np)
    requires run(trace, Call(Clip(p.cond), np.fail)) != p.until
    ensures var n2 := InDo(run, np, p.until, p.cond, trace);
      var t := trace + [Call(Clip(p.cond), np.fail)];
      Skipped(n2, t, Big(run, p.body, n2, t, fuel)) <==> NoDirectLoop(p.body)
  {
    EnterLoop(run, np, p.until, p.cond, trace);
    var n2 := InDo(run, np, p.until, p.cond, trace);
    FitsRepeat(p, np, n2);
    hide Big, Apply, InDo, InLoop, Same, LoopFrame, Fits;
    SkipExactly(run, p.body, n2, trace + [Call(Clip(p.cond), np.fail)], fuel);
  }

  /** So a loop that ends a block runs as written, on such a test, exactly if no
      loop is a direct child of its body. */
  lemma {:induction false} LastLoopExactly(run: Interpreter, p: Prog, np: Np, trace: Trace, fuel: nat)
    requires p.Repeat? && p.next == Nop && Ready(np) && np.CmdEnabled() && WellFormed(p) && Fits(p, np)
    requires run(trace, Call(Clip(p.cond), np.fail)) != p.until
    ensures Agrees(np, Std(run, p, np.lpndx > 0, np.fail, trace, fuel), Big(run, p, np, trace, fuel))
        <==> NoDirectLoop(p.body)
  {
    assert np.lpndx < |np.lp| - 1;
    hide Apply, InDo, InLoop, Same, LoopFrame, Fits;
    var t := trace + [Call(Clip(p.cond), np.fail)];
    assert Std(run, p, np.lpndx > 0, np.fail, trace, fuel) == Next(false, t);
    hide Std;
    BigRepeat(run, p, np, trace, fuel);
    EnterLoop(run, np, p.until, p.cond, trace);
    var n2 := InDo(run, np, p.until, p.cond, trace);
    FitsRepeat(p, np, n2);
    if NoDirectLoop(p.body) {
      SkipBlock(run, p.body, n2, t, fuel);
      var n3 := Big(run, p.body, n2, t, fuel).np;
      StayInLoop(np, n2, n3);
      LeaveLoop(run, np, n3, t);
    } else {
      NotSkipped(run, p.body, n2, t, fuel);
    }
  }

  // ----- A script -----

  const IDLE := Np(false, true, 0, 0, 0, false,
                   0, seq(3, i => LoopLevel(LoopNormal, true, 0, 0)),
                   0, seq(3, i => ItefLevel(ItefNormal, false, false)))

  /** A loop whose test says stop, with nothing in its body and nothing behind. */
  lemma EmptyLoop(run: Interpreter, until: bool, c: Words, np: Np, trace: Trace, fuel: nat)
    requires Ready(np) && np.ItefEnabled() && Simple(c) && np.lpndx < |np.lp| - 1
    requires run(trace, Call(Clip(c), np.fail)) != until
    ensures var r := Big(run, Repeat(until, c, Nop, Nop), np, trace, fuel);
      && r.Ends? && r.trace == trace + [Call(Clip(c), np.fail)]
      && Boundary(r.np) && Same(np, r.np) && r.np.fail == false
  {
    hide Apply, InDo, InLoop, Same;
    var p := Repeat(until, c, Nop, Nop);
    BigRepeat(run, p, np, trace, fuel);
    EnterLoop(run, np, until, c, trace);
    LeaveLoop(run, np, InDo(run, np, until, c, trace), trace + [Call(Clip(c), np.fail)]);
  }

  /** `while a; do while b; do done; done`, run with tests that fail: the parser
      runs both tests, where the structured semantics runs only the outer one. */
  lemma NestedLoopExample()
    ensures var p := Repeat(false, ["a"], Repeat(false, ["b"], Nop, Nop), Nop);
      var run := (t: Trace, c: Call) => true;
      && Std(run, p, false, false, [], 0) == Next(false, [Call(["a"], false)])
      && Big(run, p, IDLE, [], 0).Ends?
      && Big(run, p, IDLE, [], 0).trace == [Call(["a"], false), Call(["b"], false)]
  {
    var p := Repeat(false, ["a"], Repeat(false, ["b"], Nop, Nop), Nop);
    var run := (t: Trace, c: Call) => true;
    assert KindOf("a") == Plain && KindOf("b") == Plain && Clip(["a"]) == ["a"] && Clip(["b"]) == ["b"];
    var a, b := Call(["a"], false), Call(["b"], false);
    assert [] + [a] == [a] && [a] + [b] == [a, b];
    hide KindOf, Big, Apply, InDo, InLoop, Same;
    BigRepeat(run, p, IDLE, [], 0);
    EnterLoop(run, IDLE, false, ["a"], []);
    var n2 := InDo(run, IDLE, false, ["a"], []);
    InLoopDepth(IDLE, n2);
    OneMore(IDLE, n2);
    EmptyLoop(run, false, ["b"], n2, [a], 0);
    var n3 := Big(run, p.body, n2, [a], 0).np;
    StayInLoop(IDLE, n2, n3);
    LeaveLoop(run, IDLE, n3, [a, b]);
    BigNop(run, Apply(run, n3, ["done"], [a, b]).np, [a, b]);
  }

  lemma OneMore(a: Np, b: Np)
    requires InLoop(a, b) && a.ItefEnabled() && a.iendx == 0
    ensures |b.lp| == |a.lp| && b.ItefEnabled()
  {
  }

  lemma BigNop(run: Interpreter, np: Np, trace: Trace)
    requires np.Valid()
    ensures Big(run, Nop, np, trace, 0) == Ends(np, trace)
  {
  }
}
