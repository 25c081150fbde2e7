/** The simulation between the text machine and the jump machine. */
module NshRefine {
  import opened NshState
  import opened NshProgram
  import opened NshLayout

  // ----- States that differ only in what positions mean -----

  /** `j` is the index and `offs` the recorded offset of the same loop header. */
  predicate Target(spots: seq<Spot>, j: int, offs: int) {
    0 <= j < |spots| && spots[j].offs == offs && Header(spots[j].words)
  }

  predicate Alike(a: LoopLevel, b: LoopLevel) {
    a.(topoffs := b.topoffs) == b
  }

  /** Loop stacks that name the same headers up to level `top`. */
  predicate RelLoops(spots: seq<Spot>, a: seq<LoopLevel>, b: seq<LoopLevel>, top: nat) {
    && |a| == |b| && top < |a|
    && (forall i :: 0 <= i < |a| ==> Alike(a[i], b[i]))
    && (forall i :: 1 <= i <= top ==> Target(spots, a[i].topoffs, b[i].topoffs))
  }

  lemma RelSet(spots: seq<Spot>, a: seq<LoopLevel>, b: seq<LoopLevel>, top: nat, i: nat, x: LoopLevel, y: LoopLevel)
    requires RelLoops(spots, a, b, top) && i < |a| && Alike(x, y)
    requires i == 0 || Target(spots, x.topoffs, y.topoffs) || (x.topoffs == a[i].topoffs && y.topoffs == b[i].topoffs)
    ensures RelLoops(spots, a[i := x], b[i := y], top)
  {
  }

  lemma RelTop(spots: seq<Spot>, a: seq<LoopLevel>, b: seq<LoopLevel>, top: nat)
    requires RelLoops(spots, a, b, top)
    ensures Alike(a[top], b[top]) && Alike(a[0], b[0])
    ensures top > 0 ==> Target(spots, a[top].topoffs, b[top].topoffs)
    ensures forall t: nat :: t <= top ==> RelLoops(spots, a, b, t)
    ensures top + 1 < |a| && Target(spots, a[top + 1].topoffs, b[top + 1].topoffs) ==> RelLoops(spots, a, b, top + 1)
  {
  }

  /** `nb` counts commands where `nc` counts bytes. */
  predicate Rel(spots: seq<Spot>, nb: Np, nc: Np) {
    && nb.Valid() && nc.Valid()
    && nb.fail == nc.fail && nb.scripted == nc.scripted
    && nb.iendx == nc.iendx && nb.ie == nc.ie
    && nb.lpndx == nc.lpndx && RelLoops(spots, nb.lp, nc.lp, nb.lpndx)
  }

  /** Both machines went on to the next command, or both jumped to the same. */
  predicate Moved(spots: seq<Spot>, nb: Np, nc: Np, nb1: Np, nc1: Np) {
    && nc1.foffs == nc.foffs && nb1.jump == nc1.jump
    && if nb1.jump then Target(spots, nb1.fpos, nc1.fpos) else nb1.fpos == nb.fpos && nc1.fpos == nc.fpos
  }

  predicate SameKeyword(spots: seq<Spot>, nb: Np, nc: Np, kb: Keyword, kc: Keyword) {
    && kb.Go? == kc.Go? && (kb.Go? ==> kb.rest == kc.rest)
    && Rel(spots, kb.np, kc.np) && Moved(spots, nb, nc, kb.np, kc.np)
  }

  lemma RelLoopStep(spots: seq<Spot>, nb: Np, nc: Np, words: Words)
    requires Rel(spots, nb, nc) && !nb.jump && !nc.jump && nb.foffs >= 0 && nc.foffs >= 0
    requires Header(words) ==> Target(spots, nb.foffs + nb.loffs, nc.foffs + nc.loffs)
    ensures SameKeyword(spots, nb, nc, LoopStep(nb, words), LoopStep(nc, words))
  {
    hide KindOf, RelLoops, Target;
    RelTop(spots, nb.lp, nc.lp, nb.lpndx);
    RelReset(spots, nb, nc);
    if words != [] {
      match KindOf(words[0])
      case While => if LoopAllowed(nb) { RelPush(spots, nb, nc, LoopWhile); }
      case Until => if LoopAllowed(nb) { RelPush(spots, nb, nc, LoopUntil); }
      case Do =>
        RelSet(spots, nb.lp, nc.lp, nb.lpndx, nb.lpndx,
               nb.Loop().(state := LoopDo), nc.Loop().(state := LoopDo));
      case Done => if nb.lpndx > 0 { RelPop(spots, nb, nc); }
      case _ =>
    }
  }

  lemma RelReset(spots: seq<Spot>, nb: Np, nc: Np)
    requires Rel(spots, nb, nc)
    ensures Rel(spots, LoopReset(nb), LoopReset(nc))
  {
    hide RelLoops, Target;
    RelTop(spots, nb.lp, nc.lp, nb.lpndx);
    RelSet(spots, nb.lp, nc.lp, 0, 0, LoopReset(nb).lp[0], LoopReset(nc).lp[0]);
  }

  lemma RelPush(spots: seq<Spot>, nb: Np, nc: Np, state: LoopState)
    requires Rel(spots, nb, nc) && nb.lpndx + 1 < |nb.lp|
    requires Target(spots, nb.foffs + nb.loffs, nc.foffs + nc.loffs)
    ensures |nc.lp| == |nb.lp| && Rel(spots, PushLoop(nb, state), PushLoop(nc, state))
  {
    assert |nc.lp| == |nb.lp|;
    hide RelLoops, Target;
    RelTop(spots, nb.lp, nc.lp, nb.lpndx);
    var pb, pc := PushLoop(nb, state), PushLoop(nc, state);
    RelSet(spots, nb.lp, nc.lp, nb.lpndx, nb.lpndx + 1, pb.Loop(), pc.Loop());
    RelTop(spots, pb.lp, pc.lp, nb.lpndx);
  }

  lemma RelPop(spots: seq<Spot>, nb: Np, nc: Np)
    requires Rel(spots, nb, nc) && nb.lpndx > 0 && !nb.jump && !nc.jump
    ensures var pb, pc := PopLoop(nb), PopLoop(nc); Rel(spots, pb, pc) && Moved(spots, nb, nc, pb, pc)
  {
    hide RelLoops, Target;
    RelTop(spots, nb.lp, nc.lp, nb.lpndx);
    var pb, pc := PopLoop(nb), PopLoop(nc);
    RelSet(spots, nb.lp, nc.lp, nb.lpndx - 1, nb.lpndx, pb.lp[nb.lpndx], pc.lp[nb.lpndx]);
  }

  lemma RelItefStep(spots: seq<Spot>, nb: Np, nc: Np, words: Words)
    requires Rel(spots, nb, nc)
    ensures var kb, kc := ItefStep(nb, words), ItefStep(nc, words);
      && kb.Go? == kc.Go? && (kb.Go? ==> kb.rest == kc.rest) && Rel(spots, kb.np, kc.np)
      && kb.np.fpos == nb.fpos && kc.np.fpos == nc.fpos && kb.np.jump == nb.jump && kc.np.jump == nc.jump && kc.np.foffs == nc.foffs
  {
    RelTop(spots, nb.lp, nc.lp, nb.lpndx);
    hide RelLoops, Target, ItefNext;
  }

  lemma RelSave(spots: seq<Spot>, nb: Np, nc: Np, failed: bool)
    requires Rel(spots, nb, nc)
    ensures var sb, sc := SaveResult(nb, failed), SaveResult(nc, failed);
      && sb.1 == sc.1 && Rel(spots, sb.0, sc.0)
      && sb.0.fpos == nb.fpos && sc.0.fpos == nc.fpos && sb.0.jump == nb.jump && sc.0.jump == nc.jump && sc.0.foffs == nc.foffs
  {
    hide RelLoops, Target;
    RelTop(spots, nb.lp, nc.lp, nb.lpndx);
    if nb.Loop().state == LoopWhile {
      RelEnable(spots, nb, nc, !failed);
    } else if nb.Loop().state == LoopUntil {
      RelEnable(spots, nb, nc, failed);
    } else if nb.Itef().state == ItefIf {
    } else {
    }
  }

  lemma RelEnable(spots: seq<Spot>, nb: Np, nc: Np, enable: bool)
    requires Rel(spots, nb, nc)
    ensures RelLoops(spots, nb.lp[nb.lpndx := nb.Loop().(enable := enable)],
                     nc.lp[nc.lpndx := nc.Loop().(enable := enable)], nb.lpndx)
  {
    hide RelLoops, Target;
    RelTop(spots, nb.lp, nc.lp, nb.lpndx);
    RelSet(spots, nb.lp, nc.lp, nb.lpndx, nb.lpndx, nb.Loop().(enable := enable), nc.Loop().(enable := enable));
  }

  lemma RelBreak(spots: seq<Spot>, nb: Np, nc: Np)
    requires Rel(spots, nb, nc)
    ensures var sb, sc := BreakStep(nb), BreakStep(nc);
      && Rel(spots, sb, sc)
      && sb.fpos == nb.fpos && sc.fpos == nc.fpos && sb.jump == nb.jump && sc.jump == nc.jump && sc.foffs == nc.foffs
  {
    hide RelLoops, Target;
    RelTop(spots, nb.lp, nc.lp, nb.lpndx);
    RelEnable(spots, nb, nc, false);
  }

  lemma RelEnabled(spots: seq<Spot>, nb: Np, nc: Np)
    requires Rel(spots, nb, nc)
    ensures nb.Valid() && nc.Valid() && nb.fail == nc.fail && nb.CmdEnabled() == nc.CmdEnabled()
  {
    RelTop(spots, nb.lp, nc.lp, nb.lpndx);
  }

  lemma RelDispatch(run: Interpreter, spots: seq<Spot>, nb: Np, nc: Np, words: Words, trace: Trace)
    requires Rel(spots, nb, nc)
    ensures var ob, oc := Dispatch(run, nb, words, trace), Dispatch(run, nc, words, trace);
      && ob.ok == oc.ok && ob.trace == oc.trace && Rel(spots, ob.np, oc.np)
      && ob.np.fpos == nb.fpos && oc.np.fpos == nc.fpos && ob.np.jump == nb.jump && oc.np.jump == nc.jump && oc.np.foffs == nc.foffs
  {
    hide KindOf, SaveResult, BreakStep, Rel, Clip, Np.CmdEnabled, Np.Valid;
    RelEnabled(spots, nb, nc);
    if words != [] && nb.CmdEnabled() {
      RelBreak(spots, nb, nc);
      RelSave(spots, BreakStep(nb), BreakStep(nc), false);
      RelSave(spots, nb, nc, run(trace, Call(Clip(words), nb.fail)));
    }
  }

  /** One command does the same to both machines. */
  lemma RelCommand(run: Interpreter, spots: seq<Spot>, nb: Np, nc: Np, words: Words, trace: Trace)
    requires Rel(spots, nb, nc) && !nb.jump && !nc.jump && nb.foffs >= 0 && nc.foffs >= 0
    requires Header(words) ==> Target(spots, nb.foffs + nb.loffs, nc.foffs + nc.loffs)
    ensures var ob, oc := ParseCommand(run, nb, words, trace), ParseCommand(run, nc, words, trace);
      ob.ok == oc.ok && ob.trace == oc.trace && Rel(spots, ob.np, oc.np) && Moved(spots, nb, nc, ob.np, oc.np)
  {
    assert nb.Valid() && nc.Valid();
    hide LoopStep, ItefStep, Dispatch, SaveResult, KindOf, Rel;
    RelLoopStep(spots, nb, nc, words);
    var lb, lc := LoopStep(nb, words), LoopStep(nc, words);
    if lb.Bad? {
      RelSave(spots, lb.np, lc.np, true);
    } else {
      RelItefStep(spots, lb.np, lc.np, lb.rest);
      var ib, ic := ItefStep(lb.np, lb.rest), ItefStep(lc.np, lc.rest);
      if ib.Bad? {
        RelSave(spots, ib.np, ic.np, true);
      } else {
        RelDispatch(run, spots, ib.np, ic.np, ib.rest, trace);
      }
    }
  }

  // ----- Lists of commands in which every condition is followed by its keyword -----

  predicate InOrder(code: seq<Words>, i: nat)
    requires i < |code|
  {
    && code[i] != []
    && match KindOf(code[i][0])
       case If => Simple(code[i][1..]) && i + 1 < |code| && code[i + 1] == ["then"]
       case While => Simple(code[i][1..]) && i + 1 < |code| && code[i + 1] == ["do"]
       case Until => Simple(code[i][1..]) && i + 1 < |code| && code[i + 1] == ["do"]
       case Break => code[i] == ["break"]
       case Plain => true
       case _ => |code[i]| == 1
  }

  predicate Sequenced(code: seq<Words>) {
    forall i :: 0 <= i < |code| ==> InOrder(code, i)
  }

  /** Just after the condition of an `if`. */
  predicate IfPending(np: Np) {
    && np.Valid() && np.scripted && np.fpos >= 0 && !np.InLoopHeader() && np.Itef().state == ItefIf
    && forall i :: 0 <= i < |np.ie| && i != np.iendx ==> np.ie[i].state != ItefIf
  }

  /** Just after the condition of a loop. */
  predicate LoopPending(np: Np) {
    && np.Valid() && np.scripted && np.fpos >= 0 && np.InLoopHeader()
    && forall i :: 0 <= i < |np.ie| ==> np.ie[i].state != ItefIf
  }

  /** Loop levels below the top have their "do" behind them. */
  predicate Settled(np: Np) {
    && np.Valid()
    && (forall i :: 0 <= i < np.lpndx ==> np.lp[i].state != LoopWhile && np.lp[i].state != LoopUntil)
    && (forall i :: 1 <= i <= np.lpndx ==> np.lp[i].topoffs >= 0)
  }

  /** The states of the jump machine on such a list. */
  predicate Calm(code: seq<Words>, np: Np) {
    && Settled(np)
    && (|| Boundary(np)
        || (0 <= np.fpos < |code| && code[np.fpos] == ["then"] && IfPending(np))
        || (0 <= np.fpos < |code| && code[np.fpos] == ["do"] && LoopPending(np)))
  }

  lemma ApplyStray(run: Interpreter, np: Np, w: string, trace: Trace)
    requires Boundary(np) && (w == "do" || w == "then")
    ensures Apply(run, np, [w], trace).Stops?
  {
    assert KindOf("do") == Do && KindOf("then") == Then;
    hide KindOf;
  }

  lemma ApplyStrayDone(run: Interpreter, np: Np, trace: Trace)
    requires Boundary(np) && !(np.lpndx >= 1 && np.Loop().state == LoopDo)
    ensures Apply(run, np, ["done"], trace).Stops?
  {
    assert KindOf("done") == Done;
    hide KindOf;
  }

  /** "then" and "do" after their conditions. */
  lemma ApplyPending(run: Interpreter, np: Np, w: string, trace: Trace)
    requires Settled(np) && ((w == "then" && IfPending(np)) || (w == "do" && LoopPending(np)))
    ensures var r := Apply(run, np, [w], trace);
      r.Ends? && r.trace == trace && Boundary(r.np) && Settled(r.np) && r.np.fpos == np.fpos + 1
  {
    assert KindOf("do") == Do && KindOf("then") == Then && [w][1..] == [];
    hide KindOf;
  }
}
