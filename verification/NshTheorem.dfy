/** From the text of a script to its meaning. */
module NshTheorem {
  import opened NshState
  import opened NshProgram
  import opened NshJump
  import opened NshStructured
  import opened NshText
  import opened NshLayout
  import opened NshRefine
  import opened NshScript
  import St = NshStale

  // ----- The commands of a program are in order -----

  lemma SequencedAdd(a: seq<Words>, b: seq<Words>)
    requires Sequenced(a) && Sequenced(b)
    ensures Sequenced(a + b)
  {
    hide KindOf, Simple;
    forall i | 0 <= i < |a + b| ensures InOrder(a + b, i) {
      if i < |a| {
        assert InOrder(a, i);
      } else {
        assert InOrder(b, i - |a|);
      }
    }
  }

  lemma SequencedKeyword(w: string)
    requires w == "else" || w == "fi" || w == "done" || w == "break"
    ensures Sequenced([[w]])
  {
  }

  lemma SequencedHeader(w: string, c: Words, k: string)
    requires Simple(c) && ((w == "if" && k == "then") || ((w == "while" || w == "until") && k == "do"))
    ensures Sequenced([[w] + c, [k]])
  {
    assert ([w] + c)[1..] == c;
    assert KindOf("do") == Do && KindOf("then") == Then;
  }

  lemma {:induction false} FlattenSequenced(p: Prog)
    requires WellFormed(p)
    ensures Sequenced(Flatten(p))
    decreases p, 0
  {
    hide Sequenced, KindOf;
    match p
    case Nop => SequencedNone();
    case Cmd(w, next) =>
      SequencedSimple(w);
      FlattenSequenced(next);
      SequencedAdd([w], Flatten(next));
    case Quit(next) =>
      SequencedKeyword("break");
      FlattenSequenced(next);
      SequencedAdd([["break"]], Flatten(next));
    case Choose(c, thn, hasElse, els, next) =>
      SequencedHeader("if", c, "then");
      SequencedKeyword("fi");
      FlattenSequenced(thn);
      ElseSequenced(hasElse, els);
      FlattenSequenced(next);
      SequencedBlock(["if"] + c, ["then"], Flatten(thn), FlattenElse(hasElse, els), ["fi"], Flatten(next));
    case Repeat(until, c, body, next) =>
      SequencedHeader(LoopWord(until), c, "do");
      SequencedKeyword("done");
      FlattenSequenced(body);
      SequencedNone();
      FlattenSequenced(next);
      SequencedBlock([LoopWord(until)] + c, ["do"], Flatten(body), [], ["done"], Flatten(next));
      assert [] + ([["done"]] + Flatten(next)) == [["done"]] + Flatten(next);
  }

  lemma SequencedBlock(h: Words, k: Words, a: seq<Words>, b: seq<Words>, z: Words, next: seq<Words>)
    requires Sequenced([h, k]) && Sequenced(a) && Sequenced(b) && Sequenced([z]) && Sequenced(next)
    ensures Sequenced([h] + ([k] + (a + (b + ([z] + next)))))
  {
    hide Sequenced;
    SequencedAdd([z], next);
    SequencedAdd(b, [z] + next);
    SequencedAdd(a, b + ([z] + next));
    SequencedAdd([h, k], a + (b + ([z] + next)));
    assert [h, k] + (a + (b + ([z] + next))) == [h] + ([k] + (a + (b + ([z] + next))));
  }

  lemma SequencedNone()
    ensures Sequenced([])
  {
  }

  lemma SequencedSimple(w: Words)
    requires Simple(w)
    ensures Sequenced([w])
  {
  }

  lemma {:induction false} ElseSequenced(hasElse: bool, els: Prog)
    requires WellFormed(els)
    ensures Sequenced(FlattenElse(hasElse, els))
    decreases els, 1
  {
    hide Sequenced, KindOf;
    SequencedNone();
    SequencedKeyword("else");
    FlattenSequenced(els);
    SequencedAdd([["else"]], Flatten(els));
  }

  // ----- The theorem -----

  /** The structured semantics ends this way, with both stacks as at the start. */
  predicate FlowEnds(f: Flow, e: Ending) {
    match f
    case Next(_, trace) => e.ok && e.trace == trace && e.lpndx == 0 && e.iendx == 0
    case Failed(trace) => !e.ok && e.trace == trace
    case _ => false
  }

  lemma ClearRuns(p: Prog, np: Np)
    requires Clear(np) && WellFormed(p) && InScope(p, false, false) && Fits(p, np)
    ensures Runs(p, np, false)
  {
  }

  /** How `Big` ends is how the structured semantics ends. */
  lemma BigEndsAs(run: Interpreter, p: Prog, np: Np, trace: Trace, fuel: nat, e: Ending)
    requires Clear(np) && WellFormed(p) && InScope(p, false, false) && Fits(p, np)
    ensures var r := Big(run, p, np, trace, fuel);
      FlowEnds(Std(run, p, false, np.fail, trace, fuel), e)
      <==> !r.NoFuel? && EndsAs(r.Ends?, r.np, r.trace, e)
  {
    hide Std, Big, Fits, WellFormed;
    ClearRuns(p, np);
    Structured(run, p, np, false, trace, fuel);
    NoLeave(run, p, false, false, np.fail, trace, fuel);
  }

  /** The commands of a program in scope end as its structured meaning says. */
  lemma ProgramExactly(run: Interpreter, p: Prog, np: Np, trace: Trace, e: Ending)
    requires Fresh(np) && WellFormed(p) && InScope(p, false, false) && Fits(p, np)
    ensures CommandsEnd(run, Flatten(p), np, trace, e)
       <==> exists fuel: nat :: FlowEnds(Std(run, p, false, np.fail, trace, fuel), e)
  {
    hide Flatten, Std, InScope, WellFormed, FlowEnds, CommandsEnd, TextEnds, Clear;
    SweptClear(np);
    StaleCommands(run, Flatten(p), np, trace, e);
    ClearProgram(run, p, St.Swept(np), trace, e);
  }

  lemma ClearProgram(run: Interpreter, p: Prog, np: Np, trace: Trace, e: Ending)
    requires Clear(np) && WellFormed(p) && InScope(p, false, false) && Fits(p, np)
    ensures CommandsEnd(run, Flatten(p), np, trace, e)
       <==> exists fuel: nat :: FlowEnds(Std(run, p, false, np.fail, trace, fuel), e)
  {
    hide Jumps, Flatten, Big, Std, InScope, WellFormed, FlowEnds, Fits;
    if n: nat :| (var d := Jumps(run, Flatten(p), Running(np, trace), n);
                  d.Stopped? && EndsAs(d.ok, d.np, d.trace, e)) {
      var fuel := CommandsToFlow(run, p, np, trace, e, n);
    }
    if fuel: nat :| FlowEnds(Std(run, p, false, np.fail, trace, fuel), e) {
      var n := FlowToCommands(run, p, np, trace, e, fuel);
    }
  }

  lemma CommandsToFlow(run: Interpreter, p: Prog, np: Np, trace: Trace, e: Ending, n: nat) returns (fuel: nat)
    requires Clear(np) && WellFormed(p) && InScope(p, false, false) && Fits(p, np)
    requires var d := Jumps(run, Flatten(p), Running(np, trace), n); d.Stopped? && EndsAs(d.ok, d.np, d.trace, e)
    ensures FlowEnds(Std(run, p, false, np.fail, trace, fuel), e)
  {
    hide Jumps, Flatten, Big, Std, InScope, WellFormed, FlowEnds, Fits;
    var c := Jumps(run, Flatten(p), Running(np, trace), n);
    ScriptExactly(run, p, np, trace, c);
    fuel :| !Big(run, p, np, trace, fuel).NoFuel? && Final(Big(run, p, np, trace, fuel)) == c;
    BigEndsAs(run, p, np, trace, fuel, e);
  }

  lemma FlowToCommands(run: Interpreter, p: Prog, np: Np, trace: Trace, e: Ending, fuel: nat) returns (n: nat)
    requires Clear(np) && WellFormed(p) && InScope(p, false, false) && Fits(p, np)
    requires FlowEnds(Std(run, p, false, np.fail, trace, fuel), e)
    ensures var d := Jumps(run, Flatten(p), Running(np, trace), n); d.Stopped? && EndsAs(d.ok, d.np, d.trace, e)
  {
    hide Jumps, Flatten, Big, Std, InScope, WellFormed, FlowEnds, Fits;
    BigEndsAs(run, p, np, trace, fuel, e);
    n := BigStops(run, p, np, trace, fuel);
  }

  /** The line-at-a-time parser with its jumps implements structured semantics:
      a script text whose commands are those of a program in scope ends exactly
      as the program does, with the same commands run and the same status. */
  lemma ScriptIsStructured(env: Env, file: string, p: Prog, np: Np, trace: Trace, e: Ending)
    requires Fresh(np) && file != "" && Clean(file) && Commands(FileSpots(file, 0)) == Flatten(p)
    requires WellFormed(p) && InScope(p, false, false) && Fits(p, np)
    ensures TextEnds(env, file, np, trace, e)
       <==> exists fuel: nat :: FlowEnds(Std(env.run, p, false, np.fail, trace, fuel), e)
  {
    hide FileSpots, Clean, Sequenced, Commands, TextEnds, CommandsEnd, Fresh, Flatten, WellFormed, InScope, Fits, Std;
    FlattenSequenced(p);
    TextExactly(env, file, np, trace, e);
    ProgramExactly(env.run, p, np, trace, e);
  }
}
