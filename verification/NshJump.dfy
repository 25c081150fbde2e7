/** The jump machine runs every structured program exactly as the tree does. */
module NshJump {
  import opened NshState
  import opened NshProgram

  /** The commands `part` stand in `code` from position `at` on. */
  predicate Holds(code: seq<Words>, at: int, part: seq<Words>) {
    0 <= at && at + |part| <= |code| && code[at..at + |part|] == part
  }

  lemma HoldsParts(code: seq<Words>, at: int, a: seq<Words>, b: seq<Words>)
    requires Holds(code, at, a + b)
    ensures Holds(code, at, a) && Holds(code, at + |a|, b)
  {
    assert a == (a + b)[..|a|] && b == (a + b)[|a|..];
    assert code[at..at + |a|] == code[at..at + |a + b|][..|a|];
    assert code[at + |a|..at + |a| + |b|] == code[at..at + |a + b|][|a|..];
  }

  lemma HoldsThree(code: seq<Words>, at: int, a: seq<Words>, b: seq<Words>, c: seq<Words>)
    requires Holds(code, at, a + (b + c))
    ensures Holds(code, at, a) && Holds(code, at + |a|, b) && Holds(code, at + |a| + |b|, c)
  {
    hide Holds;
    HoldsParts(code, at, a, b + c);
    HoldsParts(code, at + |a|, b, c);
  }

  lemma JumpOne(run: Interpreter, code: seq<Words>, np: Np, w: Words, trace: Trace)
    requires np.Valid() && Holds(code, np.fpos, [w])
    ensures Jumps(run, code, Running(np, trace), 1) == Apply(run, np, w, trace).AsConfig()
  {
    assert code[np.fpos] == code[np.fpos..np.fpos + 1][0] == w;
    var c := Running(np, trace);
    assert Jump(run, code, c) == Apply(run, np, w, trace).AsConfig();
    hide Jump;
    assert Jumps(run, code, Jump(run, code, c), 0) == Jump(run, code, c);
  }

  /** `n` steps take the machine from one configuration to another. */
  predicate Reaches(run: Interpreter, code: seq<Words>, c: Config, n: nat, d: Config)
    requires c.np.Valid()
  {
    Jumps(run, code, c, n) == d
  }

  lemma ReachesTrans(run: Interpreter, code: seq<Words>, c: Config, m: nat, d: Config, n: nat, e: Config)
    requires c.np.Valid() && d.np.Valid() && Reaches(run, code, c, m, d) && Reaches(run, code, d, n, e)
    ensures Reaches(run, code, c, m + n, e)
  {
    JumpsAdd(run, code, c, m, n);
  }

  /** The machine follows `Big`: it ends where the program ends, stops where the
      program stops, and takes more than `low` steps where the fuel runs out. */
  predicate Follows(run: Interpreter, code: seq<Words>, np: Np, trace: Trace, n: nat, r: Result, low: int)
    requires np.Valid()
  {
    Reaches(run, code, Running(np, trace), n, r.AsConfig()) && (r.NoFuel? ==> n > low)
  }

  lemma FollowsNothing(run: Interpreter, code: seq<Words>, np: Np, trace: Trace)
    requires np.Valid()
    ensures Follows(run, code, np, trace, 0, NoFuel(np, trace), -1)
    ensures forall fuel :: Follows(run, code, np, trace, 0, Ends(np, trace), fuel)
  {
  }

  lemma FollowsWeaken(run: Interpreter, code: seq<Words>, np: Np, trace: Trace, n: nat, r: Result, low: int)
    requires np.Valid() && Follows(run, code, np, trace, n, r, low)
    ensures Follows(run, code, np, trace, n, r, low - 1)
  {
    hide Jumps;
  }

  /** One command, then the rest. */
  lemma FollowsStep(run: Interpreter, code: seq<Words>, np: Np, w: Words, trace: Trace, n: nat, r: Result, low: int)
    requires np.Valid() && Holds(code, np.fpos, [w])
    ensures var s := Apply(run, np, w, trace);
      if s.Ends? then
        Follows(run, code, s.np, s.trace, n, r, low) ==>
          Follows(run, code, np, trace, n + 1, r, low) && Follows(run, code, np, trace, n + 1, r, low + 1)
      else Follows(run, code, np, trace, 1, s, low)
  {
    JumpOne(run, code, np, w, trace);
    hide Jumps;
    var s := Apply(run, np, w, trace);
    hide Apply;
    if s.Ends? && Follows(run, code, s.np, s.trace, n, r, low) {
      ReachesTrans(run, code, Running(np, trace), 1, Running(s.np, s.trace), n, r.AsConfig());
    }
  }

  /** One program, then the rest. */
  lemma FollowsSeq(run: Interpreter, code: seq<Words>, np: Np, trace: Trace, m: nat, s: Result, n: nat, r: Result, low: int)
    requires np.Valid() && s.Ends? && s.np.Valid()
    requires Follows(run, code, np, trace, m, s, low) && Follows(run, code, s.np, s.trace, n, r, low)
    ensures Follows(run, code, np, trace, m + n, r, low)
  {
    hide Jumps;
    ReachesTrans(run, code, Running(np, trace), m, Running(s.np, s.trace), n, r.AsConfig());
  }

  lemma {:induction false} BigIsJump(run: Interpreter, code: seq<Words>, p: Prog, np: Np, trace: Trace, fuel: nat)
    returns (n: nat)
    requires Boundary(np) && WellFormed(p) && Holds(code, np.fpos, Flatten(p))
    ensures Follows(run, code, np, trace, n, Big(run, p, np, trace, fuel), fuel)
    decreases fuel, p, 4
  {
    match p
    case Nop =>
      n := 0;
    case Cmd(w, next) =>
      HoldsParts(code, np.fpos, [w], Flatten(next));
      n := SimpleFollows(run, code, w, next, np, trace, fuel);
    case Quit(next) =>
      HoldsParts(code, np.fpos, [["break"]], Flatten(next));
      n := SimpleFollows(run, code, ["break"], next, np, trace, fuel);
    case Choose(_, _, _, _, _) =>
      n := ChooseFollows(run, code, p, np, trace, fuel);
    case Repeat(_, _, _, _) =>
      n := RepeatFollows(run, code, p, np, trace, fuel);
  }

  lemma {:induction false} SimpleFollows(
    run: Interpreter, code: seq<Words>, w: Words, next: Prog, np: Np, trace: Trace, fuel: nat)
    returns (n: nat)
    requires Boundary(np) && WellFormed(next) && (Simple(w) || w == ["break"])
    requires Holds(code, np.fpos, [w]) && Holds(code, np.fpos + 1, Flatten(next))
    ensures Follows(run, code, np, trace, n, 
      (var (n1, t1) :- Apply(run, np, w, trace); Big(run, next, n1, t1, fuel)), fuel)
    decreases fuel, next, 5
  {
    if w == ["break"] { ApplyBreak(run, np, trace); } else { ApplyCmd(run, np, w, trace); }
    hide Apply, Big, Follows;
    var s := Apply(run, np, w, trace);
    if s.Ends? {
      n := BigIsJump(run, code, next, s.np, s.trace, fuel);
      FollowsStep(run, code, np, w, trace, n, Big(run, next, s.np, s.trace, fuel), fuel);
      n := n + 1;
    } else {
      FollowsStep(run, code, np, w, trace, 0, s, fuel);
      n := 1;
    }
  }

  lemma HoldsRepeat(code: seq<Words>, at: int, p: Prog)
    requires p.Repeat? && Holds(code, at, Flatten(p))
    ensures Holds(code, at, [[LoopWord(p.until)] + p.cond]) && Holds(code, at + 1, [["do"]])
    ensures Holds(code, at + 2, Flatten(p.body))
    ensures Holds(code, at + 2 + |Flatten(p.body)|, [["done"]])
    ensures Holds(code, at + 3 + |Flatten(p.body)|, Flatten(p.next))
  {
    hide Holds;
    var body, next := Flatten(p.body), Flatten(p.next);
    HoldsThree(code, at, [[LoopWord(p.until)] + p.cond], [["do"]], body + ([["done"]] + next));
    hide Flatten;
    HoldsThree(code, at + 2, body, [["done"]], next);
  }

  lemma {:induction false} RepeatFollows(run: Interpreter, code: seq<Words>, p: Prog, np: Np, trace: Trace, fuel: nat)
    returns (n: nat)
    requires Boundary(np) && WellFormed(p) && p.Repeat? && Holds(code, np.fpos, Flatten(p))
    ensures Follows(run, code, np, trace, n, Big(run, p, np, trace, fuel), fuel)
    decreases fuel, p, 3
  {
    hide Holds, Follows, Flatten, Apply, Big, InDo, Tested, Again;
    HoldsRepeat(code, np.fpos, p);
    var w := [LoopWord(p.until)] + p.cond;
    ApplyLoop(run, np, p.until, p.cond, trace);
    BigRepeat(run, p, np, trace, fuel);
    var s := Apply(run, np, w, trace);
    if np.lpndx >= |np.lp| - 1 {
      FollowsStep(run, code, np, w, trace, 0, s, fuel);
      n := 1;
    } else {
      var t := Tested(run, np, np.ItefEnabled(), p.cond, trace).trace;
      ApplyDo(run, np, p.until, p.cond, trace, t);
      assert s.np.fpos == np.fpos + 1;
      hide AfterLoop;
      n := BodyFollows(run, code, p, np, trace, fuel);
      var r := Big(run, p, np, trace, fuel);
      FollowsStep(run, code, s.np, ["do"], t, n, r, fuel);
      FollowsStep(run, code, np, w, trace, n + 1, r, fuel);
      n := n + 2;
    }
  }

  /** From "do" to the end of the loop. */
  lemma {:induction false} BodyFollows(run: Interpreter, code: seq<Words>, p: Prog, np: Np, trace: Trace, fuel: nat)
    returns (n: nat)
    requires Boundary(np) && WellFormed(p) && p.Repeat? && Holds(code, np.fpos, Flatten(p)) && np.lpndx < |np.lp| - 1
    ensures Follows(run, code, InDo(run, np, p.until, p.cond, trace),
                    Tested(run, np, np.ItefEnabled(), p.cond, trace).trace, n, Big(run, p, np, trace, fuel), fuel)
    decreases fuel, p, 2
  {
    hide Big, Apply, Follows, Holds, InDo, Tested, Flatten, Again;
    HoldsRepeat(code, np.fpos, p);
    BigRepeat(run, p, np, trace, fuel);
    var n2 := InDo(run, np, p.until, p.cond, trace);
    var t := Tested(run, np, np.ItefEnabled(), p.cond, trace).trace;
    n := BigIsJump(run, code, p.body, n2, t, fuel);
    var r3 := Big(run, p.body, n2, t, fuel);
    if r3.Ends? {
      BigFrame(run, p.body, n2, t, fuel);
      var m := DoneFollows(run, code, p, np, trace, r3.np, r3.trace, fuel);
      FollowsSeq(run, code, n2, t, n, r3, m, Big(run, p, np, trace, fuel), fuel);
      n := n + m;
    }
  }

  /** From the end of the body to the end of the loop. */
  lemma {:induction false} DoneFollows(
    run: Interpreter, code: seq<Words>, p: Prog, np: Np, trace: Trace, n3: Np, t3: Trace, fuel: nat)
    returns (n: nat)
    requires Boundary(np) && WellFormed(p) && p.Repeat? && Holds(code, np.fpos, Flatten(p)) && np.lpndx < |np.lp| - 1
    requires Boundary(n3) && LoopFrame(InDo(run, np, p.until, p.cond, trace), n3)
    requires n3.fpos == np.fpos + 2 + |Flatten(p.body)|
    ensures Follows(run, code, n3, t3, n,
      (var (n4, t4) :- Apply(run, n3, ["done"], t3); Again(run, p, n4, t4, fuel)), fuel)
    decreases fuel, p, 1
  {
    hide Big, Apply, Follows, Holds, InDo, Flatten, Again, PopLoop, LoopFrame;
    HoldsRepeat(code, np.fpos, p);
    DoneFrame(run, np, p.until, p.cond, trace, n3);
    ApplyDone(run, n3, t3);
    var n4 := PopLoop(Fetch(n3));
    n := AgainFollows(run, code, p, np, n4, t3, fuel);
    FollowsStep(run, code, n3, ["done"], t3, n, Again(run, p, n4, t3, fuel), fuel - 1);
    n := n + 1;
  }

  /** From just after "done": past the loop, or once more around it. */
  lemma {:induction false} AgainFollows(
    run: Interpreter, code: seq<Words>, p: Prog, np: Np, n4: Np, trace: Trace, fuel: nat)
    returns (n: nat)
    requires Boundary(np) && WellFormed(p) && p.Repeat? && Holds(code, np.fpos, Flatten(p))
    requires Boundary(n4) && n4.fpos == if n4.jump then np.fpos else np.fpos + 3 + |Flatten(p.body)|
    ensures Follows(run, code, n4, trace, n, Again(run, p, n4, trace, fuel), fuel - 1)
    decreases fuel, p, 0
  {
    HoldsRepeat(code, np.fpos, p);
    hide Big, Flatten, Follows, Holds;
    if !n4.jump {
      n := BigIsJump(run, code, p.next, n4, trace, fuel);
      FollowsWeaken(run, code, n4, trace, n, Big(run, p.next, n4, trace, fuel), fuel);
    } else if fuel > 0 {
      n := BigIsJump(run, code, p, n4, trace, fuel - 1);
    } else {
      FollowsNothing(run, code, n4, trace);
      n := 0;
    }
  }

  // ----- if -----

  lemma HoldsChoose(code: seq<Words>, at: int, p: Prog)
    requires p.Choose? && Holds(code, at, Flatten(p))
    ensures Holds(code, at, [["if"] + p.cond]) && Holds(code, at + 1, [["then"]])
    ensures Holds(code, at + 2, Flatten(p.thn))
    ensures var e := at + 2 + |Flatten(p.thn)|;
      && Holds(code, e, FlattenElse(p.hasElse, p.els))
      && Holds(code, e + |FlattenElse(p.hasElse, p.els)|, [["fi"]])
      && Holds(code, e + |FlattenElse(p.hasElse, p.els)| + 1, Flatten(p.next))
  {
    hide Holds;
    var thn, els, next := Flatten(p.thn), FlattenElse(p.hasElse, p.els), Flatten(p.next);
    HoldsThree(code, at, [["if"] + p.cond], [["then"]], thn + (els + ([["fi"]] + next)));
    hide Flatten, FlattenElse;
    HoldsParts(code, at + 2, thn, els + ([["fi"]] + next));
    HoldsThree(code, at + 2 + |thn|, els, [["fi"]], next);
  }

  lemma {:induction false} ChooseFollows(run: Interpreter, code: seq<Words>, p: Prog, np: Np, trace: Trace, fuel: nat)
    returns (n: nat)
    requires Boundary(np) && WellFormed(p) && p.Choose? && Holds(code, np.fpos, Flatten(p))
    ensures Follows(run, code, np, trace, n, Big(run, p, np, trace, fuel), fuel)
    decreases fuel, p, 3
  {
    HoldsChoose(code, np.fpos, p);
    var w := ["if"] + p.cond;
    ApplyIf(run, np, p.cond, trace);
    hide Holds, Follows, Flatten, Apply;
    var s := Apply(run, np, w, trace);
    if np.iendx >= |np.ie| - 1 {
      FollowsStep(run, code, np, w, trace, 0, s, fuel);
      n := 1;
    } else {
      var t := Tested(run, np, np.CmdEnabled(), p.cond, trace).trace;
      ApplyThen(run, np, p.cond, trace, t);
      n := BranchFollows(run, code, p, np, trace, fuel);
      var r := Big(run, p, np, trace, fuel);
      assert s.np.fpos == np.fpos + 1;
      hide Big, InThen, AfterIf, Tested;
      FollowsStep(run, code, s.np, ["then"], t, n, r, fuel);
      FollowsStep(run, code, np, w, trace, n + 1, r, fuel);
      n := n + 2;
    }
  }

  /** From "then" on. */
  lemma {:induction false} BranchFollows(run: Interpreter, code: seq<Words>, p: Prog, np: Np, trace: Trace, fuel: nat)
    returns (n: nat)
    requires Boundary(np) && WellFormed(p) && p.Choose? && Holds(code, np.fpos, Flatten(p)) && np.iendx < |np.ie| - 1
    ensures Follows(run, code, InThen(run, np, p.cond, trace),
                    Tested(run, np, np.CmdEnabled(), p.cond, trace).trace, n, Big(run, p, np, trace, fuel), fuel)
    decreases fuel, p, 2
  {
    hide Big, BigElse, Apply, Follows, InThen, Tested, Flatten, FlattenElse, Holds, LoopFrame;
    HoldsChoose(code, np.fpos, p);
    BigChoose(run, p, np, trace, fuel);
    var n2 := InThen(run, np, p.cond, trace);
    var t := Tested(run, np, np.CmdEnabled(), p.cond, trace).trace;
    n := BigIsJump(run, code, p.thn, n2, t, fuel);
    var r3 := Big(run, p.thn, n2, t, fuel);
    if r3.Ends? {
      BigFrame(run, p.thn, n2, t, fuel);
      var m := TailFollows(run, code, p, r3.np, r3.trace, fuel);
      FollowsSeq(run, code, n2, t, n, r3, m, Big(run, p, np, trace, fuel), fuel);
      n := n + m;
    }
  }

  /** From the end of the first branch on. */
  lemma {:induction false} TailFollows(run: Interpreter, code: seq<Words>, p: Prog, np: Np, trace: Trace, fuel: nat)
    returns (n: nat)
    requires Boundary(np) && WellFormed(p) && p.Choose? && Holds(code, np.fpos, FlattenElse(p.hasElse, p.els))
    requires Holds(code, np.fpos + |FlattenElse(p.hasElse, p.els)|, [["fi"]])
    requires Holds(code, np.fpos + |FlattenElse(p.hasElse, p.els)| + 1, Flatten(p.next))
    ensures Follows(run, code, np, trace, n,
      (var (n4, t4) :- BigElse(run, p.hasElse, p.els, np, trace, fuel);
       var (n5, t5) :- Apply(run, n4, ["fi"], t4);
       Big(run, p.next, n5, t5, fuel)), fuel)
    decreases fuel, p, 1
  {
    hide Big, BigElse, Apply, Follows, Flatten, FlattenElse, Holds;
    n := ElseFollows(run, code, p.hasElse, p.els, np, trace, fuel);
    var r4 := BigElse(run, p.hasElse, p.els, np, trace, fuel);
    if r4.Ends? {
      BigFrameElse(run, p.hasElse, p.els, np, trace, fuel);
      hide LoopFrame;
      var k := FiFollows(run, code, p.next, r4.np, r4.trace, fuel);
      var r := (var (n5, t5) :- Apply(run, r4.np, ["fi"], r4.trace); Big(run, p.next, n5, t5, fuel));
      FollowsSeq(run, code, np, trace, n, r4, k, r, fuel);
      n := n + k;
    }
  }

  lemma ElseBoundary(run: Interpreter, np: Np, trace: Trace)
    requires Boundary(np)
    ensures np.Valid() && np.scripted && np.fpos >= 0
    ensures var r := Apply(run, np, ["else"], trace); r.Ends? ==> Boundary(r.np) && r.np.fpos == np.fpos + 1
  {
    ApplyElse(run, np, trace);
    hide Apply;
  }

  lemma {:induction false} ElseFollows(
    run: Interpreter, code: seq<Words>, hasElse: bool, els: Prog, np: Np, trace: Trace, fuel: nat)
    returns (n: nat)
    requires Boundary(np) && WellFormed(els) && Holds(code, np.fpos, FlattenElse(hasElse, els))
    ensures Follows(run, code, np, trace, n, BigElse(run, hasElse, els, np, trace, fuel), fuel)
    decreases fuel, els, 5
  {
    hide Apply, Big, Follows, Flatten, Boundary, Holds;
    ElseBoundary(run, np, trace);
    if hasElse {
      HoldsParts(code, np.fpos, [["else"]], Flatten(els));
      var s := Apply(run, np, ["else"], trace);
      if s.Ends? {
        n := BigIsJump(run, code, els, s.np, s.trace, fuel);
        FollowsStep(run, code, np, ["else"], trace, n, Big(run, els, s.np, s.trace, fuel), fuel);
        n := n + 1;
      } else {
        FollowsStep(run, code, np, ["else"], trace, 0, s, fuel);
        n := 1;
      }
    } else {
      FollowsNothing(run, code, np, trace);
      n := 0;
    }
  }

  lemma {:induction false} FiFollows(run: Interpreter, code: seq<Words>, next: Prog, np: Np, trace: Trace, fuel: nat)
    returns (n: nat)
    requires Boundary(np) && WellFormed(next) && Holds(code, np.fpos, [["fi"]]) && Holds(code, np.fpos + 1, Flatten(next))
    ensures Follows(run, code, np, trace, n,
      (var (n1, t1) :- Apply(run, np, ["fi"], trace); Big(run, next, n1, t1, fuel)), fuel)
    decreases fuel, next, 5
  {
    ApplyFi(run, np, trace);
    hide Apply, Big, Follows, Flatten;
    var s := Apply(run, np, ["fi"], trace);
    if s.Ends? {
      n := BigIsJump(run, code, next, s.np, s.trace, fuel);
      FollowsStep(run, code, np, ["fi"], trace, n, Big(run, next, s.np, s.trace, fuel), fuel);
      n := n + 1;
    } else {
      FollowsStep(run, code, np, ["fi"], trace, 0, s, fuel);
      n := 1;
    }
  }

  // ----- Whole scripts -----

  lemma {:induction false} StaysStopped(run: Interpreter, code: seq<Words>, c: Config, n: nat)
    requires c.np.Valid() && c.Stopped?
    ensures Jumps(run, code, c, n) == c
    decreases n
  {
    if n > 0 { StaysStopped(run, code, c, n - 1); }
  }

  /** How a script that ends this way leaves the machine. */
  function Final(r: Result): Config
    requires !r.NoFuel?
  {
    Stopped(r.Ends?, r.np, r.trace)
  }

  /** The machine stops, in `n` steps or fewer. */
  lemma BigStops(run: Interpreter, p: Prog, np: Np, trace: Trace, fuel: nat) returns (n: nat)
    requires Boundary(np) && np.fpos == 0 && WellFormed(p)
    ensures var r := Big(run, p, np, trace, fuel);
      if r.NoFuel? then n > fuel && Jumps(run, Flatten(p), Running(np, trace), n).Running?
      else Jumps(run, Flatten(p), Running(np, trace), n) == Final(r)
  {
    hide Big, Flatten, Jumps, Jump, LoopFrame;
    var code := Flatten(p);
    assert Holds(code, 0, code);
    hide Holds;
    n := BigIsJump(run, code, p, np, trace, fuel);
    BigFrame(run, p, np, trace, fuel);
    var r := Big(run, p, np, trace, fuel);
    if r.Ends? {
      JumpEnd(run, code, r.np, r.trace);
      JumpsAdd(run, code, Running(np, trace), n, 1);
      n := n + 1;
    }
  }

  lemma JumpEnd(run: Interpreter, code: seq<Words>, np: Np, trace: Trace)
    requires np.Valid() && np.fpos == |code|
    ensures Jumps(run, code, Running(np, trace), 1) == Stopped(true, np, trace)
  {
    var c := Running(np, trace);
    assert Jump(run, code, c) == Stopped(true, np, trace);
    hide Jump;
    assert Jumps(run, code, Jump(run, code, c), 0) == Jump(run, code, c);
  }

  /** The machine stops exactly when the program does, with the same status,
      state and trace: a script that loops for ever is not missed either. */
  lemma ScriptExactly(run: Interpreter, p: Prog, np: Np, trace: Trace, c: Config)
    requires Boundary(np) && np.fpos == 0 && WellFormed(p) && c.Stopped?
    ensures (exists n: nat :: Jumps(run, Flatten(p), Running(np, trace), n) == c)
       <==> (exists fuel: nat :: !Big(run, p, np, trace, fuel).NoFuel? && Final(Big(run, p, np, trace, fuel)) == c)
  {
    hide Jump, Big, Flatten, Jumps;
    var code, c0 := Flatten(p), Running(np, trace);
    if fuel: nat :| !Big(run, p, np, trace, fuel).NoFuel? && Final(Big(run, p, np, trace, fuel)) == c {
      var n := BigStops(run, p, np, trace, fuel);
    }
    if n: nat :| Jumps(run, code, c0, n) == c {
      var m := BigStops(run, p, np, trace, n);
      if n <= m {
        JumpsAdd(run, code, c0, n, m - n);
        StaysStopped(run, code, c, m - n);
      } else {
        JumpsAdd(run, code, c0, m, n - m);
        StaysStopped(run, code, Jumps(run, code, c0, m), n - m);
      }
    }
  }
}
