/** Structured programs, the command list they are written as, and what the
    parser does to them.

    The parser never sees a program, only one command after the other; a loop
    is a jump back to a remembered position.  `Jump` below is that machine for
    a list of commands.  `Big` reads the same commands off the tree.  The two
    agree on every structured program whatsoever (`BigIsJump`), so that the
    questions about the parser can be asked about `Big`.
 */
module NshProgram {
  import opened NshState

  datatype Prog =
    | Nop
    | Cmd(words: Words, next: Prog)
    | Quit(next: Prog)
    | Choose(cond: Words, thn: Prog, hasElse: bool, els: Prog, next: Prog)
    | Repeat(until: bool, cond: Words, body: Prog, next: Prog)

  /** Commands and conditions are simple commands; `break` has its own node. */
  predicate WellFormed(p: Prog) {
    match p
    case Nop => true
    case Cmd(w, next) => Simple(w) && WellFormed(next)
    case Quit(next) => WellFormed(next)
    case Choose(c, thn, hasElse, els, next) =>
      Simple(c) && WellFormed(thn) && (hasElse || els == Nop) && WellFormed(els) && WellFormed(next)
    case Repeat(_, c, body, next) =>
      Simple(c) && WellFormed(body) && WellFormed(next)
  }

  function LoopWord(until: bool): string {
    if until then "until" else "while"
  }

  /** The commands of a program, one keyword or simple command each. */
  function Flatten(p: Prog): seq<Words>
    decreases p, 0
  {
    match p
    case Nop => []
    case Cmd(w, next) => [w] + Flatten(next)
    case Quit(next) => [["break"]] + Flatten(next)
    case Choose(c, thn, hasElse, els, next) =>
      [["if"] + c] + ([["then"]] + (Flatten(thn) + (FlattenElse(hasElse, els) + ([["fi"]] + Flatten(next)))))
    case Repeat(until, c, body, next) =>
      [[LoopWord(until)] + c] + ([["do"]] + (Flatten(body) + ([["done"]] + Flatten(next))))
  }

  function FlattenElse(hasElse: bool, els: Prog): seq<Words>
    decreases els, 1
  {
    if hasElse then [["else"]] + Flatten(els) else []
  }

  // ----- The jump machine -----

  /** Running, or stopped with the status of the script. */
  datatype Config = Running(np: Np, trace: Trace) | Stopped(ok: bool, np: Np, trace: Trace)

  /** The state in which the command at the current position is parsed. */
  function Fetch(np: Np): (r: Np)
    requires np.Valid()
    ensures r.Valid()
  {
    np.(foffs := np.fpos, loffs := 0, fpos := np.fpos + 1, jump := false)
  }

  function One(run: Interpreter, np: Np, words: Words, trace: Trace): (o: Outcome)
    requires np.Valid()
    ensures o.np.Valid() && |o.np.lp| == |np.lp| && trace <= o.trace
  {
    ParseCommand(run, Fetch(np), words, trace)
  }

  function Settle(o: Outcome): Config {
    if o.ok then Running(o.np, o.trace) else Stopped(false, o.np, o.trace)
  }

  function Jump(run: Interpreter, code: seq<Words>, c: Config): (r: Config)
    requires c.np.Valid()
    ensures r.np.Valid()
  {
    match c
    case Stopped(_, _, _) => c
    case Running(np, trace) =>
      if 0 <= np.fpos < |code| then Settle(One(run, np, code[np.fpos], trace))
      else Stopped(true, np, trace)
  }

  function Jumps(run: Interpreter, code: seq<Words>, c: Config, n: nat): (r: Config)
    requires c.np.Valid()
    ensures r.np.Valid()
    decreases n
  {
    if n == 0 then c else Jumps(run, code, Jump(run, code, c), n - 1)
  }

  lemma {:induction false} JumpsAdd(run: Interpreter, code: seq<Words>, c: Config, m: nat, n: nat)
    requires c.np.Valid()
    ensures Jumps(run, code, c, m + n) == Jumps(run, code, Jumps(run, code, c, m), n)
    decreases m
  {
    hide Jump;
    if m > 0 {
      JumpsAdd(run, code, Jump(run, code, c), m - 1, n);
    }
  }

  // ----- The same run, read off the tree -----

  datatype Result = Ends(np: Np, trace: Trace) | Stops(np: Np, trace: Trace) | NoFuel(np: Np, trace: Trace)
  {
    predicate IsFailure() { !Ends? }

    function PropagateFailure(): Result
      requires IsFailure()
    { this }

    function Extract(): (Np, Trace)
      requires !IsFailure()
    { (np, trace) }

    function AsConfig(): Config {
      match this
      case Ends(np, trace) => Running(np, trace)
      case Stops(np, trace) => Stopped(false, np, trace)
      case NoFuel(np, trace) => Running(np, trace)
    }
  }

  function Apply(run: Interpreter, np: Np, words: Words, trace: Trace): (r: Result)
    requires np.Valid()
    ensures r.np.Valid() && !r.NoFuel? && trace <= r.trace
  {
    var o := One(run, np, words, trace);
    if o.ok then Ends(o.np, o.trace) else Stops(o.np, o.trace)
  }

  /** `fuel` bounds how often each loop jumps back. */
  function Big(run: Interpreter, p: Prog, np: Np, trace: Trace, fuel: nat): (r: Result)
    requires np.Valid()
    ensures r.np.Valid() && trace <= r.trace
    decreases fuel, p, 0
  {
    hide Apply;
    match p
    case Nop => Ends(np, trace)
    case Cmd(w, next) =>
      var (n1, t1) :- Apply(run, np, w, trace);
      Big(run, next, n1, t1, fuel)
    case Quit(next) =>
      var (n1, t1) :- Apply(run, np, ["break"], trace);
      Big(run, next, n1, t1, fuel)
    case Choose(c, thn, hasElse, els, next) =>
      var (n1, t1) :- Apply(run, np, ["if"] + c, trace);
      var (n2, t2) :- Apply(run, n1, ["then"], t1);
      var (n3, t3) :- Big(run, thn, n2, t2, fuel);
      var (n4, t4) :- BigElse(run, hasElse, els, n3, t3, fuel);
      var (n5, t5) :- Apply(run, n4, ["fi"], t4);
      Big(run, next, n5, t5, fuel)
    case Repeat(until, c, body, next) =>
      var (n1, t1) :- Apply(run, np, [LoopWord(until)] + c, trace);
      var (n2, t2) :- Apply(run, n1, ["do"], t1);
      var (n3, t3) :- Big(run, body, n2, t2, fuel);
      var (n4, t4) :- Apply(run, n3, ["done"], t3);
      if !n4.jump then Big(run, next, n4, t4, fuel)
      else if fuel == 0 then NoFuel(n4, t4)
      else Big(run, p, n4, t4, fuel - 1)
  }

  function BigElse(run: Interpreter, hasElse: bool, els: Prog, np: Np, trace: Trace, fuel: nat): (r: Result)
    requires np.Valid()
    ensures r.np.Valid() && trace <= r.trace
    decreases fuel, els, 1
  {
    if hasElse then
      var (n1, t1) :- Apply(run, np, ["else"], trace);
      Big(run, els, n1, t1, fuel)
    else
      Ends(np, trace)
  }

  // ----- What holds between two commands of a structured program -----

  /** No condition is being waited for, on any level. */
  predicate Boundary(np: Np) {
    && np.Valid()
    && np.scripted && np.fpos >= 0
    && !np.InLoopHeader()
    && forall i :: 0 <= i < |np.ie| ==> np.ie[i].state != ItefIf
  }

  // The effect of each command of a structured program, in closed form.

  lemma ApplyCmd(run: Interpreter, np: Np, w: Words, trace: Trace)
    requires Boundary(np) && Simple(w)
    ensures var call := Call(Clip(w), np.fail);
      Apply(run, np, w, trace) ==
        if !np.CmdEnabled() then Ends(Fetch(np), trace)
        else if run(trace, call) then Stops(Fetch(np).(fail := true), trace + [call])
        else Ends(Fetch(np).(fail := false), trace + [call])
  {
  }

  /** The state after an enabled `break`. */
  function Broken(np: Np): (r: Np)
    requires Boundary(np)
    ensures Boundary(r)
  {
    BreakStep(Fetch(np)).(fail := false)
  }

  lemma ApplyBreak(run: Interpreter, np: Np, trace: Trace)
    requires Boundary(np)
    ensures Apply(run, np, ["break"], trace) == Ends(if np.CmdEnabled() then Broken(np) else Fetch(np), trace)
  {
    assert KindOf("break") == Break;
  }

  /** The condition of a loop or an `if`: run it if `enabled`. */
  datatype Test = Test(failed: bool, fail: bool, trace: Trace)

  function Tested(run: Interpreter, np: Np, enabled: bool, c: Words, trace: Trace): Test {
    var call := Call(Clip(c), np.fail);
    if enabled then Test(run(trace, call), false, trace + [call]) else Test(false, np.fail, trace)
  }

  /** The state after the condition of an `if`. */
  function AfterIf(run: Interpreter, np: Np, c: Words, trace: Trace): (r: Np)
    requires Boundary(np) && np.iendx < |np.ie| - 1
    ensures r.Valid()
  {
    var t := Tested(run, np, np.CmdEnabled(), c, trace);
    Fetch(np).(fail := t.fail, iendx := np.iendx + 1,
               ie := np.ie[np.iendx + 1 := ItefLevel(ItefIf, !np.CmdEnabled(), t.failed)])
  }

  lemma ApplyIf(run: Interpreter, np: Np, c: Words, trace: Trace)
    requires Boundary(np) && Simple(c)
    ensures var r := Apply(run, np, ["if"] + c, trace);
      if np.iendx >= |np.ie| - 1 then r.Stops? && r.trace == trace
      else r == Ends(AfterIf(run, np, c, trace), Tested(run, np, np.CmdEnabled(), c, trace).trace)
  {
    assert KindOf("if") == If && KindOf(c[0]) == Plain;
    var w := ["if"] + c;
    assert w[0] == "if" && w[1..] == c;
    hide KindOf;
    var np0 := Fetch(np);
    assert LoopStep(np0, w) == Go(np0, w);
    if np.iendx < |np.ie| - 1 {
      var np1 := np0.(iendx := np.iendx + 1, ie := np.ie[np.iendx + 1 := ItefLevel(ItefIf, !np.CmdEnabled(), false)]);
      assert ItefStep(np0, w) == Go(np1, c);
      hide LoopStep, ItefStep;
      assert Apply(run, np, w, trace) == Sort(Dispatch(run, np1, c, trace));
      hide Apply;
      DispatchIf(run, np, np1, c, trace);
    }
  }

  function Sort(o: Outcome): Result {
    if o.ok then Ends(o.np, o.trace) else Stops(o.np, o.trace)
  }

  lemma DispatchIf(run: Interpreter, np: Np, np1: Np, c: Words, trace: Trace)
    requires Boundary(np) && Simple(c) && np.iendx < |np.ie| - 1
    requires np1 == Fetch(np).(iendx := np.iendx + 1,
                               ie := np.ie[np.iendx + 1 := ItefLevel(ItefIf, !np.CmdEnabled(), false)])
    ensures Dispatch(run, np1, c, trace)
         == Outcome(true, AfterIf(run, np, c, trace), Tested(run, np, np.CmdEnabled(), c, trace).trace)
  {
    assert np1.CmdEnabled() == np.CmdEnabled();
    if np.CmdEnabled() {
      var failed := run(trace, Call(Clip(c), np.fail));
      assert SaveResult(np1, failed).0.ie == AfterIf(run, np, c, trace).ie;
    }
  }

  /** The state after "if" and "then". */
  function InThen(run: Interpreter, np: Np, c: Words, trace: Trace): (r: Np)
    requires Boundary(np) && np.iendx < |np.ie| - 1
    ensures Boundary(r) && r.Valid() && r.fpos == np.fpos + 2
  {
    var t := Tested(run, np, np.CmdEnabled(), c, trace);
    Fetch(Fetch(np)).(fail := t.fail, iendx := np.iendx + 1,
                      ie := np.ie[np.iendx + 1 := ItefLevel(ItefThen, !np.CmdEnabled(), t.failed)])
  }

  lemma ApplyThen(run: Interpreter, np: Np, c: Words, trace: Trace, trace': Trace)
    requires Boundary(np) && np.iendx < |np.ie| - 1
    ensures Apply(run, AfterIf(run, np, c, trace), ["then"], trace') == Ends(InThen(run, np, c, trace), trace')
  {
    assert KindOf("then") == Then && ["then"][1..] == [];
    hide KindOf;
    var np1 := Fetch(AfterIf(run, np, c, trace));
    assert np1.ie[np1.iendx := np1.Itef().(state := ItefThen)] == InThen(run, np, c, trace).ie;
  }

  lemma ApplyElse(run: Interpreter, np: Np, trace: Trace)
    requires Boundary(np)
    ensures var r := Apply(run, np, ["else"], trace);
      if np.Itef().state == ItefThen
      then r == Ends(Fetch(np).(ie := np.ie[np.iendx := np.Itef().(state := ItefElse)]), trace)
      else r.Stops? && r.trace == trace
  {
    assert KindOf("else") == Else && ["else"][1..] == [];
    hide KindOf;
    var np0 := Fetch(np);
    assert LoopStep(np0, ["else"]) == Go(np0, ["else"]);
    hide LoopStep;
  }

  lemma ApplyFi(run: Interpreter, np: Np, trace: Trace)
    requires Boundary(np)
    ensures var r := Apply(run, np, ["fi"], trace);
      if np.Itef().InBranch() && np.iendx >= 1
      then r == Ends(Fetch(np).(iendx := np.iendx - 1), trace)
      else r.Stops? && r.trace == trace
  {
    assert KindOf("fi") == Fi && ["fi"][1..] == [];
    hide KindOf;
    var np0 := Fetch(np);
    assert LoopStep(np0, ["fi"]) == Go(np0, ["fi"]);
    hide LoopStep;
  }

  /** The state after the condition of a loop.  The condition is run whenever
      the `if` levels allow it, whatever the enclosing loop says. */
  function AfterLoop(run: Interpreter, np: Np, until: bool, c: Words, trace: Trace): (r: Np)
    requires Boundary(np) && np.lpndx < |np.lp| - 1
    ensures r.Valid()
  {
    var t := Tested(run, np, np.ItefEnabled(), c, trace);
    var enable := np.ItefEnabled() && t.failed == until;
    var state := if until then LoopUntil else LoopWhile;
    Fetch(np).(fail := t.fail, lpndx := np.lpndx + 1,
               lp := np.lp[np.lpndx + 1 := LoopLevel(state, enable, np.iendx, np.fpos)])
  }

  lemma ApplyLoop(run: Interpreter, np: Np, until: bool, c: Words, trace: Trace)
    requires Boundary(np) && Simple(c)
    ensures var r := Apply(run, np, [LoopWord(until)] + c, trace);
      if np.lpndx >= |np.lp| - 1 then r.Stops? && r.trace == trace
      else r == Ends(AfterLoop(run, np, until, c, trace), Tested(run, np, np.ItefEnabled(), c, trace).trace)
  {
    var w := [LoopWord(until)] + c;
    assert KindOf(w[0]) == (if until then Until else While) && KindOf(c[0]) == Plain;
    assert w[1..] == c;
    hide KindOf;
    var np0 := Fetch(np);
    if np.lpndx < |np.lp| - 1 {
      var np1 := PushLoop(np0, if until then LoopUntil else LoopWhile);
      assert LoopStep(np0, w) == Go(np1, c);
      assert ItefStep(np1, c) == Go(np1, c);
      hide LoopStep, ItefStep;
      assert Apply(run, np, w, trace) == Sort(Dispatch(run, np1, c, trace));
      hide Apply;
      DispatchTest(run, np, until, c, trace);
    }
  }

  lemma DispatchTest(run: Interpreter, np: Np, until: bool, c: Words, trace: Trace)
    requires Boundary(np) && Simple(c) && np.lpndx < |np.lp| - 1
    ensures Dispatch(run, PushLoop(Fetch(np), if until then LoopUntil else LoopWhile), c, trace)
         == Outcome(true, AfterLoop(run, np, until, c, trace), Tested(run, np, np.ItefEnabled(), c, trace).trace)
  {
    var np1 := PushLoop(Fetch(np), if until then LoopUntil else LoopWhile);
    assert np1.CmdEnabled() == np.ItefEnabled();
    if np.ItefEnabled() {
      var failed := run(trace, Call(Clip(c), np.fail));
      assert SaveResult(np1, failed).0.lp == AfterLoop(run, np, until, c, trace).lp;
    }
  }

  /** The state after "while" or "until" and "do". */
  function InDo(run: Interpreter, np: Np, until: bool, c: Words, trace: Trace): (r: Np)
    requires Boundary(np) && np.lpndx < |np.lp| - 1
    ensures Boundary(r) && r.Valid() && r.fpos == np.fpos + 2
  {
    var np1 := AfterLoop(run, np, until, c, trace);
    Fetch(np1).(lp := np.lp[np.lpndx + 1 := np1.Loop().(state := LoopDo)])
  }

  lemma ApplyDo(run: Interpreter, np: Np, until: bool, c: Words, trace: Trace, trace': Trace)
    requires Boundary(np) && np.lpndx < |np.lp| - 1
    ensures Apply(run, AfterLoop(run, np, until, c, trace), ["do"], trace')
              == Ends(InDo(run, np, until, c, trace), trace')
  {
    assert KindOf("do") == Do && ["do"][1..] == [];
    hide KindOf;
    var np1 := Fetch(AfterLoop(run, np, until, c, trace));
    assert np1.lp[np1.lpndx := np1.Loop().(state := LoopDo)] == InDo(run, np, until, c, trace).lp;
  }

  lemma ApplyDone(run: Interpreter, np: Np, trace: Trace)
    requires Boundary(np) && np.lpndx >= 1 && np.Loop().state == LoopDo
    ensures Apply(run, np, ["done"], trace) == Ends(PopLoop(Fetch(np)), trace)
  {
    assert KindOf("done") == Done && ["done"][1..] == [];
  }

  // ----- `Big` on the two compound statements, with the headers evaluated -----

  lemma BigChoose(run: Interpreter, p: Prog, np: Np, trace: Trace, fuel: nat)
    requires Boundary(np) && p.Choose? && Simple(p.cond)
    ensures var r := Big(run, p, np, trace, fuel);
      if np.iendx >= |np.ie| - 1 then r.Stops? && r.trace == trace && r == Apply(run, np, ["if"] + p.cond, trace)
      else
        r == (var (n3, t3) :- Big(run, p.thn, InThen(run, np, p.cond, trace),
                                  Tested(run, np, np.CmdEnabled(), p.cond, trace).trace, fuel);
              var (n4, t4) :- BigElse(run, p.hasElse, p.els, n3, t3, fuel);
              var (n5, t5) :- Apply(run, n4, ["fi"], t4);
              Big(run, p.next, n5, t5, fuel))
  {
    ApplyIf(run, np, p.cond, trace);
    if np.iendx < |np.ie| - 1 {
      ApplyThen(run, np, p.cond, trace, Tested(run, np, np.CmdEnabled(), p.cond, trace).trace);
    }
    hide Apply;
  }

  /** What follows "done". */
  function Again(run: Interpreter, p: Prog, np: Np, trace: Trace, fuel: nat): (r: Result)
    requires p.Repeat? && np.Valid()
    ensures r.np.Valid() && trace <= r.trace
  {
    if !np.jump then Big(run, p.next, np, trace, fuel)
    else if fuel == 0 then NoFuel(np, trace)
    else Big(run, p, np, trace, fuel - 1)
  }

  lemma BigRepeat(run: Interpreter, p: Prog, np: Np, trace: Trace, fuel: nat)
    requires Boundary(np) && p.Repeat? && Simple(p.cond)
    ensures var r := Big(run, p, np, trace, fuel);
      if np.lpndx >= |np.lp| - 1 then
        r.Stops? && r.trace == trace && r == Apply(run, np, [LoopWord(p.until)] + p.cond, trace)
      else
        r == (var (n3, t3) :- Big(run, p.body, InDo(run, np, p.until, p.cond, trace),
                                  Tested(run, np, np.ItefEnabled(), p.cond, trace).trace, fuel);
              var (n4, t4) :- Apply(run, n3, ["done"], t3);
              Again(run, p, n4, t4, fuel))
  {
    hide Apply, KindOf, Tested, InDo, Np.ItefEnabled;
    ApplyLoop(run, np, p.until, p.cond, trace);
    if np.lpndx < |np.lp| - 1 {
      ApplyDo(run, np, p.until, p.cond, trace, Tested(run, np, np.ItefEnabled(), p.cond, trace).trace);
    }
  }

  // ----- Every structured program keeps its shape -----

  /** The loop stack is as it was, but for the enable bit of its top. */
  predicate LoopFrame(a: Np, b: Np)
    requires a.Valid() && b.Valid()
  {
    && |a.lp| == |b.lp|
    && a.lpndx == b.lpndx
    && (forall i :: 0 <= i < a.lpndx ==> a.lp[i] == b.lp[i])
    && a.Loop().(enable := b.Loop().enable) == b.Loop()
  }

  lemma RepeatLength(p: Prog)
    requires p.Repeat?
    ensures |Flatten(p)| == 3 + |Flatten(p.body)| + |Flatten(p.next)|
  {
  }

  lemma FrameTrans(a: Np, b: Np, c: Np)
    requires a.Valid() && b.Valid() && c.Valid() && LoopFrame(a, b)
    ensures LoopFrame(b, c) ==> LoopFrame(a, c)
  {
  }

  /** "done" after a body that kept the loop stack. */
  lemma DoneFrame(run: Interpreter, np: Np, until: bool, c: Words, trace: Trace, n3: Np)
    requires Boundary(np) && np.lpndx < |np.lp| - 1
    requires Boundary(n3) && LoopFrame(InDo(run, np, until, c, trace), n3)
    ensures n3.lpndx >= 1 && n3.Loop().state == LoopDo
    ensures var n4 := PopLoop(Fetch(n3));
      Boundary(n4) && LoopFrame(np, n4) && n4.fpos == (if n4.jump then np.fpos else n3.fpos + 1)
  {
  }

  /** What a program that ends promises about the loop stack and the position. */
  predicate Framed(p: Prog, np: Np, r: Result)
    requires np.Valid() && r.np.Valid()
  {
    r.Ends? ==> Boundary(r.np) && LoopFrame(np, r.np) && r.np.fpos == np.fpos + |Flatten(p)|
  }

  /** The rest of a program. */
  lemma FramedRest(p: Prog, q: Prog, np: Np, n1: Np, r: Result)
    requires np.Valid() && n1.Valid() && r.np.Valid() && LoopFrame(np, n1)
    requires Framed(q, n1, r) && n1.fpos + |Flatten(q)| == np.fpos + |Flatten(p)|
    ensures Framed(p, np, r)
  {
    hide Flatten, Boundary;
    FrameTrans(np, n1, r.np);
  }

  /** A program that ends leaves every loop level as it found it, whatever
      `break` did on the way, and the position just past its last command. */
  lemma {:induction false} BigFrame(run: Interpreter, p: Prog, np: Np, trace: Trace, fuel: nat)
    requires Boundary(np) && WellFormed(p)
    ensures Framed(p, np, Big(run, p, np, trace, fuel))
    decreases fuel, p, 2
  {
    match p
    case Nop =>
    case Cmd(w, next) =>
      hide Apply, LoopFrame, Framed;
      ApplyCmd(run, np, w, trace);
      MoveFrame(np);
      var r := Apply(run, np, w, trace);
      if r.Ends? {
        BigFrame(run, next, r.np, r.trace, fuel);
        FramedRest(p, next, np, r.np, Big(run, next, r.np, r.trace, fuel));
      } else {
        FramedStop(p, np, r);
      }
    case Quit(next) =>
      hide Apply, LoopFrame, Framed;
      ApplyBreak(run, np, trace);
      MoveFrame(np);
      var r := Apply(run, np, ["break"], trace);
      BigFrame(run, next, r.np, r.trace, fuel);
      FramedRest(p, next, np, r.np, Big(run, next, r.np, r.trace, fuel));
    case Choose(c, thn, hasElse, els, next) =>
      BigFrameChoose(run, p, np, trace, fuel);
    case Repeat(until, c, body, next) =>
      BigFrameRepeat(run, p, np, trace, fuel);
  }

  lemma FramedStop(p: Prog, np: Np, r: Result)
    requires np.Valid() && r.np.Valid() && !r.Ends?
    ensures Framed(p, np, r)
  {
  }

  lemma MoveFrame(np: Np)
    requires Boundary(np)
    ensures LoopFrame(np, Fetch(np)) && LoopFrame(np, Broken(np))
    ensures LoopFrame(np, Fetch(np).(fail := false))
  {
  }

  lemma {:induction false} BigFrameElse(run: Interpreter, hasElse: bool, els: Prog, np: Np, trace: Trace, fuel: nat)
    requires Boundary(np) && WellFormed(els)
    ensures var r := BigElse(run, hasElse, els, np, trace, fuel);
      r.Ends? ==> Boundary(r.np) && LoopFrame(np, r.np) && r.np.fpos == np.fpos + |FlattenElse(hasElse, els)|
    decreases fuel, els, 3
  {
    ApplyElse(run, np, trace);
    hide Apply;
    var r := Apply(run, np, ["else"], trace);
    if hasElse && r.Ends? { BigFrame(run, els, r.np, r.trace, fuel); }
  }

  lemma {:induction false} BigFrameChoose(run: Interpreter, p: Prog, np: Np, trace: Trace, fuel: nat)
    requires Boundary(np) && WellFormed(p) && p.Choose?
    ensures Framed(p, np, Big(run, p, np, trace, fuel))
    decreases fuel, p, 1
  {
    var Choose(c, thn, hasElse, els, next) := p;
    BigChoose(run, p, np, trace, fuel);
    assert |Flatten(p)| == 3 + |Flatten(thn)| + |FlattenElse(hasElse, els)| + |Flatten(next)|;
    hide Apply, Big, BigElse, Flatten, FlattenElse;
    if np.iendx < |np.ie| - 1 {
      var t := Tested(run, np, np.CmdEnabled(), c, trace).trace;
      var n2 := InThen(run, np, c, trace);
      assert LoopFrame(np, n2) && n2.fpos == np.fpos + 2;
      hide InThen, Tested;
      BigFrame(run, thn, n2, t, fuel);
      var r3 := Big(run, thn, n2, t, fuel);
      if r3.Ends? {
        BigFrameElse(run, hasElse, els, r3.np, r3.trace, fuel);
        var r4 := BigElse(run, hasElse, els, r3.np, r3.trace, fuel);
        FrameTrans(np, n2, r3.np);
        FrameTrans(np, r3.np, r4.np);
        if r4.Ends? { FiFrame(run, p, np, r4.np, r4.trace, fuel); }
      }
    }
  }

  lemma {:induction false} FiFrame(run: Interpreter, p: Prog, np: Np, n4: Np, trace: Trace, fuel: nat)
    requires Boundary(np) && WellFormed(p) && p.Choose?
    requires Boundary(n4) && LoopFrame(np, n4)
    requires n4.fpos == np.fpos + 2 + |Flatten(p.thn)| + |FlattenElse(p.hasElse, p.els)|
    ensures var r := Apply(run, n4, ["fi"], trace);
      r.Ends? ==> Framed(p, np, Big(run, p.next, r.np, r.trace, fuel))
    decreases fuel, p, 0
  {
    assert |Flatten(p)| == 3 + |Flatten(p.thn)| + |FlattenElse(p.hasElse, p.els)| + |Flatten(p.next)|;
    ApplyFi(run, n4, trace);
    hide Apply, Big, Flatten;
    var r := Apply(run, n4, ["fi"], trace);
    if r.Ends? {
      BigFrame(run, p.next, r.np, r.trace, fuel);
      assert LoopFrame(np, r.np);
      FrameTrans(np, r.np, Big(run, p.next, r.np, r.trace, fuel).np);
    }
  }

  lemma {:induction false} BigFrameRepeat(run: Interpreter, p: Prog, np: Np, trace: Trace, fuel: nat)
    requires Boundary(np) && WellFormed(p) && p.Repeat?
    ensures Framed(p, np, Big(run, p, np, trace, fuel))
    decreases fuel, p, 1
  {
    var Repeat(until, c, body, next) := p;
    hide Apply, Big, Flatten, InDo, Fetch, PopLoop, Again, LoopFrame;
    RepeatLength(p);
    BigRepeat(run, p, np, trace, fuel);
    if np.lpndx < |np.lp| - 1 {
      var t := Tested(run, np, np.ItefEnabled(), c, trace).trace;
      var n2 := InDo(run, np, until, c, trace);
      BigFrame(run, body, n2, t, fuel);
      var r3 := Big(run, body, n2, t, fuel);
      if r3.Ends? {
        DoneFrame(run, np, until, c, trace, r3.np);
        ApplyDone(run, r3.np, r3.trace);
        AgainFrame(run, p, np, PopLoop(Fetch(r3.np)), r3.trace, fuel);
      }
    }
  }

  lemma {:induction false} AgainFrame(run: Interpreter, p: Prog, np: Np, n4: Np, trace: Trace, fuel: nat)
    requires Boundary(np) && WellFormed(p) && p.Repeat?
    requires Boundary(n4) && LoopFrame(np, n4)
    requires n4.fpos == if n4.jump then np.fpos else np.fpos + 3 + |Flatten(p.body)|
    ensures Framed(p, np, Again(run, p, n4, trace, fuel))
    decreases fuel, p, 0
  {
    hide Apply, Big, Flatten, LoopFrame, Framed;
    RepeatLength(p);
    if !n4.jump {
      BigFrame(run, p.next, n4, trace, fuel);
      FramedRest(p, p.next, np, n4, Big(run, p.next, n4, trace, fuel));
    } else if fuel > 0 {
      BigFrame(run, p, n4, trace, fuel - 1);
      FramedRest(p, p, np, n4, Big(run, p, n4, trace, fuel - 1));
    } else {
      FramedStop(p, np, NoFuel(n4, trace));
    }
  }
}
