/** Levels of the `if` stack above those in use are never looked at before they
    are written, so that what an earlier syntax error left there does not matter. */
module NshStale {
  import opened Numbers
  import opened NshState
  import opened NshProgram
  import opened NshText

  /** The same state, but for `if` levels above h, which no level in use and no
      `break` reaches. */
  predicate Alike(a: Np, b: Np, h: nat) {
    && a.Valid() && b.Valid() && b == a.(ie := b.ie)
    && a.iendx <= h < |a.ie| && (forall j :: 0 <= j <= a.lpndx ==> a.lp[j].iendx <= h)
    && forall i :: 0 <= i <= h ==> a.ie[i] == b.ie[i]
  }

  lemma AlikeValid(a: Np, b: Np, h: nat)
    requires Alike(a, b, h)
    ensures a.Valid() && b.Valid() && b == a.(ie := b.ie)
    ensures a.Itef() == b.Itef() && a.CmdEnabled() == b.CmdEnabled()
  {
  }

  lemma SaveAlike(a: Np, b: Np, h: nat, failed: bool)
    requires Alike(a, b, h)
    ensures SaveResult(a, failed).1 == SaveResult(b, failed).1
    ensures Alike(SaveResult(a, failed).0, SaveResult(b, failed).0, h)
  {
    EnableAlike(a, b, h, failed);
    EnableAlike(a, b, h, !failed);
    CondAlike(a, b, h, failed);
    FailAlike(a, b, h, failed);
    AlikeValid(a, b, h);
    hide Alike;
  }

  lemma EnableAlike(a: Np, b: Np, h: nat, enable: bool)
    requires Alike(a, b, h)
    ensures var lp := a.lp[a.lpndx := a.Loop().(enable := enable)];
      Alike(a.(fail := false, lp := lp), b.(fail := false, lp := lp), h)
  {
  }

  lemma CondAlike(a: Np, b: Np, h: nat, failed: bool)
    requires Alike(a, b, h)
    ensures Alike(a.(fail := false, ie := a.ie[a.iendx := a.Itef().(ifcond := failed)]),
                  b.(fail := false, ie := b.ie[b.iendx := b.Itef().(ifcond := failed)]), h)
  {
  }

  lemma FailAlike(a: Np, b: Np, h: nat, failed: bool)
    requires Alike(a, b, h)
    ensures Alike(a.(fail := failed), b.(fail := failed), h)
  {
  }

  lemma BreakAlike(a: Np, b: Np, h: nat)
    requires Alike(a, b, h)
    ensures Alike(BreakStep(a), BreakStep(b), h)
  {
  }

  lemma ResetAlike(a: Np, b: Np, h: nat)
    requires Alike(a, b, h)
    ensures Alike(LoopReset(a), LoopReset(b), h) && Alike(ItefReset(a), ItefReset(b), h)
  {
  }

  lemma PushAlike(a: Np, b: Np, h: nat, state: LoopState)
    requires Alike(a, b, h) && a.lpndx + 1 < |a.lp|
    ensures Alike(PushLoop(a, state), PushLoop(b, state), h)
  {
  }

  lemma PopAlike(a: Np, b: Np, h: nat)
    requires Alike(a, b, h) && a.lpndx > 0
    ensures Alike(PopLoop(a), PopLoop(b), h)
  {
  }

  lemma LoopAlike(a: Np, b: Np, h: nat, words: Words)
    requires Alike(a, b, h)
    ensures var ka, kb := LoopStep(a, words), LoopStep(b, words);
      ka.Go? == kb.Go? && Alike(ka.np, kb.np, h) && (ka.Go? ==> ka.rest == kb.rest)
  {
    hide KindOf, LoopReset, PushLoop, PopLoop, Alike, LoopAllowed, Np.InLoopHeader;
    AllowedAlike(a, b, h);
    ResetAlike(a, b, h);
    if a.lpndx + 1 < |a.lp| {
      PushAlike(a, b, h, LoopWhile);
      PushAlike(a, b, h, LoopUntil);
    }
    if a.lpndx > 0 { PopAlike(a, b, h); }
    DoAlike(a, b, h);
  }

  lemma AllowedAlike(a: Np, b: Np, h: nat)
    requires Alike(a, b, h)
    ensures a.Valid() && b.Valid() && b == a.(ie := b.ie)
    ensures LoopAllowed(a) == LoopAllowed(b) && a.InLoopHeader() == b.InLoopHeader()
    ensures LoopAllowed(a) ==> a.lpndx + 1 < |a.lp|
  {
    AlikeValid(a, b, h);
  }

  lemma DoAlike(a: Np, b: Np, h: nat)
    requires Alike(a, b, h)
    ensures var lp := a.lp[a.lpndx := a.Loop().(state := LoopDo)]; Alike(a.(lp := lp), b.(lp := lp), h)
  {
  }

  lemma ItefAlike(a: Np, b: Np, h: nat, words: Words)
    requires Alike(a, b, h)
    ensures var ka, kb := ItefStep(a, words), ItefStep(b, words);
      && ka.Go? == kb.Go? && (ka.Go? ==> ka.rest == kb.rest)
      && Alike(ka.np, kb.np, Max(h, ka.np.iendx))
  {
    AlikeValid(a, b, h);
    ResetAlike(a, b, h);
    NextAlike(a.ie, b.ie, a.iendx, h, a.CmdEnabled(), words);
    var o := ItefNext(a.ie, a.iendx, a.CmdEnabled(), words);
    if o.ItefGo? {
      var ib := ItefNext(b.ie, a.iendx, a.CmdEnabled(), words).ie;
      LevelsAlike(a, b, h, o.ie, ib, o.iendx);
    }
    hide ItefNext, ItefReset, Np.CmdEnabled, Alike;
  }

  lemma NextAlike(a: seq<ItefLevel>, b: seq<ItefLevel>, iendx: nat, h: nat, enabled: bool, words: Words)
    requires iendx <= h < |a| == |b| && forall i :: 0 <= i <= h ==> a[i] == b[i]
    ensures var oa, ob := ItefNext(a, iendx, enabled, words), ItefNext(b, iendx, enabled, words);
      && oa.ItefGo? == ob.ItefGo?
      && (oa.ItefGo? ==>
            && oa.iendx == ob.iendx && oa.rest == ob.rest
            && forall i :: 0 <= i <= Max(h, oa.iendx) ==> oa.ie[i] == ob.ie[i])
  {
    hide KindOf;
  }

  lemma LevelsAlike(a: Np, b: Np, h: nat, ia: seq<ItefLevel>, ib: seq<ItefLevel>, iendx: nat)
    requires Alike(a, b, h) && iendx < |a.ie| == |ia| == |ib|
    requires forall i :: 0 <= i <= Max(h, iendx) ==> ia[i] == ib[i]
    ensures Alike(a.(ie := ia, iendx := iendx), b.(ie := ib, iendx := iendx), Max(h, iendx))
  {
  }

  lemma ExecuteAlike(run: Interpreter, a: Np, b: Np, h: nat, words: Words, trace: Trace)
    requires Alike(a, b, h) && words != []
    ensures a.Valid() && b.Valid()
    ensures var oa, ob := Execute(run, a, words, trace), Execute(run, b, words, trace);
      oa.ok == ob.ok && oa.trace == ob.trace && Alike(oa.np, ob.np, h)
  {
    hide KindOf, SaveResult, BreakStep, Alike;
    AlikeValid(a, b, h);
    BreakAlike(a, b, h);
    SaveAlike(BreakStep(a), BreakStep(b), h, false);
    SaveAlike(a, b, h, run(trace, Call(Clip(words), a.fail)));
  }

  lemma DispatchAlike(run: Interpreter, a: Np, b: Np, h: nat, words: Words, trace: Trace)
    requires Alike(a, b, h)
    ensures a.Valid() && b.Valid()
    ensures var oa, ob := Dispatch(run, a, words, trace), Dispatch(run, b, words, trace);
      oa.ok == ob.ok && oa.trace == ob.trace && Alike(oa.np, ob.np, h)
  {
    hide Execute, Alike, Np.CmdEnabled;
    AlikeValid(a, b, h);
    if words != [] { ExecuteAlike(run, a, b, h, words, trace); }
  }

  lemma CommandAlike(run: Interpreter, a: Np, b: Np, h: nat, words: Words, trace: Trace) returns (h': nat)
    requires Alike(a, b, h)
    ensures a.Valid() && b.Valid()
    ensures var oa, ob := ParseCommand(run, a, words, trace), ParseCommand(run, b, words, trace);
      oa.ok == ob.ok && oa.trace == ob.trace && Alike(oa.np, ob.np, h')
  {
    hide LoopStep, ItefStep, Dispatch, SaveResult, Alike;
    AlikeValid(a, b, h);
    LoopAlike(a, b, h, words);
    h' := h;
    var la, lb := LoopStep(a, words), LoopStep(b, words);
    if la.Bad? {
      SaveAlike(la.np, lb.np, h, true);
    } else {
      ItefAlike(la.np, lb.np, h, la.rest);
      var ia, ib := ItefStep(la.np, la.rest), ItefStep(lb.np, la.rest);
      h' := Max(h, ia.np.iendx);
      if ia.Bad? {
        SaveAlike(ia.np, ib.np, h', true);
      } else {
        DispatchAlike(run, ia.np, ib.np, h', ia.rest, trace);
      }
    }
  }

  // ----- Words as they are read -----

  lemma CmdParmAlike(env: Env, a: Np, b: Np, h: nat, cmd: string, trace: Trace)
    requires Alike(a, b, h)
    ensures a.Valid() && b.Valid()
    ensures var oa, ob := CmdParm(env, a, cmd, trace), CmdParm(env, b, cmd, trace);
      oa.trace == ob.trace && Alike(oa.np, ob.np, h)
  {
    hide Tokens, Dispatch, Alike;
    AlikeValid(a, b, h);
    var words := Tokens(cmd);
    if words != [] {
      DispatchAlike(env.run, a, b, h, [Value(env, trace, trace, a.fail, words[0])] + words[1..], trace);
    }
  }

  lemma {:induction false} InsideAlike(env: Env, a: Np, b: Np, h: nat, cmds: seq<string>, trace: Trace)
    requires Alike(a, b, h)
    ensures a.Valid() && b.Valid()
    ensures var ra, rb := RunInside(env, a, cmds, trace), RunInside(env, b, cmds, trace);
      ra.trace == rb.trace && Alike(ra.np, rb.np, h)
    decreases |cmds|
  {
    hide CmdParm, Alike;
    AlikeValid(a, b, h);
    if cmds != [] {
      CmdParmAlike(env, a, b, h, cmds[0], trace);
      var oa, ob := CmdParm(env, a, cmds[0], trace), CmdParm(env, b, cmds[0], trace);
      InsideAlike(env, oa.np, ob.np, h, cmds[1..], oa.trace);
    }
  }

  predicate SameTaken(ta: Taken, tb: Taken, h: nat) {
    ta.words == tb.words && ta.trace == tb.trace && Alike(ta.np, tb.np, h)
  }

  lemma TakeAlike(env: Env, a: Np, b: Np, h: nat, words: Words, trace: Trace)
    requires Alike(a, b, h)
    ensures a.Valid() && b.Valid() && SameTaken(Take(env, a, words, trace), Take(env, b, words, trace), h)
  {
    hide RunInside, Inside, Alike, Literal;
    AlikeValid(a, b, h);
    if words != [] {
      var cmds := Inside(words[0]);
      InsideAlike(env, a, b, h, cmds, trace);
      AlikeValid(RunInside(env, a, cmds, trace).np, RunInside(env, b, cmds, trace).np, h);
    }
  }

  lemma NextTakeAlike(env: Env, keywords: set<Kind>, a: Np, b: Np, h: nat, words: Words, trace: Trace)
    requires Alike(a, b, h)
    ensures a.Valid() && b.Valid()
    ensures SameTaken(TakeNext(env, keywords, a, words, trace), TakeNext(env, keywords, b, words, trace), h)
  {
    hide Take, Alike, KindOf;
    AlikeValid(a, b, h);
    if words != [] { TakeAlike(env, a, b, h, words[1..], trace); }
  }

  lemma {:induction false} ArgsAlike(env: Env, a: Np, b: Np, h: nat, words: Words, trace: Trace)
    requires Alike(a, b, h)
    ensures a.Valid() && b.Valid()
    ensures var ra, rb := TakeArgs(env, a, words, trace), TakeArgs(env, b, words, trace);
      ra.trace == rb.trace && Alike(ra.np, rb.np, h)
    decreases |words|
  {
    hide RunInside, Inside, Alike;
    AlikeValid(a, b, h);
    if words != [] {
      var cmds := Inside(words[0]);
      InsideAlike(env, a, b, h, cmds, trace);
      var ra, rb := RunInside(env, a, cmds, trace), RunInside(env, b, cmds, trace);
      ArgsAlike(env, ra.np, rb.np, h, words[1..], ra.trace);
    }
  }

  lemma PerformAlike(env: Env, a: Np, b: Np, h: nat, words: Words, trace: Trace)
    requires Alike(a, b, h)
    ensures a.Valid() && b.Valid()
    ensures var oa, ob := Perform(env, a, words, trace), Perform(env, b, words, trace);
      oa.ok == ob.ok && oa.trace == ob.trace && Alike(oa.np, ob.np, h)
  {
    hide TakeArgs, Execute, Alike, Np.CmdEnabled;
    AlikeValid(a, b, h);
    if words != [] && a.CmdEnabled() {
      var args := Clip(words)[1..];
      ArgsAlike(env, a, b, h, args, trace);
      var ra, rb := TakeArgs(env, a, args, trace), TakeArgs(env, b, args, trace);
      ExecuteAlike(env.run, ra.np, rb.np, h, words, ra.trace);
    }
  }

  lemma WordsAlike(env: Env, a: Np, b: Np, h: nat, words: Words, trace: Trace) returns (h': nat)
    requires Alike(a, b, h)
    ensures a.Valid() && b.Valid()
    ensures var oa, ob := ParseWords(env, a, words, trace), ParseWords(env, b, words, trace);
      oa.ok == ob.ok && oa.trace == ob.trace && Alike(oa.np, ob.np, h')
  {
    hide Take, TakeNext, LoopStep, ParseItef, SaveResult, Alike;
    AlikeValid(a, b, h);
    TakeAlike(env, a, b, h, words, trace);
    var ta, tb := Take(env, a, words, trace), Take(env, b, words, trace);
    NextTakeAlike(env, LOOP_KEYWORDS, ta.np, tb.np, h, ta.words, ta.trace);
    ta := TakeNext(env, LOOP_KEYWORDS, ta.np, ta.words, ta.trace);
    tb := TakeNext(env, LOOP_KEYWORDS, tb.np, tb.words, tb.trace);
    LoopAlike(ta.np, tb.np, h, ta.words);
    h' := h;
    var la, lb := LoopStep(ta.np, ta.words), LoopStep(tb.np, tb.words);
    if la.Bad? {
      SaveAlike(la.np, lb.np, h, true);
    } else {
      h' := ItefWordsAlike(env, la.np, lb.np, h, la.rest, ta.trace);
    }
  }

  lemma ItefWordsAlike(env: Env, a: Np, b: Np, h: nat, words: Words, trace: Trace) returns (h': nat)
    requires Alike(a, b, h)
    ensures a.Valid() && b.Valid()
    ensures var oa, ob := ParseItef(env, a, words, trace), ParseItef(env, b, words, trace);
      oa.ok == ob.ok && oa.trace == ob.trace && Alike(oa.np, ob.np, h')
  {
    hide TakeNext, ItefStep, Perform, SaveResult, Alike;
    NextTakeAlike(env, ITEF_KEYWORDS, a, b, h, words, trace);
    var ta, tb := TakeNext(env, ITEF_KEYWORDS, a, words, trace), TakeNext(env, ITEF_KEYWORDS, b, words, trace);
    ItefAlike(ta.np, tb.np, h, ta.words);
    var ia, ib := ItefStep(ta.np, ta.words), ItefStep(tb.np, tb.words);
    h' := Max(h, ia.np.iendx);
    if ia.Bad? {
      SaveAlike(ia.np, ib.np, h', true);
    } else {
      PerformAlike(env, ia.np, ib.np, h', ia.rest, ta.trace);
    }
  }

  /** The state at another position. */
  function At(np: Np, fpos: int, foffs: int, loffs: nat, jump: bool): Np {
    np.(fpos := fpos, foffs := foffs, loffs := loffs, jump := jump)
  }

  lemma AtAlike(a: Np, b: Np, h: nat, fpos: int, foffs: int, loffs: nat, jump: bool)
    requires Alike(a, b, h)
    ensures Alike(At(a, fpos, foffs, loffs, jump), At(b, fpos, foffs, loffs, jump), h)
  {
  }

  // ----- Both machines -----

  ghost predicate SameConfig(c: Config, d: Config) {
    && (exists h :: Alike(c.np, d.np, h))
    && c.trace == d.trace && c.Running? == d.Running? && (c.Stopped? ==> c.ok == d.ok)
  }

  lemma JumpAlike(run: Interpreter, code: seq<Words>, c: Config, d: Config)
    requires SameConfig(c, d)
    ensures c.np.Valid() && d.np.Valid() && SameConfig(Jump(run, code, c), Jump(run, code, d))
  {
    hide Alike, ParseCommand;
    var h :| Alike(c.np, d.np, h);
    AlikeValid(c.np, d.np, h);
    if c.Running? && 0 <= c.np.fpos < |code| {
      AtAlike(c.np, d.np, h, c.np.fpos + 1, c.np.fpos, 0, false);
      var h' := CommandAlike(run, Fetch(c.np), Fetch(d.np), h, code[c.np.fpos], c.trace);
    }
  }

  lemma {:induction false} JumpsAlike(run: Interpreter, code: seq<Words>, c: Config, d: Config, n: nat)
    requires c.np.Valid() && d.np.Valid() && SameConfig(c, d)
    ensures SameConfig(Jumps(run, code, c, n), Jumps(run, code, d, n))
    decreases n
  {
    hide Jump, SameConfig;
    if n > 0 {
      JumpAlike(run, code, c, d);
      JumpsAlike(run, code, Jump(run, code, c), Jump(run, code, d), n - 1);
    }
  }

  lemma {:induction false} LineAlike(env: Env, a: Np, b: Np, h: nat, s: string, start: nat, trace: Trace)
    returns (h': nat)
    requires Alike(a, b, h)
    ensures a.Valid() && b.Valid()
    ensures var oa, ob := ParseLine(env, a, s, start, trace), ParseLine(env, b, s, start, trace);
      oa.ok == ob.ok && oa.trace == ob.trace && Alike(oa.np, ob.np, h')
    decreases |s|
  {
    hide ParseWords, NextPiece, Tokens, Alike, ParseLine;
    AlikeValid(a, b, h);
    var piece := NextPiece(s, 0);
    var loffs := start + piece.working;
    AtAlike(a, b, h, a.fpos, a.foffs, loffs, a.jump);
    var a1, b1 := a.(loffs := loffs), b.(loffs := loffs);
    ParseLineUnfold(env, a, s, start, trace);
    ParseLineUnfold(env, b, s, start, trace);
    if piece.Unmatched? {
      h' := h;
    } else {
      var words := Tokens(if piece.Semi? then s[..piece.end] else s);
      h' := WordsAlike(env, a1, b1, h, words, trace);
      var oa, ob := ParseWords(env, a1, words, trace), ParseWords(env, b1, words, trace);
      AlikeValid(oa.np, ob.np, h');
      if piece.Semi? && oa.ok && !oa.np.jump {
        h' := LineAlike(env, oa.np, ob.np, h', s[piece.end + 1..], start + piece.end + 1, oa.trace);
      }
    }
  }

  ghost predicate SameScript(c: Script, d: Script) {
    (exists h :: Alike(c.np, d.np, h)) && c.trace == d.trace && c.Reading? == d.Reading? && c.ok == d.ok
  }

  lemma ReadAlike(env: Env, file: string, c: Script, d: Script)
    requires SameScript(c, d)
    ensures c.np.Valid() && d.np.Valid() && SameScript(ReadLine(env, file, c), ReadLine(env, file, d))
  {
    hide Alike, ParseLine, Fgets;
    var h :| Alike(c.np, d.np, h);
    AlikeValid(c.np, d.np, h);
    if c.Reading? {
      var at := c.np.fpos;
      var line := Fgets(file, at);
      AtAlike(c.np, d.np, h, at, at, 0, c.np.jump);
      AtAlike(c.np, d.np, h, at + |line|, at, 0, false);
      var h' := LineAlike(env, At(c.np, at + |line|, at, 0, false), At(d.np, at + |line|, at, 0, false), h, line, 0, c.trace);
    }
  }

  lemma {:induction false} LinesAlike(env: Env, file: string, c: Script, d: Script, n: nat)
    requires c.np.Valid() && d.np.Valid() && SameScript(c, d)
    ensures SameScript(ReadLines(env, file, c, n), ReadLines(env, file, d, n))
    decreases n
  {
    hide ReadLine, SameScript;
    if n > 0 {
      ReadAlike(env, file, c, d);
      LinesAlike(env, file, ReadLine(env, file, c), ReadLine(env, file, d), n - 1);
    }
  }

  // ----- A clean stack -----

  /** The state with every level above the top cleared. */
  function Swept(np: Np): (r: Np)
    requires np.Valid()
    ensures r.Valid() && r == np.(ie := r.ie) && forall i :: 0 <= i <= np.iendx ==> r.ie[i] == np.ie[i]
    ensures forall i :: np.iendx < i < |np.ie| ==> r.ie[i] == ItefLevel(ItefNormal, false, false)
  {
    np.(ie := seq(|np.ie|, i requires 0 <= i < |np.ie| =>
                    if i <= np.iendx then np.ie[i] else ItefLevel(ItefNormal, false, false)))
  }

  lemma SweptAlike(np: Np)
    requires np.Valid() && forall j :: 0 <= j <= np.lpndx ==> np.lp[j].iendx <= np.iendx
    ensures Alike(np, Swept(np), np.iendx)
  {
  }
}
