/** The shape of the two parser stacks over every run: any sequence of commands,
    well formed or not, with syntax errors, failures and breaks anywhere. */
module NshShape {
  import opened NshState
  import opened NshText

  predicate Shape(np: Np) {
    && np.Valid()
    && np.lp[0].state == LoopNormal
    && np.ie[0].state == ItefNormal
    && (forall i :: 0 < i < np.lpndx ==> np.lp[i].state == LoopDo)
    && (np.lpndx > 0 ==> np.Loop().state != LoopNormal)
  }

  /** The two branches marked "Shouldn't happen" cannot be reached. */
  lemma NeverInternalError(np: Np)
    requires Shape(np)
    ensures np.Loop().state == LoopDo ==> np.lpndx >= 1
    ensures np.Itef().InBranch() ==> np.iendx >= 1
  {
  }

  lemma SaveKeepsShape(np: Np, failed: bool)
    requires Shape(np)
    ensures Shape(SaveResult(np, failed).0)
  {
  }

  lemma LoopKeepsShape(np: Np, words: Words)
    requires Shape(np)
    ensures Shape(LoopStep(np, words).np)
  {
    hide KindOf;
    if words != [] {
      match KindOf(words[0])
      case While =>
      case Until =>
      case Do =>
      case Done =>
      case _ =>
    }
  }

  lemma ItefKeepsShape(np: Np, words: Words)
    requires Shape(np)
    ensures Shape(ItefStep(np, words).np)
  {
    hide KindOf;
  }

  lemma BreakKeepsShape(np: Np)
    requires Shape(np)
    ensures Shape(BreakStep(np))
  {
  }

  lemma ExecuteKeepsShape(run: Interpreter, np: Np, words: Words, trace: Trace)
    requires Shape(np) && words != []
    ensures Shape(Execute(run, np, words, trace).np)
  {
    assert np.Valid();
    hide KindOf, SaveResult, Shape;
    BreakKeepsShape(np);
    SaveKeepsShape(BreakStep(np), false);
    SaveKeepsShape(np, run(trace, Call(Clip(words), np.fail)));
  }

  lemma {:induction false} InsideKeepsShape(env: Env, np: Np, cmds: seq<string>, trace: Trace)
    requires Shape(np)
    ensures Shape(RunInside(env, np, cmds, trace).np)
    decreases |cmds|
  {
    assert np.Valid();
    hide Execute, Shape, Tokens, Np.CmdEnabled;
    if cmds != [] {
      var words := Tokens(cmds[0]);
      if words != [] {
        ExecuteKeepsShape(env.run, np, [Value(env, trace, trace, np.fail, words[0])] + words[1..], trace);
      }
      var o := CmdParm(env, np, cmds[0], trace);
      InsideKeepsShape(env, o.np, cmds[1..], o.trace);
    }
  }

  lemma TakeKeepsShape(env: Env, keywords: set<Kind>, np: Np, words: Words, trace: Trace)
    requires Shape(np)
    ensures Shape(Take(env, np, words, trace).np) && Shape(TakeNext(env, keywords, np, words, trace).np)
  {
    assert np.Valid();
    hide RunInside, Shape, Inside, KindOf;
    if words != [] {
      InsideKeepsShape(env, np, Inside(words[0]), trace);
      if |words| > 1 { InsideKeepsShape(env, np, Inside(words[1]), trace); }
    }
  }

  lemma {:induction false} ArgsKeepShape(env: Env, np: Np, words: Words, trace: Trace)
    requires Shape(np)
    ensures Shape(TakeArgs(env, np, words, trace).np)
    decreases |words|
  {
    assert np.Valid();
    hide RunInside, Shape, Inside;
    if words != [] {
      InsideKeepsShape(env, np, Inside(words[0]), trace);
      var r := RunInside(env, np, Inside(words[0]), trace);
      ArgsKeepShape(env, r.np, words[1..], r.trace);
    }
  }

  lemma PerformKeepsShape(env: Env, np: Np, words: Words, trace: Trace)
    requires Shape(np)
    ensures Shape(Perform(env, np, words, trace).np)
  {
    assert np.Valid();
    hide TakeArgs, Execute, Shape, Np.CmdEnabled;
    if words != [] {
      var args := Clip(words)[1..];
      ArgsKeepShape(env, np, args, trace);
      var r := TakeArgs(env, np, args, trace);
      ExecuteKeepsShape(env.run, r.np, words, r.trace);
    }
  }

  lemma CommandKeepsShape(env: Env, np: Np, words: Words, trace: Trace)
    requires Shape(np)
    ensures Shape(ParseWords(env, np, words, trace).np)
  {
    assert np.Valid();
    hide Take, TakeNext, LoopStep, ItefStep, Perform, SaveResult, Shape;
    TakeKeepsShape(env, {}, np, words, trace);
    var t := Take(env, np, words, trace);
    TakeKeepsShape(env, LOOP_KEYWORDS, t.np, t.words, t.trace);
    t := TakeNext(env, LOOP_KEYWORDS, t.np, t.words, t.trace);
    LoopKeepsShape(t.np, t.words);
    match LoopStep(t.np, t.words)
    case Bad(np1) => SaveKeepsShape(np1, true);
    case Go(np1, rest) =>
      TakeKeepsShape(env, ITEF_KEYWORDS, np1, rest, t.trace);
      var u := TakeNext(env, ITEF_KEYWORDS, np1, rest, t.trace);
      ItefKeepsShape(u.np, u.words);
      match ItefStep(u.np, u.words)
      case Bad(np2) => SaveKeepsShape(np2, true);
      case Go(np2, rest2) => PerformKeepsShape(env, np2, rest2, u.trace);
  }

  /** One command line after the other, whatever their results, from wherever
      the commands are read. */
  datatype Entry = Entry(fpos: int, foffs: int, loffs: nat, scripted: bool, words: Words)

  function Feed(env: Env, np: Np, entries: seq<Entry>, trace: Trace): (r: Np)
    requires np.Valid()
    ensures r.Valid()
    decreases |entries|
  {
    hide ParseWords;
    if entries == [] then np
    else
      var e := entries[0];
      var o := ParseWords(env, np.(fpos := e.fpos, foffs := e.foffs, loffs := e.loffs,
                                     scripted := e.scripted, jump := false), e.words, trace);
      Feed(env, o.np, entries[1..], o.trace)
  }

  lemma {:induction false} RunKeepsShape(env: Env, np: Np, entries: seq<Entry>, trace: Trace)
    requires Shape(np)
    ensures Shape(Feed(env, np, entries, trace))
    decreases |entries|
  {
    hide ParseWords;
    if entries != [] {
      var e := entries[0];
      var np1 := np.(fpos := e.fpos, foffs := e.foffs, loffs := e.loffs, scripted := e.scripted, jump := false);
      CommandKeepsShape(env, np1, e.words, trace);
      var o := ParseWords(env, np1, e.words, trace);
      RunKeepsShape(env, o.np, entries[1..], o.trace);
    }
  }
}
