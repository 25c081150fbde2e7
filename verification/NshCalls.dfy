/** Which commands the parser hands to the interpreter, in which order and with
    which words and `$?`, when words have commands between backquotes. */
module NshCalls {
  import opened Numbers
  import opened NshState
  import opened NshText
  import opened NshGlue
  import E = NshErrors
  import P = NshPrint

  /** The words that `argv` has room for: all but one of its entries. */
  function Argv(words: Words): (r: Words)
    ensures r <= words
  {
    words[..Min(|words|, MAX_ARGV_ENTRIES - 1)]
  }

  lemma ClipIsArgv(words: Words)
    ensures Clip(words) == Argv(words)
  {
  }

  /** Commands run one after the other, each with the result of the one before as
      its `$?`, whatever the results. */
  function Batch(run: Interpreter, commands: seq<Words>, fail: bool, trace: Trace): (bool, Trace)
    decreases |commands|
  {
    if commands == [] then (fail, trace)
    else
      var call := Call(Argv(commands[0]), fail);
      Batch(run, commands[1..], run(trace, call), trace + [call])
  }

  /** The words of the commands between backquotes. */
  function Texts(cmds: seq<string>): (r: seq<Words>)
    decreases |cmds|
  {
    if cmds == [] then []
    else if Tokens(cmds[0]) == [] then Texts(cmds[1..])
    else [Tokens(cmds[0])] + Texts(cmds[1..])
  }

  /** None of them starts with `break` or with a word to expand. */
  predicate Ordinary(cmds: seq<string>) {
    forall i :: 0 <= i < |cmds| && Tokens(cmds[i]) != [] ==>
      Literal(Tokens(cmds[i])[0]) && KindOf(Tokens(cmds[i])[0]) != Break
  }

  // ----- One command -----

  /** A command between backquotes is run with all its words, in any state in which
      commands are enabled. */
  lemma OneCall(env: Env, np: Np, cmd: string, trace: Trace)
    requires np.Valid() && Ordinary([cmd]) && Tokens(cmd) != []
    ensures CmdParm(env, np, cmd, trace).trace
         == if np.CmdEnabled() then trace + [Call(Argv(Tokens(cmd)), np.fail)] else trace
  {
    hide Tokens, KindOf, Literal, SaveResult;
    var words := Tokens([cmd][0]);
    assert [words[0]] + words[1..] == words;
    ClipIsArgv(words);
  }

  /** Its result is kept as that of any other command. */
  lemma OneResult(env: Env, np: Np, cmd: string, trace: Trace)
    requires P.Plainly(np) && Ordinary([cmd]) && Tokens(cmd) != []
    ensures var call := Call(Argv(Tokens(cmd)), np.fail);
      CmdParm(env, np, cmd, trace).np == np.(fail := env.run(trace, call))
  {
    hide Tokens, KindOf, Literal;
    var words := Tokens([cmd][0]);
    assert [words[0]] + words[1..] == words;
    ClipIsArgv(words);
  }

  /** A `break` between backquotes leaves the loop like any other. */
  lemma BreakCall(env: Env, np: Np, cmd: string, trace: Trace)
    requires P.Plainly(np) && Tokens(cmd) != [] && Tokens(cmd)[0] == "break"
    requires np.Loop().state == LoopDo && np.ie[np.Loop().iendx].state != ItefIf
    ensures CmdParm(env, np, cmd, trace)
         == Outcome(true, np.(fail := false, iendx := np.Loop().iendx,
                              lp := np.lp[np.lpndx := np.Loop().(enable := false)]), trace)
  {
    assert KindOf("break") == Break && Literal("break");
    hide Tokens, KindOf, Literal;
  }

  // ----- One word -----

  lemma {:induction false} InsideCalls(env: Env, np: Np, cmds: seq<string>, trace: Trace)
    requires P.Plainly(np) && Ordinary(cmds)
    ensures var (fail, t) := Batch(env.run, Texts(cmds), np.fail, trace);
      RunInside(env, np, cmds, trace) == After(np.(fail := fail), t)
    decreases |cmds|
  {
    hide CmdParm, Tokens, KindOf, Literal;
    if cmds != [] {
      var o := CmdParm(env, np, cmds[0], trace);
      assert Ordinary(cmds[1..]) && Ordinary([cmds[0]]);
      if Tokens(cmds[0]) == [] {
        IdleInside(env, np, [cmds[0]], trace);
        NoCall(env, np, cmds[0], trace);
      } else {
        OneCall(env, np, cmds[0], trace);
        OneResult(env, np, cmds[0], trace);
        assert Texts(cmds)[1..] == Texts(cmds[1..]);
      }
      InsideCalls(env, o.np, cmds[1..], o.trace);
    }
  }

  lemma NoCall(env: Env, np: Np, cmd: string, trace: Trace)
    requires np.Valid() && Tokens(cmd) == []
    ensures CmdParm(env, np, cmd, trace) == Outcome(true, np, trace)
  {
    hide Tokens;
  }

  // ----- A whole command -----

  /** The commands between backquotes in some words. */
  function InsideAll(words: Words): seq<string>
    decreases |words|
  {
    if words == [] then [] else Inside(words[0]) + InsideAll(words[1..])
  }

  lemma {:induction false} InsideAdd(env: Env, np: Np, a: seq<string>, b: seq<string>, trace: Trace)
    requires np.Valid()
    ensures var r := RunInside(env, np, a, trace);
      RunInside(env, np, a + b, trace) == RunInside(env, r.np, b, r.trace)
    decreases |a|
  {
    hide CmdParm;
    if a == [] {
      assert a + b == b;
    } else {
      var o := CmdParm(env, np, a[0], trace);
      assert (a + b)[1..] == a[1..] + b;
      InsideAdd(env, o.np, a[1..], b, o.trace);
    }
  }

  lemma {:induction false} ArgsCalls(env: Env, np: Np, words: Words, trace: Trace)
    requires np.Valid()
    ensures TakeArgs(env, np, words, trace) == RunInside(env, np, InsideAll(words), trace)
    decreases |words|
  {
    hide RunInside, Inside;
    if words == [] {
      NothingInside(env, np, trace);
    } else {
      var r := RunInside(env, np, Inside(words[0]), trace);
      ArgsCalls(env, r.np, words[1..], r.trace);
      InsideAdd(env, np, Inside(words[0]), InsideAll(words[1..]), trace);
    }
  }

  lemma NothingInside(env: Env, np: Np, trace: Trace)
    requires np.Valid()
    ensures RunInside(env, np, [], trace) == After(np, trace)
  {
  }

  /** A plain command first runs what stands between backquotes in the arguments
      that there is room for, from left to right, and then itself. */
  lemma CommandCalls(env: Env, np: Np, words: Words, trace: Trace)
    requires P.Plainly(np) && Simple(words) && Literal(words[0]) && Ordinary(InsideAll(Argv(words)[1..]))
    ensures var (fail, t) := Batch(env.run, Texts(InsideAll(Argv(words)[1..])), np.fail, trace);
      var call := Call(Argv(words), fail);
      ParseWords(env, np, words, trace)
      == Outcome(!env.run(t, call), np.(fail := env.run(t, call)), t + [call])
  {
    hide KindOf, Literal, TakeArgs, Take, Batch, Texts, Ordinary, LoopStep, ItefStep;
    ClipIsArgv(words);
    TakeLiteral(env, np, words, trace);
    LoopOther(np, words);
    ItefOther(np, words);
    var args := Argv(words)[1..];
    ArgsCalls(env, np, args, trace);
    InsideCalls(env, np, InsideAll(args), trace);
  }

  // ----- Keywords -----

  predicate Keyword(k: string) {
    E.LoopKeyword(k) || k == "if" || k == "then" || k == "else" || k == "fi"
  }

  lemma KeywordKinds(k: string)
    requires Keyword(k)
    ensures Literal(k) && KindOf(k) in LOOP_KEYWORDS + ITEF_KEYWORDS
    ensures KindOf(k) in LOOP_KEYWORDS <==> E.LoopKeyword(k)
  {
  }

  /** Every keyword reads the word after it, and so runs what stands between the
      backquotes of that word, before anything else, even if it then is an error. */
  lemma KeywordReads(env: Env, np: Np, k: string, rest: Words, trace: Trace)
    requires P.Plainly(np) && Keyword(k) && rest != [] && Ordinary(Inside(rest[0]))
    ensures Batch(env.run, Texts(Inside(rest[0])), np.fail, trace).1 <= ParseWords(env, np, [k] + rest, trace).trace
  {
    KeywordKinds(k);
    hide KindOf, Literal, LoopStep, ItefStep, Inside, Batch, Texts, Ordinary, SaveResult, RunInside, Perform;
    TakeLiteral(env, np, [k] + rest, trace);
    TakeNextUnfold(env, LOOP_KEYWORDS, np, k, rest, trace);
    InsideCalls(env, np, Inside(rest[0]), trace);
    if !E.LoopKeyword(k) {
      LoopOther(np, [k] + rest);
      TakeNextUnfold(env, ITEF_KEYWORDS, np, k, rest, trace);
    }
    hide TakeNext, Take;
  }

  /** The condition of an `if` or a loop: its first word has been read before the
      block is opened, and its result is the last that is saved. */
  function Condition(env: Env, np: Np, w: string, args: Words, trace: Trace): (Call, Trace) {
    var (fail, t) := Batch(env.run, Texts(Inside(w)), np.fail, trace);
    (Call(Argv([Value(env, trace, t, fail, w)] + args), fail), t)
  }

  lemma Read(env: Env, np: Np, w: string, args: Words, trace: Trace)
    requires P.Plainly(np) && Ordinary(Inside(w))
    ensures var (call, t) := Condition(env, np, w, args, trace);
      Take(env, np, [w] + args, trace)
      == Taken(np.(fail := call.fail), [Value(env, trace, t, call.fail, w)] + args, t)
  {
    hide RunInside, Inside, Batch, Texts, Ordinary, Literal;
    InsideCalls(env, np, Inside(w), trace);
    assert ([w] + args)[1..] == args;
  }

  lemma IfCalls(env: Env, np: Np, w: string, args: Words, trace: Trace)
    requires P.Plainly(np) && np.iendx < |np.ie| - 1 && Ordinary(Inside(w))
    requires forall i :: 0 <= i < |args| ==> '`' !in args[i]
    requires var (call, t) := Condition(env, np, w, args, trace); call.words != [] && KindOf(call.words[0]) == Plain
    ensures var (call, t) := Condition(env, np, w, args, trace);
      var failed := env.run(t, call);
      ParseWords(env, np, ["if", w] + args, trace)
      == Outcome(true, np.(fail := false, iendx := np.iendx + 1,
                           ie := np.ie[np.iendx + 1 := ItefLevel(ItefIf, false, failed)]), t + [call])
  {
    assert ["if", w] + args == ["if"] + ([w] + args);
    hide KindOf, Inside, Batch, Texts, Ordinary, Take, Condition, ParseWords, Perform, Value, P.Plainly, SaveResult,
      Choosing;
    PlainlyValid(np);
    Read(env, np, w, args, trace);
    ConditionCall(env, np, w, args, trace);
    IfOpens(env, np, [w] + args, trace);
    var t := Take(env, np, [w] + args, trace);
    var (call, _) := Condition(env, np, w, args, trace);
    ChoosingSaves(np, call.fail, env.run(t.trace, call));
    Runs(env, Choosing(t.np), t.words, t.trace);
  }

  lemma PlainlyValid(np: Np)
    requires P.Plainly(np)
    ensures np.Valid() && np.CmdEnabled()
  {
  }

  lemma ChoosingSaves(np: Np, fail: bool, failed: bool)
    requires P.Plainly(np) && np.iendx < |np.ie| - 1
    ensures np.Valid() && Choosing(np.(fail := fail)).CmdEnabled() && Choosing(np.(fail := fail)).fail == fail
    ensures SaveResult(Choosing(np.(fail := fail)), failed)
         == (np.(fail := false, iendx := np.iendx + 1,
                 ie := np.ie[np.iendx + 1 := ItefLevel(ItefIf, false, failed)]), true)
  {
    var i, top := np.iendx + 1, ItefLevel(ItefIf, false, false);
    assert np.ie[i := top][i := top.(ifcond := failed)] == np.ie[i := top.(ifcond := failed)];
  }

  lemma IfStep(np: Np, rest: Words)
    requires P.Plainly(np) && np.iendx < |np.ie| - 1 && rest != []
    ensures np.Valid() && ItefStep(np, ["if"] + rest) == Go(Choosing(np), rest)
  {
    assert KindOf("if") == If && (["if"] + rest)[1..] == rest;
    hide KindOf;
  }

  /** The state in which the condition of an `if` is run. */
  function Choosing(np: Np): (r: Np)
    requires np.Valid() && np.iendx < |np.ie| - 1
    ensures r.Valid()
  {
    np.(iendx := np.iendx + 1, ie := np.ie[np.iendx + 1 := ItefLevel(ItefIf, !np.CmdEnabled(), false)])
  }

  lemma IfOpens(env: Env, np: Np, rest: Words, trace: Trace)
    requires P.Plainly(np) && np.iendx < |np.ie| - 1 && rest != []
    requires var t := Take(env, np, rest, trace); t.np == np.(fail := t.np.fail)
    ensures var t := Take(env, np, rest, trace);
      ParseWords(env, np, ["if"] + rest, trace) == Perform(env, Choosing(t.np), t.words, t.trace)
  {
    assert KindOf("if") == If;
    hide KindOf, Literal, Take, Perform, LoopStep, ItefStep, Choosing;
    KeywordKinds("if");
    TakeLiteral(env, np, ["if"] + rest, trace);
    TakeNextUnfold(env, LOOP_KEYWORDS, np, "if", rest, trace);
    LoopOther(np, ["if"] + rest);
    TakeNextUnfold(env, ITEF_KEYWORDS, np, "if", rest, trace);
    hide TakeNext;
    var t := Take(env, np, rest, trace);
    IfStep(t.np, t.words);
  }

  lemma ConditionCall(env: Env, np: Np, w: string, args: Words, trace: Trace)
    ensures var (call, t) := Condition(env, np, w, args, trace);
      call == Call(Argv([Value(env, trace, t, call.fail, w)] + args), call.fail) && call.words != []
      && call.words[0] == Value(env, trace, t, call.fail, w)
  {
    hide Batch, Texts, Inside, Literal;
  }

  /** A command whose arguments have no backquotes. */
  lemma Runs(env: Env, np: Np, words: Words, trace: Trace)
    requires np.Valid() && np.CmdEnabled() && words != [] && KindOf(words[0]) == Plain
    requires forall i :: 1 <= i < |words| ==> '`' !in words[i]
    ensures var call := Call(Argv(words), np.fail);
      Perform(env, np, words, trace) == Saved(np, env.run(trace, call), trace + [call])
  {
    hide KindOf, TakeArgs, SaveResult, Np.CmdEnabled;
    ClipIsArgv(words);
    ArgsQuiet(env, np, Clip(words)[1..], trace);
  }

  lemma LoopCalls(env: Env, np: Np, until: bool, w: string, args: Words, trace: Trace)
    requires P.Plainly(np) && np.scripted && np.foffs >= 0 && np.lpndx < |np.lp| - 1 && Ordinary(Inside(w))
    requires forall i :: 0 <= i < |args| ==> '`' !in args[i]
    requires var (call, t) := Condition(env, np, w, args, trace); call.words != [] && KindOf(call.words[0]) == Plain
    ensures var (call, t) := Condition(env, np, w, args, trace);
      var top := LoopLevel(if until then LoopUntil else LoopWhile, env.run(t, call) == until, np.iendx,
                           np.foffs + np.loffs);
      ParseWords(env, np, [if until then "until" else "while", w] + args, trace)
      == Outcome(true, np.(fail := false, jump := false, lpndx := np.lpndx + 1, lp := np.lp[np.lpndx + 1 := top]),
                 t + [call])
  {
    var k := if until then "until" else "while";
    assert [k, w] + args == [k] + ([w] + args);
    hide KindOf, Inside, Batch, Texts, Ordinary, Take, Condition, ParseWords, Perform, Value, P.Plainly, SaveResult,
      Testing;
    PlainlyValid(np);
    Read(env, np, w, args, trace);
    ConditionCall(env, np, w, args, trace);
    LoopOpens(env, np, until, [w] + args, trace);
    var t := Take(env, np, [w] + args, trace);
    var (call, _) := Condition(env, np, w, args, trace);
    TestingSaves(np, until, call.fail, env.run(t.trace, call));
    Runs(env, Testing(t.np, until), t.words, t.trace);
  }

  lemma TestingSaves(np: Np, until: bool, fail: bool, failed: bool)
    requires P.Plainly(np) && np.lpndx < |np.lp| - 1
    ensures np.Valid()
    ensures var n := Testing(np.(fail := fail), until);
      var top := LoopLevel(if until then LoopUntil else LoopWhile, failed == until, np.iendx, np.foffs + np.loffs);
      && n.CmdEnabled() && n.fail == fail
      && SaveResult(n, failed)
         == (np.(fail := false, jump := false, lpndx := np.lpndx + 1, lp := np.lp[np.lpndx + 1 := top]), true)
  {
    var i, n := np.lpndx + 1, Testing(np.(fail := fail), until);
    var top := n.Loop().(enable := failed == until);
    assert np.lp[i := n.Loop()][i := top] == np.lp[i := top];
  }

  lemma TestStep(np: Np, until: bool, rest: Words)
    requires P.Plainly(np) && np.scripted && np.foffs >= 0 && np.lpndx < |np.lp| - 1 && rest != []
    ensures np.Valid() && LoopStep(np, [if until then "until" else "while"] + rest) == Go(Testing(np, until), rest)
    ensures Testing(np, until).Itef().state != ItefIf
  {
    var k := if until then "until" else "while";
    assert KindOf("while") == While && KindOf("until") == Until && ([k] + rest)[1..] == rest;
    hide KindOf;
  }

  /** The state in which the test of a loop is run. */
  function Testing(np: Np, until: bool): (r: Np)
    requires np.Valid() && np.lpndx < |np.lp| - 1
    ensures r.Valid()
  {
    var top := LoopLevel(if until then LoopUntil else LoopWhile, np.CmdEnabled(), np.iendx, np.foffs + np.loffs);
    np.(jump := false, lpndx := np.lpndx + 1, lp := np.lp[np.lpndx + 1 := top])
  }

  lemma LoopOpens(env: Env, np: Np, until: bool, rest: Words, trace: Trace)
    requires P.Plainly(np) && np.scripted && np.foffs >= 0 && np.lpndx < |np.lp| - 1 && rest != []
    requires var t := Take(env, np, rest, trace); t.np == np.(fail := t.np.fail) && KindOf(t.words[0]) == Plain
    ensures var t := Take(env, np, rest, trace);
      ParseWords(env, np, [if until then "until" else "while"] + rest, trace)
      == Perform(env, Testing(t.np, until), t.words, t.trace)
  {
    var k := if until then "until" else "while";
    assert KindOf("while") == While && KindOf("until") == Until;
    hide KindOf, Literal, Take, Perform, ItefStep, LoopStep, Testing, P.Plainly;
    PlainlyValid(np);
    KeywordKinds(k);
    TakeLiteral(env, np, [k] + rest, trace);
    TakeNextUnfold(env, LOOP_KEYWORDS, np, k, rest, trace);
    var t := Take(env, np, rest, trace);
    PlainlyFail(np, t.np.fail);
    TestStep(t.np, until, t.words);
    var np1 := Testing(t.np, until);
    assert [t.words[0]] + t.words[1..] == t.words;
    TakeNextUnfold(env, ITEF_KEYWORDS, np1, t.words[0], t.words[1..], t.trace);
    hide TakeNext;
    ItefOther(np1, t.words);
  }

  lemma PlainlyFail(np: Np, fail: bool)
    requires P.Plainly(np)
    ensures P.Plainly(np.(fail := fail))
  {
  }
}
