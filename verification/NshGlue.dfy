/** A command on the line of its "do", "then" or "else".

    These keywords read the word after them before they change the state of the
    parser, and to read a word is to expand it: what stands in backquotes runs in
    the state before the keyword, and its result is saved there.
 */
module NshGlue {
  import opened NshState
  import opened NshText
  import opened NshLayout
  import X = NshExpand

  // ----- Expansion, as the parser sees it -----

  /** The expansion of a word runs the commands inside it, and no others. */
  lemma {:induction false} FillRuns(sh: X.Shell, w: X.World, parts: seq<X.Part>)
    ensures X.Fill(sh, w, parts).1.ran == w.ran + Backquoted(parts)
    decreases |parts|
  {
    if parts != [] {
      FillRuns(sh, X.FillPart(sh, w, parts[0]).1, parts[1..]);
    }
  }

  lemma ExpandRuns(sh: X.Shell, w: X.World, s: string)
    ensures X.Expand(sh, w, s).1.ran == w.ran + Inside(s)
  {
    FillRuns(sh, w, X.Read(s).parts);
  }

  /** A literal word stands for itself, whatever the shell. */
  lemma LiteralExpands(sh: X.Shell, w: X.World, s: string)
    requires Literal(s)
    ensures X.Expand(sh, w, s) == (s, w)
  {
    assert X.FindSpecial(s) == |s|;
    var parts := X.Read(s).parts;
    assert parts == [X.Text(s)] && parts[1..] == [];
    assert X.Fill(sh, w, parts) == (s + "", w) && s + "" == s;
  }

  // ----- Glued commands -----

  predicate Opener(k: string) {
    k == "do" || k == "then" || k == "else"
  }

  /** The parser is where this keyword belongs. */
  predicate Awaits(np: Np, k: string) {
    && np.Valid()
    && if k == "do" then np.InLoopHeader() && np.Itef().state != ItefIf
       else !np.InLoopHeader() && np.Itef().state == if k == "then" then ItefIf else ItefThen
  }

  /** The state after the keyword. */
  function Opened(np: Np, k: string): (r: Np)
    requires Awaits(np, k)
    ensures r.Valid()
  {
    if k == "do" then np.(lp := np.lp[np.lpndx := np.Loop().(state := LoopDo)])
    else np.(ie := np.ie[np.iendx := np.Itef().(state := if k == "then" then ItefThen else ItefElse)])
  }

  /** What is left to do behind the keyword, once the word after it is read. */
  function Behind(env: Env, np: Np, k: string, words: Words, trace: Trace): Outcome
    requires np.Valid()
  {
    if k == "do" then ParseItef(env, np, words, trace) else Perform(env, np, words, trace)
  }

  /** The keyword on a line of its own, and the command on the next. */
  function Halves(env: Env, np: Np, k: string, rest: Words, trace: Trace): Outcome
    requires np.Valid()
  {
    var o := ParseWords(env, np, [k], trace);
    if o.ok then ParseWords(env, o.np, rest, o.trace) else o
  }

  /** No keyword stands behind `k` that would not be seen there. */
  predicate Allowed(k: string, w: string) {
    Glueable([k, w])
  }

  lemma Openers()
    ensures KindOf("do") == Do && KindOf("then") == Then && KindOf("else") == Else
    ensures Literal("do") && Literal("then") && Literal("else")
  {
  }

  lemma KeywordFirst(env: Env, np: Np, k: string, rest: Words, trace: Trace)
    requires np.Valid() && Opener(k)
    ensures Take(env, np, [k] + rest, trace) == Taken(np, [k] + rest, trace)
  {
    Openers();
    TakeLiteral(env, np, [k] + rest, trace);
  }

  lemma OpenStep(np: Np, k: string, rest: Words)
    requires Opener(k) && Awaits(np, k)
    ensures k == "do" ==> LoopStep(np, [k] + rest) == Go(Opened(np, k), rest)
    ensures k != "do" ==> ItefStep(np, [k] + rest) == Go(Opened(np, k), rest)
  {
    Openers();
    hide KindOf;
    assert ([k] + rest)[1..] == rest;
  }

  /** A glued command first reads the word, then opens the block. */
  lemma Glued(env: Env, np: Np, k: string, rest: Words, trace: Trace)
    requires Opener(k) && Awaits(np, k) && Awaits(Take(env, np, rest, trace).np, k)
    ensures var t := Take(env, np, rest, trace);
      ParseWords(env, np, [k] + rest, trace) == Behind(env, Opened(t.np, k), k, t.words, t.trace)
  {
    Openers();
    hide KindOf, Literal, Take;
    KeywordFirst(env, np, k, rest, trace);
    TakeNextUnfold(env, LOOP_KEYWORDS, np, k, rest, trace);
    var t := Take(env, np, rest, trace);
    OpenStep(t.np, k, t.words);
    if k == "do" {
      hide TakeNext, ParseItef, LoopStep, Opened;
    } else {
      TakeNextUnfold(env, ITEF_KEYWORDS, np, k, rest, trace);
      LoopOther(np, [k] + rest);
      hide TakeNext, Perform, LoopStep, ItefStep, Opened;
    }
  }

  lemma Alone(env: Env, np: Np, k: string, trace: Trace)
    requires Opener(k) && Awaits(np, k)
    ensures ParseWords(env, np, [k], trace) == Outcome(true, Opened(np, k), trace)
  {
    hide ParseWords;
    assert [k] + [] == [k] && Take(env, np, [], trace) == Taken(np, [], trace);
    Glued(env, np, k, [], trace);
  }

  /** The command on a line of its own. */
  lemma Second(env: Env, np: Np, k: string, rest: Words, trace: Trace)
    requires Opener(k) && Awaits(np, k) && rest != []
    requires var t := Take(env, Opened(np, k), rest, trace); t.np == Opened(np, k) && Allowed(k, t.words[0])
    ensures var t := Take(env, Opened(np, k), rest, trace);
      ParseWords(env, Opened(np, k), rest, trace) == Behind(env, Opened(np, k), k, t.words, t.trace)
  {
    Openers();
    hide KindOf, Take;
    var np1 := Opened(np, k);
    var t := Take(env, np1, rest, trace);
    LoopOther(np1, t.words);
    if k == "do" {
      hide ParseItef, LoopStep, Opened;
    } else {
      ItefOther(np1, t.words);
      hide Perform, LoopStep, ItefStep, Opened;
    }
  }

  /** What a word stands for when nothing in it runs. */
  function Still(env: Env, np: Np, w: string, trace: Trace): string {
    Value(env, trace, trace, np.fail, w)
  }

  /** If nothing in the word runs and it stands for no hidden keyword, the line
      break behind the keyword makes no difference. */
  lemma QuietGlue(env: Env, np: Np, k: string, rest: Words, trace: Trace)
    requires Opener(k) && Awaits(np, k) && rest != [] && Allowed(k, Still(env, np, rest[0], trace))
    requires RunInside(env, np, Inside(rest[0]), trace) == After(np, trace)
    requires RunInside(env, Opened(np, k), Inside(rest[0]), trace) == After(Opened(np, k), trace)
    ensures ParseWords(env, np, [k] + rest, trace) == Halves(env, np, k, rest, trace)
  {
    hide RunInside, Inside, ParseWords, Value, Allowed;
    Glued(env, np, k, rest, trace);
    Alone(env, np, k, trace);
    Second(env, np, k, rest, trace);
  }

  // ----- For every shell -----

  /** In every state that awaits the keyword, glued or not is the same. */
  ghost predicate AlwaysAlike(k: string, rest: Words) {
    forall env: Env, np: Np, trace: Trace :: Awaits(np, k) ==>
      ParseWords(env, np, [k] + rest, trace) == Halves(env, np, k, rest, trace)
  }

  lemma DisabledParm(env: Env, np: Np, cmd: string, trace: Trace)
    requires np.Valid() && !np.CmdEnabled()
    ensures CmdParm(env, np, cmd, trace) == Outcome(true, np, trace)
  {
    hide Tokens;
  }

  lemma {:induction false} DisabledInside(env: Env, np: Np, cmds: seq<string>, trace: Trace)
    requires np.Valid() && !np.CmdEnabled()
    ensures RunInside(env, np, cmds, trace) == After(np, trace)
    decreases |cmds|
  {
    hide CmdParm;
    if cmds != [] {
      DisabledParm(env, np, cmds[0], trace);
      DisabledInside(env, np, cmds[1..], trace);
    }
  }

  /** A level of a disabled branch, in which the keyword is awaited. */
  function Skipped(k: string): Np
    requires Opener(k)
  {
    var loop := LoopLevel(LoopWhile, false, 1, 0);
    var top := ItefLevel(if k == "then" then ItefIf else ItefThen, true, false);
    Np(false, false, 0, 0, 0, false, if k == "do" then 1 else 0,
       [LoopLevel(LoopNormal, true, 0, 0), loop], 1, [ItefLevel(ItefNormal, false, false), top])
  }

  lemma SkippedAwaits(k: string)
    requires Opener(k)
    ensures Awaits(Skipped(k), k) && !Skipped(k).CmdEnabled() && !Opened(Skipped(k), k).CmdEnabled()
  {
  }

  /** Reading a word in a disabled state only expands it. */
  lemma DisabledTake(env: Env, np: Np, words: Words, trace: Trace)
    requires np.Valid() && !np.CmdEnabled()
    ensures Take(env, np, words, trace) ==
      Taken(np, if words == [] then [] else [Still(env, np, words[0], trace)] + words[1..], trace)
  {
    hide RunInside, Inside, Value;
    if words != [] { DisabledInside(env, np, Inside(words[0]), trace); }
  }

  lemma DisabledNext(env: Env, keywords: set<Kind>, np: Np, words: Words, trace: Trace)
    requires np.Valid() && !np.CmdEnabled()
    ensures var t := TakeNext(env, keywords, np, words, trace);
      && t.np == np && t.trace == trace && |t.words| == |words| && (words != [] ==> t.words[0] == words[0])
  {
    hide Take, KindOf;
    if words != [] { DisabledTake(env, np, words[1..], trace); }
  }

  /** A command on a line of its own is passed over, and nothing in it runs. */
  lemma SkippedCommand(env: Env, np: Np, words: Words, trace: Trace)
    requires np.Valid() && !np.CmdEnabled() && !np.InLoopHeader() && np.Itef().state != ItefIf
    requires words != [] && KindOf(Still(env, np, words[0], trace)) == Plain
    ensures ParseWords(env, np, words, trace) == Outcome(true, np, trace)
  {
    hide Take, KindOf, Perform, Value, LoopStep, ItefStep, Np.CmdEnabled;
    DisabledTake(env, np, words, trace);
    var words' := Take(env, np, words, trace).words;
    LoopOther(np, words');
    ItefOther(np, words');
    PerformNothing(env, np, words', trace);
  }

  /** On the line of the opener the word is taken for a command to skip. */
  lemma Overlooked(env: Env, np: Np, k: string, words: Words, trace: Trace)
    requires Opener(k) && np.Valid() && !np.CmdEnabled() && np.Itef().state != ItefIf
    requires words != [] && !Allowed(k, words[0])
    ensures Behind(env, np, k, words, trace) == Outcome(true, np, trace)
  {
    Openers();
    hide TakeArgs, Take, KindOf, Execute;
  }

  /** On a line of its own, in the skipped block, it is an error or changes the
      state. */
  lemma LoopKeywordSeen(k: string, words: Words)
    requires Opener(k) && words != [] && KindOf(words[0]) in LOOP_KEYWORDS
    ensures var np := Opened(Skipped(k), k);
      var r := LoopStep(np, words);
      if r.Bad? then !SaveResult(r.np, true).1 else r.np != np && r.rest == []
  {
    hide KindOf;
  }

  lemma ItefKeywordSeen(k: string, words: Words)
    requires (k == "then" || k == "else") && words != [] && KindOf(words[0]) in ITEF_KEYWORDS
    ensures var np := Opened(Skipped(k), k);
      var r := ItefStep(np, words);
      if r.Bad? then !SaveResult(r.np, true).1 else r.np != np && (r.rest == [] || !r.np.CmdEnabled())
  {
    hide KindOf;
  }

  lemma KeywordSeen(env: Env, k: string, words: Words, trace: Trace)
    requires Opener(k) && words != [] && !Allowed(k, Still(env, Opened(Skipped(k), k), words[0], trace))
    ensures ParseWords(env, Opened(Skipped(k), k), words, trace) != Outcome(true, Opened(Skipped(k), k), trace)
  {
    SkippedAwaits(k);
    Openers();
    var np := Opened(Skipped(k), k);
    assert !np.InLoopHeader();
    DisabledTake(env, np, words, trace);
    hide Skipped, Opened, Take, TakeNext, Perform, KindOf, SaveResult, Value, Np.CmdEnabled, LoopStep, ItefStep;
    var t0 := Take(env, np, words, trace);
    DisabledNext(env, LOOP_KEYWORDS, np, t0.words, trace);
    var t1 := TakeNext(env, LOOP_KEYWORDS, np, t0.words, trace);
    if KindOf(t0.words[0]) in LOOP_KEYWORDS {
      LoopKeywordSeen(k, t1.words);
      hide ParseItef;
      var r := LoopStep(np, t1.words);
      if r.Go? { NothingLeft(env, r.np, trace); }
    } else {
      LoopOther(np, t1.words);
      DisabledNext(env, ITEF_KEYWORDS, np, t1.words, trace);
      var t2 := TakeNext(env, ITEF_KEYWORDS, np, t1.words, trace);
      ItefKeywordSeen(k, t2.words);
      var r := ItefStep(np, t2.words);
      if r.Go? { PerformNothing(env, r.np, r.rest, trace); }
    }
  }

  lemma NothingLeft(env: Env, np: Np, trace: Trace)
    requires np.Valid()
    ensures ParseItef(env, np, [], trace) == Outcome(true, np, trace)
  {
  }

  lemma PerformNothing(env: Env, np: Np, words: Words, trace: Trace)
    requires np.Valid() && (words == [] || !np.CmdEnabled())
    ensures Perform(env, np, words, trace) == Outcome(true, np, trace)
  {
  }

  /** A keyword that stands there is overlooked on the line of the opener, and
      not on its own line. */
  lemma HiddenKeyword(env: Env, k: string, rest: Words, trace: Trace)
    requires Opener(k) && rest != [] && !Allowed(k, Still(env, Skipped(k), rest[0], trace))
    ensures Skipped(k).Valid()
    ensures ParseWords(env, Skipped(k), [k] + rest, trace) != Halves(env, Skipped(k), k, rest, trace)
  {
    SkippedAwaits(k);
    var np := Skipped(k);
    var np1 := Opened(np, k);
    assert np1.Itef().state != ItefIf && np1.fail == np.fail;
    hide ParseWords, Value, Skipped, Opened, Allowed, Behind, Take, Np.CmdEnabled;
    DisabledTake(env, np, rest, trace);
    Glued(env, np, k, rest, trace);
    Overlooked(env, np1, k, [Still(env, np, rest[0], trace)] + rest[1..], trace);
    Alone(env, np, k, trace);
    KeywordSeen(env, k, rest, trace);
  }

  /** Gluing is harmless for every shell exactly if the word after the keyword has
      nothing to expand and is no keyword that would be overlooked. */
  lemma GlueExactly(k: string, rest: Words)
    requires Opener(k) && rest != []
    ensures AlwaysAlike(k, rest) <==> Literal(rest[0]) && Allowed(k, rest[0])
  {
    hide ParseWords, Halves, RunInside, Inside, Literal, Allowed;
    if Literal(rest[0]) && Allowed(k, rest[0]) {
      forall env: Env, np: Np, trace: Trace | Awaits(np, k)
        ensures ParseWords(env, np, [k] + rest, trace) == Halves(env, np, k, rest, trace)
      {
        LiteralGlue(env, np, k, rest, trace);
      }
    } else {
      var env := Env((t, c) => false, (t, u, f, w) => "while");
      SkippedAwaits(k);
      AnyKeyword(k);
      HiddenKeyword(env, k, rest, []);
    }
  }

  lemma AnyKeyword(k: string)
    requires Opener(k)
    ensures !Allowed(k, "while")
  {
    Openers();
    assert KindOf("while") == While;
  }

  lemma LiteralGlue(env: Env, np: Np, k: string, rest: Words, trace: Trace)
    requires Opener(k) && Awaits(np, k) && rest != [] && Literal(rest[0]) && Allowed(k, rest[0])
    ensures ParseWords(env, np, [k] + rest, trace) == Halves(env, np, k, rest, trace)
  {
    LiteralQuiet(rest[0]);
    NoBackquote(rest[0]);
    hide ParseWords, Halves, Inside, Literal, Allowed;
    QuietGlue(env, np, k, rest, trace);
  }

  // ----- For shells in which no word stands for a keyword -----

  /** Whatever happens, the word stands for no keyword that would be overlooked. */
  ghost predicate Tame(env: Env, k: string, w: string) {
    forall before: Trace, after: Trace, fail: bool :: Allowed(k, Value(env, before, after, fail, w))
  }

  ghost predicate TameAlike(k: string, rest: Words)
    requires rest != []
  {
    forall env: Env, np: Np, trace: Trace :: Awaits(np, k) && Tame(env, k, rest[0]) ==>
      ParseWords(env, np, [k] + rest, trace) == Halves(env, np, k, rest, trace)
  }

  /** No pair of backquotes has a command between them. */
  predicate Idle(cmds: seq<string>) {
    forall i :: 0 <= i < |cmds| ==> Tokens(cmds[i]) == []
  }

  lemma {:induction false} IdleInside(env: Env, np: Np, cmds: seq<string>, trace: Trace)
    requires np.Valid() && Idle(cmds)
    ensures RunInside(env, np, cmds, trace) == After(np, trace)
    decreases |cmds|
  {
    hide Tokens;
    if cmds != [] {
      assert CmdParm(env, np, cmds[0], trace) == Outcome(true, np, trace);
      IdleInside(env, np, cmds[1..], trace);
    }
  }

  /** The block that the keyword opens is not to be run: the condition of the `if`
      has failed, or held in the case of "else", and that of the loop has failed. */
  function Refused(k: string): Np
    requires Opener(k)
  {
    var loop := LoopLevel(LoopWhile, false, 0, 0);
    var top := ItefLevel(if k == "then" then ItefIf else ItefThen, false, k == "then");
    Np(true, false, 0, 0, 0, false, if k == "do" then 1 else 0,
       [LoopLevel(LoopNormal, true, 0, 0), loop], if k == "do" then 0 else 1,
       [ItefLevel(ItefNormal, false, false), top])
  }

  /** States like that one, whatever has run in them. */
  predicate Waiting(np: Np, k: string) {
    && Opener(k) && Awaits(np, k) && np.CmdEnabled()
    && (k == "do" ==> np.Loop().state == LoopWhile && np.Itef().state == ItefNormal)
    && (k != "do" ==> np.Loop().state == LoopNormal)
    && (k == "else" ==> !np.Itef().ifcond)
  }

  /** A command that succeeds leaves this mark on the state. */
  predicate Marked(np: Np, k: string)
    requires Waiting(np, k)
  {
    if k == "do" then np.Loop().enable
    else if k == "then" then !np.Itef().ifcond
    else !np.fail
  }

  lemma SaveWaits(np: Np, k: string, failed: bool)
    requires Waiting(np, k)
    ensures var np1 := SaveResult(np, failed).0; Waiting(np1, k) && (!failed ==> Marked(np1, k))
    ensures BreakStep(np) == np
  {
  }

  /** A command either is recorded or leaves its mark. */
  lemma ExecuteMarks(run: Interpreter, np: Np, k: string, words: Words, trace: Trace)
    requires Waiting(np, k) && words != []
    ensures var o := Execute(run, np, words, trace);
      Waiting(o.np, k) && (o.trace == trace ==> Marked(o.np, k))
  {
    hide Waiting, Marked, SaveResult, KindOf, BreakStep;
    assert np.Valid() by { WaitsValid(np, k); }
    SaveWaits(np, k, false);
    var call := Call(Clip(words), np.fail);
    SaveWaits(np, k, run(trace, call));
    assert |trace + [call]| > |trace|;
  }

  lemma WaitsValid(np: Np, k: string)
    requires Waiting(np, k)
    ensures np.Valid() && np.CmdEnabled()
  {
  }

  lemma {:induction false} InsideMarks(env: Env, np: Np, k: string, cmds: seq<string>, trace: Trace)
    requires Waiting(np, k)
    ensures var r := RunInside(env, np, cmds, trace);
      Waiting(r.np, k) && (r.trace == trace && (Marked(np, k) || !Idle(cmds)) ==> Marked(r.np, k))
    decreases |cmds|
  {
    hide Waiting, Marked, Execute, Tokens, Np.CmdEnabled;
    WaitsValid(np, k);
    if cmds != [] {
      var words := Tokens(cmds[0]);
      var o := CmdParm(env, np, cmds[0], trace);
      if words != [] {
        ExecuteMarks(env.run, np, k, [Value(env, trace, trace, np.fail, words[0])] + words[1..], trace);
      }
      InsideMarks(env, o.np, k, cmds[1..], o.trace);
    }
  }

  lemma BehindPlain(env: Env, np: Np, k: string, words: Words, trace: Trace)
    requires np.Valid() && np.Itef().state != ItefIf && words != [] && KindOf(words[0]) == Plain
    ensures Behind(env, np, k, words, trace) == Perform(env, np, words, trace)
  {
    hide Perform, KindOf, Take;
  }

  lemma PerformRecords(env: Env, np: Np, words: Words, trace: Trace)
    requires np.Valid() && np.CmdEnabled() && words != [] && KindOf(words[0]) == Plain
    ensures Perform(env, np, words, trace).trace != trace
  {
    hide TakeArgs, SaveResult, KindOf, Np.CmdEnabled;
    var r := TakeArgs(env, np, Clip(words)[1..], trace);
    assert |r.trace + [Call(Clip(words), r.np.fail)]| > |trace|;
  }

  /** Behind the keyword the mark decides whether the block is run. */
  lemma OpenedMarked(np: Np, k: string)
    requires Waiting(np, k)
    ensures np.Valid() && Opened(np, k).Itef().state != ItefIf && Opened(np, k).fail == np.fail
    ensures Opened(np, k).CmdEnabled() == (k != "else" && Marked(np, k))
  {
  }

  lemma RefusedWaits(k: string)
    requires Opener(k)
    ensures Waiting(Refused(k), k) && !Marked(Refused(k), k) && (k == "else" ==> Refused(k).fail)
  {
  }

  /** What stands behind the keyword comes to something else once the state is
      marked or something has run. */
  lemma MarkShows(env: Env, np: Np, np0: Np, k: string, words: Words, trace: Trace)
    requires Waiting(np, k) && Waiting(np0, k) && !Marked(np0, k) && (k == "else" ==> np0.fail)
    requires trace != [] || Marked(np, k)
    requires words != [] && KindOf(words[0]) == Plain
    ensures Behind(env, Opened(np, k), k, words, trace) != Outcome(true, Opened(np0, k), [])
  {
    OpenedMarked(np, k);
    OpenedMarked(np0, k);
    assert k == "else" && Marked(np, k) ==> !np.fail;
    hide Waiting, Marked, Opened, Np.CmdEnabled, Behind, Perform, KindOf;
    BehindPlain(env, Opened(np, k), k, words, trace);
    assert trace <= Perform(env, Opened(np, k), words, trace).trace;
    if Opened(np, k).CmdEnabled() {
      PerformRecords(env, Opened(np, k), words, trace);
    } else {
      PerformNothing(env, Opened(np, k), words, trace);
    }
  }

  /** A backquoted command behind the keyword runs although the block is not to be
      run, or decides that it is run after all. */
  lemma BackquoteRuns(env: Env, k: string, rest: Words)
    requires Opener(k) && rest != [] && !Idle(Inside(rest[0]))
    requires forall before: Trace, after: Trace, fail: bool :: KindOf(Value(env, before, after, fail, rest[0])) == Plain
    ensures Refused(k).Valid()
    ensures ParseWords(env, Refused(k), [k] + rest, []) != Halves(env, Refused(k), k, rest, [])
  {
    RefusedWaits(k);
    var np := Refused(k);
    OpenedMarked(np, k);
    var np1 := Opened(np, k);
    hide Refused, Opened, Value, ParseWords, Behind, RunInside, Inside, Idle, Waiting, Marked, Np.CmdEnabled, KindOf;
    InsideMarks(env, np, k, Inside(rest[0]), []);
    var t := Take(env, np, rest, []);
    assert Awaits(t.np, k) by { WaitsAwaits(t.np, k); }
    Glued(env, np, k, rest, []);
    MarkShows(env, t.np, np, k, t.words, t.trace);
    Alone(env, np, k, []);
    DisabledTake(env, np1, rest, []);
    var u := Take(env, np1, rest, []);
    PlainAllowed(k, u.words[0]);
    Second(env, np, k, rest, []);
    BehindPlain(env, np1, k, u.words, []);
    PerformNothing(env, np1, u.words, []);
  }

  lemma WaitsAwaits(np: Np, k: string)
    requires Waiting(np, k)
    ensures Awaits(np, k)
  {
  }

  lemma PlainAllowed(k: string, w: string)
    requires KindOf(w) == Plain
    ensures Allowed(k, w)
  {
    hide KindOf;
  }

  /** Even if no word ever stands for a keyword, gluing is harmless exactly if the
      word after the keyword has no command in backquotes. */
  lemma BackquoteExactly(k: string, rest: Words)
    requires Opener(k) && rest != []
    ensures TameAlike(k, rest) <==> Idle(Inside(rest[0]))
  {
    hide ParseWords, Halves, RunInside, Inside, Literal, Allowed, Idle, Tame;
    if Idle(Inside(rest[0])) {
      forall env: Env, np: Np, trace: Trace | Awaits(np, k) && Tame(env, k, rest[0])
        ensures ParseWords(env, np, [k] + rest, trace) == Halves(env, np, k, rest, trace)
      {
        IdleGlue(env, np, k, rest, trace);
      }
    } else {
      NotLiteral(rest[0]);
      var env := Env((t, c) => true, (t, u, f, w) => "x");
      PlainValues(env, k, rest[0]);
      BackquoteRuns(env, k, rest);
      RefusedWaits(k);
      WaitsAwaits(Refused(k), k);
    }
  }

  lemma PlainValues(env: Env, k: string, w: string)
    requires !Literal(w) && forall t: Trace, u: Trace, f: bool, v: string :: env.value(t, u, f, v) == "x"
    ensures forall before: Trace, after: Trace, fail: bool :: KindOf(Value(env, before, after, fail, w)) == Plain
    ensures Tame(env, k, w)
  {
    assert KindOf("x") == Plain;
    PlainAllowed(k, "x");
  }

  lemma NotLiteral(w: string)
    requires !Idle(Inside(w))
    ensures !Literal(w)
  {
    if Literal(w) {
      LiteralQuiet(w);
      NoBackquote(w);
    }
  }

  lemma IdleGlue(env: Env, np: Np, k: string, rest: Words, trace: Trace)
    requires Opener(k) && Awaits(np, k) && rest != [] && Idle(Inside(rest[0])) && Tame(env, k, rest[0])
    ensures ParseWords(env, np, [k] + rest, trace) == Halves(env, np, k, rest, trace)
  {
    assert Allowed(k, Still(env, np, rest[0], trace));
    hide ParseWords, Halves, Inside, Idle, Allowed, Value;
    IdleInside(env, np, Inside(rest[0]), trace);
    IdleInside(env, Opened(np, k), Inside(rest[0]), trace);
    QuietGlue(env, np, k, rest, trace);
  }
}
