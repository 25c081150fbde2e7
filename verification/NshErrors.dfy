/** Syntax errors: which commands are in error, when an error ends the script,
    and what state it leaves behind. */
module NshErrors {
  import opened NshState
  import opened NshText
  import Q = NshQuoted
  import R = NshScript
  import B = NshBackquote

  // ----- Keywords out of place -----

  predicate LoopKeyword(w: string) {
    w == "while" || w == "until" || w == "do" || w == "done"
  }

  /** A loop keyword is out of place, or another word where "do" has to stand. */
  predicate LoopMisplaced(np: Np, words: Words)
    requires np.Valid()
  {
    words != [] &&
      var w := words[0];
      if w == "while" || w == "until" then
        || |words| == 1 || np.Itef().state == ItefIf || np.InLoopHeader()
        || !np.scripted || np.foffs < 0 || np.lpndx == |np.lp| - 1
      else if w == "do" then !np.InLoopHeader()
      else if w == "done" then |words| > 1 || np.Loop().state != LoopDo || np.lpndx == 0
      else np.InLoopHeader()
  }

  /** An `if` keyword is out of place, or another word where "then" has to stand. */
  predicate ItefMisplaced(np: Np, words: Words)
    requires np.Valid()
  {
    words != [] &&
      var w := words[0];
      if w == "if" then |words| == 1 || np.Itef().state == ItefIf || np.iendx == |np.ie| - 1
      else if w == "then" then np.Itef().state != ItefIf
      else if w == "else" then np.Itef().state != ItefThen
      else if w == "fi" then |words| > 1 || !np.Itef().InBranch() || np.iendx == 0
      else np.Itef().state == ItefIf
  }

  /** What follows a loop keyword. */
  function Behind(words: Words): Words {
    if words != [] && LoopKeyword(words[0]) then words[1..] else words
  }

  /** The error is found while no condition is being waited for. */
  predicate Noticed(np: Np, words: Words)
    requires np.Valid()
  {
    if LoopMisplaced(np, words) then np.Itef().state != ItefIf
    else ItefMisplaced(np, Behind(words)) && words[0] != "while" && words[0] != "until"
  }

  lemma Spelled(w: string)
    ensures LoopKeyword(w) <==> KindOf(w) in LOOP_KEYWORDS
    ensures w == "while" <==> KindOf(w) == While
    ensures w == "until" <==> KindOf(w) == Until
    ensures w == "do" <==> KindOf(w) == Do
    ensures w == "done" <==> KindOf(w) == Done
    ensures w == "if" <==> KindOf(w) == If
    ensures w == "then" <==> KindOf(w) == Then
    ensures w == "else" <==> KindOf(w) == Else
    ensures w == "fi" <==> KindOf(w) == Fi
  {
  }

  lemma LoopBad(np: Np, words: Words)
    requires np.Valid()
    ensures var r := LoopStep(np, words);
      && r.Bad? == LoopMisplaced(np, words)
      && (r.Go? ==> r.rest == Behind(words) && r.np.ie == np.ie && r.np.iendx == np.iendx)
      && (r.Go? && words != [] && (words[0] == "while" || words[0] == "until") ==> r.np.InLoopHeader())
      && (r.Go? && words != [] && words[0] !in {"while", "until", "done"} ==> !r.np.InLoopHeader())
  {
    if words != [] { Spelled(words[0]); }
    hide KindOf;
  }

  lemma ItefBadExactly(np: Np, words: Words)
    requires np.Valid()
    ensures ItefStep(np, words).Bad? == ItefMisplaced(np, words)
  {
    if words != [] { Spelled(words[0]); }
    hide KindOf;
  }

  // ----- What an error leaves behind -----

  /** The position in the script, which an error does not change. */
  predicate SamePlace(a: Np, b: Np) {
    a.scripted == b.scripted && a.fpos == b.fpos && a.foffs == b.foffs && a.loffs == b.loffs
  }

  predicate SameAbove<T(==)>(a: seq<T>, b: seq<T>) {
    |a| == |b| && forall i :: 0 < i < |a| ==> a[i] == b[i]
  }

  /** An error of a loop keyword runs nothing and leaves all loops.  Behind `if` it
      is not reported, but taken for the failure of the condition. */
  lemma LoopError(run: Interpreter, np: Np, words: Words, trace: Trace)
    requires np.Valid() && LoopMisplaced(np, words)
    ensures var o := ParseCommand(run, np, words, trace);
      && o.trace == trace && SamePlace(np, o.np) && !o.np.jump && o.np.fail == !o.ok
      && o.np.lpndx == 0 && o.np.lp[0] == np.lp[0].(state := LoopNormal, enable := true, topoffs := 0)
      && SameAbove(np.lp, o.np.lp) && o.np.iendx == np.iendx
      && if np.Itef().state == ItefIf then o.ok && o.np.ie == np.ie[np.iendx := np.Itef().(ifcond := true)]
         else !o.ok && o.np.ie == np.ie
  {
    LoopBad(np, words);
    hide LoopMisplaced;
    if words != [] { Spelled(words[0]); }
    hide KindOf;
  }

  /** An error of an `if` keyword runs nothing and leaves all `if`s.  Behind `while`
      and `until` it is not reported, but taken for the failure of the test. */
  lemma ItefError(run: Interpreter, np: Np, words: Words, trace: Trace)
    requires np.Valid() && !LoopMisplaced(np, words) && ItefMisplaced(np, Behind(words))
    ensures words != [] && words[0] != "done"
    ensures var o, w := ParseCommand(run, np, words, trace), words[0];
      && o.trace == trace && SamePlace(np, o.np) && o.np.fail == !o.ok
      && o.np.iendx == 0 && o.np.ie[0] == ItefLevel(ItefNormal, false, false) && SameAbove(np.ie, o.np.ie)
      && if w == "while" || w == "until" then
           && o.ok && o.np.lpndx == np.lpndx + 1
           && o.np.Loop() == LoopLevel(if w == "while" then LoopWhile else LoopUntil, w == "until", np.iendx,
                                       np.foffs + np.loffs)
         else
           && !o.ok && o.np.lpndx == np.lpndx && o.np.jump == np.jump
           && o.np.lp == if w == "do" then np.lp[np.lpndx := np.Loop().(state := LoopDo)] else np.lp
  {
    Spelled(words[0]);
    LoopBad(np, words);
    var np1, rest := LoopStep(np, words).np, LoopStep(np, words).rest;
    ItefBadExactly(np1, rest);
    SameMisplaced(np, np1, rest);
    hide KindOf, LoopMisplaced, ItefMisplaced;
    match KindOf(words[0])
    case While =>
    case Until =>
    case Do =>
    case Done =>
    case _ =>
  }

  lemma SameMisplaced(a: Np, b: Np, words: Words)
    requires a.Valid() && b.Valid() && a.ie == b.ie && a.iendx == b.iendx
    ensures ItefMisplaced(a, words) == ItefMisplaced(b, words)
  {
  }

  // ----- When an error ends the script -----

  /** A command that is left to run is recorded or is a `break`, which succeeds. */
  lemma DispatchSays(run: Interpreter, np: Np, words: Words, trace: Trace)
    requires np.Valid()
    ensures var o := Dispatch(run, np, words, trace); o.ok || |o.trace| > |trace|
  {
    hide KindOf;
  }

  /** A command fails without having run anything exactly if a keyword is out of
      place and no condition is being waited for. */
  lemma ErrorExactly(run: Interpreter, np: Np, words: Words, trace: Trace)
    requires np.Valid()
    ensures var o := ParseCommand(run, np, words, trace);
      !o.ok && o.trace == trace <==> Noticed(np, words)
  {
    hide LoopStep, ItefStep, Dispatch, LoopMisplaced, ItefMisplaced;
    LoopBad(np, words);
    if LoopMisplaced(np, words) {
      LoopError(run, np, words, trace);
    } else if ItefMisplaced(np, Behind(words)) {
      ItefError(run, np, words, trace);
    } else {
      var np1, rest := LoopStep(np, words).np, LoopStep(np, words).rest;
      ItefBadExactly(np1, rest);
      SameMisplaced(np, np1, rest);
      DispatchSays(run, ItefStep(np1, rest).np, ItefStep(np1, rest).rest, trace);
    }
  }

  /** Does the stack that the error has left alone let commands run? */
  predicate StillEnabled(np: Np, words: Words)
    requires np.Valid() && words != []
  {
    if LoopMisplaced(np, words) then np.ItefEnabled()
    else if words[0] == "do" then np.Loop().enable
    else np.LoopEnabled()
  }

  lemma NextCommand(run: Interpreter, np: Np, c: Words, trace: Trace)
    requires np.Valid() && !np.InLoopHeader() && np.Itef().state != ItefIf && Simple(c)
    ensures ParseCommand(run, np, c, trace).trace == if np.CmdEnabled() then trace + [Call(Clip(c), np.fail)] else trace
  {
    hide KindOf, LoopStep, ItefStep;
    LoopOther(np, c);
    ItefOther(np, c);
  }

  /** After an error that was reported, the next plain command is run, with `$?` set,
      exactly if the stack that the error has left alone lets it. */
  lemma Recovery(run: Interpreter, np: Np, words: Words, c: Words, trace: Trace)
    requires np.Valid() && Noticed(np, words) && Simple(c)
    ensures words != []
    ensures var o := ParseCommand(run, np, words, trace);
      ParseCommand(run, o.np, c, trace).trace
      == if StillEnabled(np, words) then trace + [Call(Clip(c), true)] else trace
  {
    var o := ParseCommand(run, np, words, trace);
    if LoopMisplaced(np, words) {
      hide ParseCommand;
      LoopError(run, np, words, trace);
    } else {
      hide ParseCommand;
      ItefError(run, np, words, trace);
    }
    NextCommand(run, o.np, c, trace);
  }

  // ----- Scripts -----

  /** An empty script fails, as if it could not be read. */
  lemma EmptyScript(env: Env, np: Np, trace: Trace)
    requires np.Valid()
    ensures R.TextEnds(env, "", np, trace, R.Ending(false, trace, 0, 0))
  {
    var c := ReadLines(env, "", Reading(np, trace, false), 1);
    assert c.Halted? && !c.ok && c.trace == trace;
  }

  const FORGOTTEN := "if a" + "\n" + ("b" + "\n" + "")
  const UNNOTICED := "while then" + "\n" + ("do" + "\n" + ("done" + "\n" + ""))

  lemma ForgottenLines()
    ensures Line(FORGOTTEN, 0) == "if a" + "\n" && Line(FORGOTTEN, 5) == "b" + "\n"
  {
    hide Line;
    assert FORGOTTEN[0..] == FORGOTTEN;
    Q.LineAt(FORGOTTEN, 0, "if a", "b" + "\n" + "");
    Q.LineAt(FORGOTTEN, 5, "b", "");
  }

  /** Where "then" was forgotten, the next command is not run and the script fails. */
  lemma ForgottenThen(env: Env, np: Np)
    requires env.run([], B.A) && R.Fresh(np) && !np.fail && |np.lp| >= 2 && LINELEN > 5
    ensures R.TextEnds(env, FORGOTTEN, np, [], R.Ending(false, [B.A], 0, 0))
  {
    hide Line, NextPiece, Tokens, ParseCommand, ReadLine, ReadLines, Fixed, KindOf, B.Between, R.TextEnds, R.Fresh;
    ForgottenLines();
    B.ScriptWords();
    B.Pieces();
    Q.WordLine("b");
    B.ScriptFixed();
    PlainFixed();
    FreshBetween(np);
    Q.Round(env, FORGOTTEN, np, [], false, "if a" + "\n", 0, ["if", "a"]);
    B.IfRound(env.run, np);
    var c1 := ReadLine(env, FORGOTTEN, Reading(np, [], false));
    B.Placing(c1.np, 5, 1, ItefIf, true);
    Q.Round(env, FORGOTTEN, c1.np, [B.A], true, "b" + "\n", 0, ["b"]);
    ThenMissing(env.run, c1.np);
    var c2 := ReadLine(env, FORGOTTEN, c1);
    TwoRounds(env, FORGOTTEN, Reading(np, [], false), c1, c2);
    Q.HaltedEnds(env, FORGOTTEN, np, [], 2, R.Ending(false, [B.A], 0, 0));
  }

  lemma PlainFixed()
    ensures Fixed(["b"])
  {
  }

  lemma FreshBetween(np: Np)
    requires R.Fresh(np) && !np.fail && |np.lp| >= 2
    ensures np.Valid() && np.fpos == 0 && B.Between(np, 0, 0, ItefNormal, false)
  {
  }

  lemma ThenMissing(run: Interpreter, np: Np)
    requires B.Between(np, 5, 1, ItefIf, true)
    ensures var o := ParseCommand(run, Q.Placed(np, "b" + "\n", 0), ["b"], [B.A]); !o.ok && o.trace == [B.A]
  {
    hide ParseCommand;
    ErrorExactly(run, Q.Placed(np, "b" + "\n", 0), ["b"], [B.A]);
  }

  lemma TwoRounds(env: Env, file: string, c0: Script, c1: Script, c2: Script)
    requires c0.np.Valid() && c1 == ReadLine(env, file, c0) && c1.np.Valid() && c2 == ReadLine(env, file, c1)
    ensures ReadLines(env, file, c0, 2) == c2
  {
    hide ReadLine;
    assert ReadLines(env, file, c1, 1) == ReadLines(env, file, c2, 0);
  }

  lemma UnnoticedLines()
    ensures |UNNOTICED| == 19 && Line(UNNOTICED, 19) == "" && Line(UNNOTICED, 0) == "while then" + "\n"
    ensures Line(UNNOTICED, 11) == "do" + "\n" && Line(UNNOTICED, 14) == "done" + "\n"
  {
    Q.NoLine(UNNOTICED);
    hide Line;
    assert UNNOTICED[0..] == UNNOTICED;
    Q.LineAt(UNNOTICED, 0, "while then", "do" + "\n" + ("done" + "\n" + ""));
    Q.LineAt(UNNOTICED, 11, "do", "done" + "\n" + "");
    Q.LineAt(UNNOTICED, 14, "done", "");
  }

  lemma UnnoticedWords()
    ensures Tokens("while then" + "\n") == ["while", "then"] && NextPiece("while then" + "\n", 0) == Last(0)
  {
    hide Tokens, NextPiece;
    B.FirstWord("while", "then" + "\n");
    assert "while" + (" " + ("then" + "\n")) == "while then" + "\n";
    Q.WordLine("then");
    B.OnePiece("while then");
  }

  /** Between the lines: in the loop, with its test failed, or not. */
  predicate Between(np: Np, fpos: int, depth: nat, state: LoopState) {
    && np.Valid() && !np.fail && np.fpos == fpos && np.iendx == 0 && np.Itef() == ItefLevel(ItefNormal, false, false)
    && np.lpndx == depth < 2 <= |np.lp| && np.lp[0].state == LoopNormal
    && (depth == 1 ==> np.lp[1].state == state && !np.lp[1].enable)
  }

  lemma WhileRound(run: Interpreter, np: Np)
    requires R.Fresh(np) && |np.lp| >= 2
    ensures var o := ParseCommand(run, Q.Placed(np, "while then" + "\n", 0), ["while", "then"], []);
      o.ok && o.trace == [] && Between(o.np, 11, 1, LoopWhile)
  {
    var m := Q.Placed(np, "while then" + "\n", 0);
    assert ["while", "then"][1..] == ["then"];
    hide ParseCommand;
    ItefError(run, m, ["while", "then"], []);
  }

  lemma DoRound(run: Interpreter, np: Np)
    requires Between(np, 11, 1, LoopWhile)
    ensures var o := ParseCommand(run, Q.Placed(np, "do" + "\n", 0), ["do"], []);
      o.ok && o.trace == [] && Between(o.np, 14, 1, LoopDo)
  {
    assert KindOf("do") == Do && ["do"][1..] == [];
    hide KindOf;
  }

  lemma DoneRound(run: Interpreter, np: Np)
    requires Between(np, 14, 1, LoopDo)
    ensures var o := ParseCommand(run, Q.Placed(np, "done" + "\n", 0), ["done"], []);
      o.ok && o.trace == [] && Between(o.np, 19, 0, LoopNormal)
  {
    assert KindOf("done") == Done && ["done"][1..] == [];
    hide KindOf;
  }

  /** A script with an error that nobody notices: it ends well and runs nothing. */
  lemma UnnoticedError(env: Env, np: Np)
    requires R.Fresh(np) && |np.lp| >= 2 && LINELEN > 11
    ensures R.TextEnds(env, UNNOTICED, np, [], R.Ending(true, [], 0, 0))
  {
    hide Line, NextPiece, Tokens, ParseCommand, ReadLine, ReadLines, Fixed, Between, R.TextEnds;
    UnnoticedLines();
    UnnoticedWords();
    Q.WordLines();
    KeywordsFixed();
    Q.Round(env, UNNOTICED, np, [], false, "while then" + "\n", 0, ["while", "then"]);
    WhileRound(env.run, np);
    var c1 := ReadLine(env, UNNOTICED, Reading(np, [], false));
    Placing(c1.np, 11, 1, LoopWhile);
    Q.Round(env, UNNOTICED, c1.np, [], true, "do" + "\n", 0, ["do"]);
    DoRound(env.run, c1.np);
    var c2 := ReadLine(env, UNNOTICED, c1);
    Placing(c2.np, 14, 1, LoopDo);
    Q.Round(env, UNNOTICED, c2.np, [], true, "done" + "\n", 0, ["done"]);
    DoneRound(env.run, c2.np);
    var c3 := ReadLine(env, UNNOTICED, c2);
    Placing(c3.np, 19, 0, LoopNormal);
    B.EndRound(env, UNNOTICED, c3.np, []);
    var c4 := ReadLine(env, UNNOTICED, c3);
    B.FourRounds(env, UNNOTICED, Reading(np, [], false), c1, c2, c3, c4);
    Q.HaltedEnds(env, UNNOTICED, np, [], 4, R.Ending(true, [], 0, 0));
  }

  lemma KeywordsFixed()
    ensures Fixed(["while", "then"]) && Fixed(["do"]) && Fixed(["done"])
  {
    assert KindOf("then") == Then;
  }

  lemma Placing(np: Np, fpos: int, depth: nat, state: LoopState)
    requires Between(np, fpos, depth, state)
    ensures np.Valid() && np.fpos == fpos && np.lpndx == depth && np.iendx == 0
  {
  }
}
