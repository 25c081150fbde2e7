/** Two scripts with the same commands: a backquoted command on the line of its
    "then", and on a line of its own. */
module NshBackquote {
  import opened NshState
  import opened NshText
  import opened NshLayout
  import opened NshGlue
  import P = NshPrint
  import Q = NshQuoted
  import R = NshScript
  import H = NshHeader
  import S = CStrings
  import X = NshExpand

  const GLUED := "if a" + "\n" + ("then `b`" + "\n" + ("fi" + "\n" + ""))
  const APART := "if a" + "\n" + ("then" + "\n" + ("`b`" + "\n" + ("fi" + "\n" + "")))

  const A := Call(["a"], false)
  const B := Call(["b"], false)
  const C := Call(["c"], false)

  /** Only the first command fails, and the output of `b` is "c". */
  ghost predicate Setting(env: Env) {
    && (forall t: Trace, c: Call :: env.run(t, c) == (|t| == 0))
    && (forall t: Trace, u: Trace, f: bool, w: string :: env.value(t, u, f, w) == "c")
  }

  // ----- The texts -----

  lemma GluedLines()
    ensures |GLUED| == 17 && Line(GLUED, 17) == ""
    ensures Line(GLUED, 0) == "if a" + "\n" && Line(GLUED, 5) == "then `b`" + "\n" && Line(GLUED, 14) == "fi" + "\n"
  {
    Q.NoLine(GLUED);
    hide Line;
    assert GLUED[0..] == GLUED;
    Q.LineAt(GLUED, 0, "if a", "then `b`" + "\n" + ("fi" + "\n" + ""));
    Q.LineAt(GLUED, 5, "then `b`", "fi" + "\n" + "");
    Q.LineAt(GLUED, 14, "fi", "");
  }

  lemma ApartLines()
    ensures |APART| == 17 && Line(APART, 17) == ""
    ensures Line(APART, 0) == "if a" + "\n" && Line(APART, 5) == "then" + "\n"
    ensures Line(APART, 10) == "`b`" + "\n" && Line(APART, 14) == "fi" + "\n"
  {
    Q.NoLine(APART);
    hide Line;
    assert APART[0..] == APART;
    Q.LineAt(APART, 0, "if a", "then" + "\n" + ("`b`" + "\n" + ("fi" + "\n" + "")));
    Q.LineAt(APART, 5, "then", "`b`" + "\n" + ("fi" + "\n" + ""));
    Q.LineAt(APART, 10, "`b`", "fi" + "\n" + "");
    Q.LineAt(APART, 14, "fi", "");
  }

  /** A line without anything that could end a command early. */
  lemma OnePiece(s: string)
    requires forall i :: 0 <= i < |s| ==> !LineSeparator(s[i])
    ensures NextPiece(s + "\n", 0) == Last(0)
  {
    hide Span;
    H.SpanIs(s + "\n", 0, |s|);
    PieceUnfold(s + "\n", 0);
  }

  lemma BackquotedWord()
    ensures Tokens("`b`" + "\n") == ["`b`"]
  {
    var s := "`b`" + "\n";
    assert SkipSeparators(s) == s;
    assert s[1..] == "b`\n" && s[1..][1..] == "`\n" && s[1..][1..][1..] == "\n";
    assert WordEnd("\n", false, false) == 0;
    assert WordEnd("`\n", false, true) == 1;
    assert WordEnd("b`\n", false, true) == 2;
    assert WordEnd(s, false, false) == 3;
    hide WordEnd;
    assert s[..3] == "`b`" && s[4..] == "";
    assert NextToken(s) == Token("`b`", "");
    assert Tokens("") == [];
  }

  lemma Inner()
    ensures Inside("`b`") == ["b"] && Tokens("b") == ["b"]
  {
    var s := "`b`";
    assert X.FindSpecial(s) == 0 && s[0 + 1..] == "b`";
    assert S.Find("b`", '`') == 1 by { assert "b`"[1..] == "`"; }
    assert "b`"[..1] == "b" && "b`"[1 + 1..] == "" && s[..0] == "";
    assert X.FirstPart(s) == X.Found("", X.Command("b"), "");
    var more := X.Read("").parts;
    assert more == [X.Text("")] && Backquoted(more) == [] by { assert more[1..] == []; }
    var parts := X.Read(s).parts;
    assert parts == [X.Text(""), X.Command("b")] + more;
    assert parts[1..] == [X.Command("b")] + more && parts[1..][1..] == more;
    assert Backquoted(parts[1..]) == ["b"] + [];
    P.WordBack("b", "");
    assert !P.NeedsQuotes("b") && "b" + "" == "b" && Tokens("") == [];
  }

  /** A word without quotation marks at the start of a line. */
  lemma FirstWord(w: string, rest: string)
    requires P.Printable(w) && !P.NeedsQuotes(w)
    ensures Tokens(w + (" " + rest)) == [w] + Tokens(rest)
  {
    hide Tokens;
    P.WordBack(w, " " + rest);
    P.LeadingSpace(' ', rest);
  }

  lemma ScriptWords()
    ensures Tokens("if a" + "\n") == ["if", "a"] && Tokens("then `b`" + "\n") == ["then", "`b`"]
    ensures Tokens("then" + "\n") == ["then"] && Tokens("fi" + "\n") == ["fi"]
  {
    hide Tokens;
    FirstWord("if", "a" + "\n");
    assert "if" + (" " + ("a" + "\n")) == "if a" + "\n";
    Q.WordLine("a");
    FirstWord("then", "`b`" + "\n");
    assert "then" + (" " + ("`b`" + "\n")) == "then `b`" + "\n";
    BackquotedWord();
    Q.WordLine("then");
    Q.WordLine("fi");
  }

  lemma Pieces()
    ensures NextPiece("if a" + "\n", 0) == Last(0) && NextPiece("then `b`" + "\n", 0) == Last(0)
    ensures NextPiece("then" + "\n", 0) == Last(0) && NextPiece("`b`" + "\n", 0) == Last(0)
    ensures NextPiece("fi" + "\n", 0) == Last(0)
  {
    hide NextPiece;
    OnePiece("if a");
    OnePiece("then `b`");
    OnePiece("then");
    OnePiece("`b`");
    OnePiece("fi");
  }

  // ----- The same commands -----

  lemma SameCommands()
    ensures R.Commands(FileSpots(GLUED, 0)) == R.Commands(FileSpots(APART, 0))
    ensures R.Commands(FileSpots(GLUED, 0)) == [["if", "a"], ["then"], ["`b`"], ["fi"]]
  {
    hide Line, NextPiece, Tokens, FileSpots, R.Commands, Unglue;
    GluedLines();
    ApartLines();
    ScriptWords();
    BackquotedWord();
    Pieces();
    Ungluing();
    FileUnfold(GLUED, 17);
    FileUnfold(APART, 17);
    NoCommands();
    Q.OneCommand(GLUED, 14, "fi" + "\n", 0, ["fi"]);
    Q.OneCommand(APART, 14, "fi" + "\n", 0, ["fi"]);
    TwoCommands(GLUED, 5, "then `b`" + "\n", ["then", "`b`"]);
    Q.OneCommand(APART, 10, "`b`" + "\n", 0, ["`b`"]);
    Q.OneCommand(APART, 5, "then" + "\n", 0, ["then"]);
    Q.OneCommand(GLUED, 0, "if a" + "\n", 0, ["if", "a"]);
    Q.OneCommand(APART, 0, "if a" + "\n", 0, ["if", "a"]);
  }

  lemma NoCommands()
    ensures R.Commands([]) == []
  {
  }

  lemma Ungluing()
    ensures Unglue(["if", "a"]) == [["if", "a"]] && Unglue(["then", "`b`"]) == [["then"], ["`b`"]]
    ensures Unglue(["then"]) == [["then"]] && Unglue(["`b`"]) == [["`b`"]] && Unglue(["fi"]) == [["fi"]]
  {
    assert KindOf("then") == Then && KindOf("`b`") == Plain && KindOf("if") == If && KindOf("fi") == Fi;
    hide KindOf;
    assert ["then", "`b`"][1..] == ["`b`"];
  }

  lemma TwoCommands(file: string, at: nat, line: string, words: Words)
    requires Line(file, at) == line && line != "" && NextPiece(line, 0) == Last(0)
    requires Tokens(line) == words && |words| > 1 && Unglue(words) == [[words[0]], words[1..]]
    ensures R.Commands(FileSpots(file, at)) == [[words[0]], words[1..]] + R.Commands(FileSpots(file, at + |line|))
  {
    hide Line, NextPiece, Tokens, LineSpots, FileSpots, Unglue;
    FileUnfold(file, at);
    SpotsUnfold(line, at);
    var here, rest := CommandSpots(words, at, at), FileSpots(file, at + |line|);
    assert R.Commands(here) == [[words[0]], words[1..]];
    assert R.Commands(here + rest) == R.Commands(here) + R.Commands(rest);
  }

  // ----- The runs -----

  /** Between the lines: in the `if` or not, waiting for "then" or behind it. */
  predicate Between(np: Np, fpos: int, depth: nat, state: ItefState, ifcond: bool) {
    && np.Valid() && !np.fail && np.fpos == fpos && np.lpndx == 0 && np.Loop().state == LoopNormal
    && np.iendx == depth < 2 <= |np.ie| && np.ie[0] == ItefLevel(ItefNormal, false, false)
    && (depth == 1 ==> np.ie[1] == ItefLevel(state, false, ifcond))
  }

  lemma IfRound(run: Interpreter, np: Np)
    requires Between(np, 0, 0, ItefNormal, false) && run([], A)
    ensures var o := ParseCommand(run, Q.Placed(np, "if a" + "\n", 0), ["if", "a"], []);
      o.ok && o.trace == [A] && Between(o.np, 5, 1, ItefIf, true)
  {
    assert KindOf("if") == If && KindOf("a") == Plain && ["if", "a"][1..] == ["a"];
    hide KindOf;
    var m := Q.Placed(np, "if a" + "\n", 0);
    assert LoopStep(m, ["if", "a"]) == Go(m, ["if", "a"]);
    assert Clip(["a"]) == ["a"] && [] + [A] == [A];
  }

  lemma ThenRound(run: Interpreter, np: Np)
    requires Between(np, 5, 1, ItefIf, true)
    ensures var o := ParseCommand(run, Q.Placed(np, "then" + "\n", 0), ["then"], [A]);
      o.ok && o.trace == [A] && Between(o.np, 10, 1, ItefThen, true)
  {
    assert KindOf("then") == Then && ["then"][1..] == [];
    hide KindOf;
    var m := Q.Placed(np, "then" + "\n", 0);
    assert LoopStep(m, ["then"]) == Go(m, ["then"]);
  }

  lemma FiRound(run: Interpreter, np: Np, ifcond: bool, trace: Trace)
    requires Between(np, 14, 1, ItefThen, ifcond)
    ensures var o := ParseCommand(run, Q.Placed(np, "fi" + "\n", 0), ["fi"], trace);
      o.ok && o.trace == trace && Between(o.np, 17, 0, ItefNormal, false)
  {
    assert KindOf("fi") == Fi && ["fi"][1..] == [];
    hide KindOf;
    var m := Q.Placed(np, "fi" + "\n", 0);
    assert LoopStep(m, ["fi"]) == Go(m, ["fi"]);
  }

  /** On its own line the word is read in the branch that is not run. */
  lemma ApartRound(env: Env, np: Np)
    requires Setting(env) && Between(np, 10, 1, ItefThen, true)
    ensures var o := ParseWords(env, Q.Placed(np, "`b`" + "\n", 0), ["`b`"], [A]);
      o.ok && o.trace == [A] && Between(o.np, 14, 1, ItefThen, true)
  {
    NotPlain();
    assert KindOf("c") == Plain;
    hide KindOf, Literal, ParseWords;
    var m := Q.Placed(np, "`b`" + "\n", 0);
    assert Still(env, m, "`b`", [A]) == "c";
    SkippedCommand(env, m, ["`b`"], [A]);
  }

  lemma NotPlain()
    ensures !Literal("`b`") && Literal("b")
  {
    assert X.Special("`b`"[0]);
  }

  /** On the line of "then" it runs, and its success stands for that of the
      condition. */
  lemma GluedTake(env: Env, np: Np)
    requires Setting(env) && Between(np, 14, 1, ItefIf, true)
    ensures var t := Take(env, np, ["`b`"], [A]);
      t.words == ["c"] && t.trace == [A, B] && Between(t.np, 14, 1, ItefIf, false)
  {
    Inner();
    NotPlain();
    hide Tokens, Inside, Literal;
    var o := CmdParm(env, np, "b", [A]);
    assert KindOf("b") == Plain && [Value(env, [A], [A], np.fail, "b")] + ["b"][1..] == ["b"];
    assert Clip(["b"]) == ["b"] && [A] + [B] == [A, B];
    assert o.trace == [A, B] && Between(o.np, 14, 1, ItefIf, false);
    hide CmdParm;
    assert ["b"][1..] == [] && RunInside(env, o.np, [], o.trace) == After(o.np, o.trace);
    assert RunInside(env, np, ["b"], [A]) == After(o.np, o.trace);
  }

  lemma BranchRuns(env: Env, np: Np)
    requires Setting(env) && Between(np, 14, 1, ItefThen, false)
    ensures var o := Perform(env, np, ["c"], [A, B]);
      o.ok && o.trace == [A, B, C] && Between(o.np, 14, 1, ItefThen, false)
  {
    assert KindOf("c") == Plain && Clip(["c"]) == ["c"] && ["c"][1..] == [] && [A, B] + [C] == [A, B, C];
    hide KindOf;
    assert TakeArgs(env, np, [], [A, B]) == After(np, [A, B]);
  }

  lemma GluedRound(env: Env, np: Np)
    requires Setting(env) && Between(np, 5, 1, ItefIf, true)
    ensures var o := ParseWords(env, Q.Placed(np, "then `b`" + "\n", 0), ["then", "`b`"], [A]);
      o.ok && o.trace == [A, B, C] && Between(o.np, 14, 1, ItefThen, false)
  {
    var m := Q.Placed(np, "then `b`" + "\n", 0);
    GluedTake(env, m);
    var t := Take(env, m, ["`b`"], [A]);
    assert ["then"] + ["`b`"] == ["then", "`b`"];
    hide Take, ParseWords, Setting, Perform;
    Glued(env, m, "then", ["`b`"], [A]);
    BranchRuns(env, Opened(t.np, "then"));
  }

  // ----- The scripts -----

  lemma EndRound(env: Env, file: string, np: Np, trace: Trace)
    requires np.Valid() && Line(file, np.fpos) == ""
    ensures var c := ReadLine(env, file, Reading(np, trace, true));
      c.Halted? && c.ok && c.trace == trace && c.np.lpndx == np.lpndx && c.np.iendx == np.iendx
  {
    hide Line;
  }

  lemma ScriptFixed()
    ensures Fixed(["if", "a"]) && Fixed(["then"]) && Fixed(["fi"])
  {
    assert KindOf("a") == Plain;
    hide KindOf;
  }

  lemma GluedScript(env: Env, np: Np)
    requires Setting(env) && R.Fresh(np) && !np.fail && |np.lp| >= 2 && LINELEN > 9
    ensures R.TextEnds(env, GLUED, np, [], R.Ending(true, [A, B, C], 0, 0))
  {
    GluedLines();
    ScriptWords();
    Pieces();
    ScriptFixed();
    assert Between(np, 0, 0, ItefNormal, false) && env.run([], A);
    hide Line, NextPiece, Tokens, ParseCommand, ParseWords, ReadLine, ReadLines, Fixed, Between, Setting;
    Q.Round(env, GLUED, np, [], false, "if a" + "\n", 0, ["if", "a"]);
    IfRound(env.run, np);
    var c1 := ReadLine(env, GLUED, Reading(np, [], false));
    Placing(c1.np, 5, 1, ItefIf, true);
    Q.OneRound(env, GLUED, c1.np, [A], true, "then `b`" + "\n", 0, ["then", "`b`"]);
    GluedRound(env, c1.np);
    var c2 := ReadLine(env, GLUED, c1);
    Placing(c2.np, 14, 1, ItefThen, false);
    Q.Round(env, GLUED, c2.np, [A, B, C], true, "fi" + "\n", 0, ["fi"]);
    FiRound(env.run, c2.np, false, [A, B, C]);
    var c3 := ReadLine(env, GLUED, c2);
    Placing(c3.np, 17, 0, ItefNormal, false);
    EndRound(env, GLUED, c3.np, [A, B, C]);
    var c4 := ReadLine(env, GLUED, c3);
    FourRounds(env, GLUED, Reading(np, [], false), c1, c2, c3, c4);
    Q.HaltedEnds(env, GLUED, np, [], 4, R.Ending(true, [A, B, C], 0, 0));
  }

  lemma Placing(np: Np, fpos: int, depth: nat, state: ItefState, ifcond: bool)
    requires Between(np, fpos, depth, state, ifcond)
    ensures np.Valid() && np.fpos == fpos && np.lpndx == 0 && np.iendx == depth
  {
  }

  lemma FourRounds(env: Env, file: string, c0: Script, c1: Script, c2: Script, c3: Script, c4: Script)
    requires c0.np.Valid() && c1 == ReadLine(env, file, c0)
    requires c1.np.Valid() && c2 == ReadLine(env, file, c1) && c2.np.Valid() && c3 == ReadLine(env, file, c2)
    requires c3.np.Valid() && c4 == ReadLine(env, file, c3)
    ensures ReadLines(env, file, c0, 4) == c4
  {
    hide ReadLine;
    assert ReadLines(env, file, c3, 1) == ReadLines(env, file, c4, 0);
    assert ReadLines(env, file, c2, 2) == ReadLines(env, file, c3, 1);
    assert ReadLines(env, file, c1, 3) == ReadLines(env, file, c2, 2);
  }

  lemma ApartScript(env: Env, np: Np)
    requires Setting(env) && R.Fresh(np) && !np.fail && |np.lp| >= 2 && LINELEN > 9
    ensures R.TextEnds(env, APART, np, [], R.Ending(true, [A], 0, 0))
    ensures var c := ReadLines(env, APART, Reading(np, [], false), 5); c.Halted? && c.trace == [A]
  {
    ApartLines();
    ScriptWords();
    BackquotedWord();
    Pieces();
    ScriptFixed();
    assert Between(np, 0, 0, ItefNormal, false) && env.run([], A);
    hide Line, NextPiece, Tokens, ParseCommand, ParseWords, ReadLine, ReadLines, Fixed, Between, Setting;
    Q.Round(env, APART, np, [], false, "if a" + "\n", 0, ["if", "a"]);
    IfRound(env.run, np);
    var c1 := ReadLine(env, APART, Reading(np, [], false));
    Placing(c1.np, 5, 1, ItefIf, true);
    Q.Round(env, APART, c1.np, [A], true, "then" + "\n", 0, ["then"]);
    ThenRound(env.run, c1.np);
    var c2 := ReadLine(env, APART, c1);
    Placing(c2.np, 10, 1, ItefThen, true);
    Q.OneRound(env, APART, c2.np, [A], true, "`b`" + "\n", 0, ["`b`"]);
    ApartRound(env, c2.np);
    var c3 := ReadLine(env, APART, c2);
    Placing(c3.np, 14, 1, ItefThen, true);
    Q.Round(env, APART, c3.np, [A], true, "fi" + "\n", 0, ["fi"]);
    FiRound(env.run, c3.np, true, [A]);
    var c4 := ReadLine(env, APART, c3);
    Placing(c4.np, 17, 0, ItefNormal, false);
    EndRound(env, APART, c4.np, [A]);
    var c5 := ReadLine(env, APART, c4);
    FourRounds(env, APART, Reading(np, [], false), c1, c2, c3, c4);
    Q.ReadsAdd(env, APART, Reading(np, [], false), 4, 1);
    LastRound(env, APART, c4);
    Q.HaltedEnds(env, APART, np, [], 5, R.Ending(true, [A], 0, 0));
  }

  lemma LastRound(env: Env, file: string, c: Script)
    requires c.np.Valid()
    ensures ReadLines(env, file, c, 1) == ReadLine(env, file, c)
  {
    hide ReadLine;
    assert ReadLines(env, file, ReadLine(env, file, c), 0) == ReadLine(env, file, c);
  }

  /** The two scripts have the same commands.  The condition fails, so that the
      branch is not run; on the line of "then", the backquoted command runs all the
      same, and because it succeeds the branch is run after all. */
  lemma LayoutMatters(env: Env, np: Np)
    requires Setting(env) && R.Fresh(np) && !np.fail && |np.lp| >= 2 && LINELEN > 9
    ensures R.Commands(FileSpots(GLUED, 0)) == R.Commands(FileSpots(APART, 0))
    ensures R.TextEnds(env, GLUED, np, [], R.Ending(true, [A, B, C], 0, 0))
    ensures R.TextEnds(env, APART, np, [], R.Ending(true, [A], 0, 0))
    ensures !R.TextEnds(env, APART, np, [], R.Ending(true, [A, B, C], 0, 0))
  {
    hide FileSpots, R.TextEnds, R.Commands, Setting, ReadLines;
    SameCommands();
    GluedScript(env, np);
    ApartScript(env, np);
    var e := R.Ending(true, [A, B, C], 0, 0);
    if R.TextEnds(env, APART, np, [], e) { Q.EndsOnce(env, APART, np, [], 5, e); }
  }
}
