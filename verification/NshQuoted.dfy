/** Two scripts whose loop header has quotation marks. */
module NshQuoted {
  import opened NshState
  import opened NshProgram
  import opened NshStructured
  import opened NshText
  import opened NshLayout
  import opened NshHeader
  import P = NshPrint
  import R = NshScript
  import T = NshTheorem
  import W = NshWritten

  // ----- A loop that is not found again -----

  /** A loop around one command, with a test that needs quotation marks. */
  const LOOP := Repeat(false, ["a b"], Cmd(["c"], Nop), Nop)

  const HEAD := "while \"a b\""

  const SCRIPT := HEAD + "\n" + BEHIND
  const BEHIND := "do" + "\n" + REST
  const REST := "c" + "\n" + END
  const END := "done" + "\n" + ""

  /** The third command fails: the test, when the loop has gone around once. */
  const THIRD: Interpreter := (t: Trace, c: Call) => |t| == 2

  const TEST := Call(["a b"], false)
  const BODY := Call(["c"], false)

  lemma LineAt(file: string, at: nat, s: string, rest: string)
    requires at <= |file| && file[at..] == s + "\n" + rest && '\n' !in s
    ensures at + |s| + 1 <= |file| && Line(file, at) == s + "\n" && file[at + |s| + 1..] == rest
  {
    hide Line;
    LineIs(file, at, s, rest);
    assert file[at + |s| + 1..] == file[at..][|s| + 1..];
  }

  lemma ScriptLines()
    ensures Line(SCRIPT, 0) == HEAD + "\n" && Line(SCRIPT, 11) == "\n" && Line(SCRIPT, 12) == "do" + "\n"
    ensures Line(SCRIPT, 15) == "c" + "\n" && Line(SCRIPT, 17) == "done" + "\n"
  {
    hide Line;
    assert |HEAD| == 11 && SCRIPT[0..] == SCRIPT;
    LineAt(SCRIPT, 0, HEAD, BEHIND);
    LineAt(SCRIPT, 12, "do", REST);
    LineAt(SCRIPT, 15, "c", END);
    LineAt(SCRIPT, 17, "done", "");
    LineTail(SCRIPT, 0, 11);
    assert (HEAD + "\n")[11..] == "\n";
  }

  /** A line with one word. */
  lemma WordLine(w: string)
    requires P.Printable(w) && !P.NeedsQuotes(w)
    ensures NextPiece(w + "\n", 0) == Last(0) && Tokens(w + "\n") == [w]
  {
    hide NextPiece, Span, Tokens;
    var s := w + "\n";
    SpanIs(s, 0, |w|);
    PieceUnfold(s, 0);
    P.CommandBack([w], "\n");
    hide P.NeedsQuotes;
    assert P.PrintArgs([]) == "" && P.PrintCommand([w]) == w;
  }

  lemma WordLines()
    ensures NextPiece("do" + "\n", 0) == Last(0) && Tokens("do" + "\n") == ["do"]
    ensures NextPiece("c" + "\n", 0) == Last(0) && Tokens("c" + "\n") == ["c"]
    ensures NextPiece("done" + "\n", 0) == Last(0) && Tokens("done" + "\n") == ["done"]
  {
    hide NextPiece, Tokens;
    WordLine("do");
    WordLine("c");
    WordLine("done");
  }

  lemma HeadLine()
    ensures NextPiece(HEAD + "\n", 0) == Last(11) && Tokens(HEAD + "\n") == ["while", "a b"]
  {
    hide NextPiece, Tokens;
    HeadPiece(HEAD + "\n");
    HeadWords();
  }

  lemma HeadPiece(s: string)
    requires s == HEAD + "\n"
    ensures NextPiece(s, 0) == Last(11)
  {
    hide NextPiece, Span, FindQuote;
    assert s[6] == '"' && s[10] == '"' && s[11] == '\n' && |s| == 12;
    SpanIs(s, 0, 6);
    P.QuoteAt(s, 7, 10);
    PieceUnfold(s, 0);
    SpanIs(s, 11, 11);
    PieceUnfold(s, 11);
  }

  lemma HeadWords()
    ensures Tokens(HEAD + "\n") == ["while", "a b"]
  {
    hide Tokens;
    var words := ["while", "a b"];
    assert P.Printable(words[0]) && P.Printable(words[1]);
    HeadPrinted(words);
    hide P.PrintCommand, P.Printable;
    P.CommandBack(words, "\n");
  }

  lemma HeadPrinted(words: Words)
    requires words == ["while", "a b"]
    ensures P.PrintCommand(words) == HEAD
  {
    assert !P.NeedsQuotes("while");
    assert "a b"[1] == ' ' && P.NeedsQuotes("a b");
    hide P.NeedsQuotes;
    assert P.PrintWord("a b") == "\"a b\"" && P.PrintWord("while") == "while";
    hide P.PrintWord;
    assert words[1..] == ["a b"] && ["a b"][1..] == [];
    assert P.PrintArgs(["a b"]) == " " + "\"a b\"" + "";
  }

  /** A line with one command that stands alone, and what follows it. */
  lemma OneCommand(file: string, at: nat, line: string, w: nat, words: Words)
    requires Line(file, at) == line && line != "" && NextPiece(line, 0) == Last(w)
    requires Tokens(line) == words && Unglue(words) == [words]
    ensures R.Commands(FileSpots(file, at)) == [words] + R.Commands(FileSpots(file, at + |line|))
  {
    hide Line, NextPiece, Tokens, LineSpots, FileSpots, Unglue, R.Commands, CommandSpots;
    FileUnfold(file, at);
    W.LastPiece(line, at);
    CommandsAdd(CommandSpots(words, at, at + w), FileSpots(file, at + |line|));
    CommandsOf(words, at, at + w);
  }

  lemma Alone(words: Words)
    requires words in {["while", "a b"], ["do"], ["c"], ["done"]}
    ensures Unglue(words) == [words]
  {
    assert KindOf("while") == While;
  }

  lemma ScriptCommands()
    ensures R.Commands(FileSpots(SCRIPT, 0)) == Flatten(LOOP)
  {
    hide Line, NextPiece, Tokens, FileSpots, R.Commands, Flatten, Unglue;
    ScriptLines();
    HeadLine();
    WordLines();
    NothingLeft();
    LoopCommands();
    Alone(["while", "a b"]);
    Alone(["do"]);
    Alone(["c"]);
    Alone(["done"]);
    OneCommand(SCRIPT, 0, HEAD + "\n", 11, ["while", "a b"]);
    OneCommand(SCRIPT, 12, "do" + "\n", 0, ["do"]);
    OneCommand(SCRIPT, 15, "c" + "\n", 0, ["c"]);
    OneCommand(SCRIPT, 17, "done" + "\n", 0, ["done"]);
  }

  lemma NothingLeft()
    ensures R.Commands(FileSpots(SCRIPT, 22)) == []
  {
    assert |SCRIPT| == 22;
    FileUnfold(SCRIPT, 22);
  }

  lemma LoopCommands()
    ensures Flatten(LOOP) == [["while", "a b"]] + ([["do"]] + ([["c"]] + ([["done"]] + [])))
  {
    assert Flatten(LOOP.body) == [["c"]] && Flatten(Nop) == [];
    assert [LoopWord(false)] + LOOP.cond == ["while", "a b"];
  }

  /** The state in which the last command of a line is parsed. */
  function Placed(np: Np, line: string, w: nat): Np {
    np.(foffs := np.fpos, loffs := w, fpos := np.fpos + |line|, jump := false)
  }

  /** One round of nsh_script on a line with one command. */
  lemma OneRound(env: Env, file: string, np: Np, trace: Trace, ok: bool, line: string, w: nat, words: Words)
    requires np.Valid() && Line(file, np.fpos) == line && line != "" && |line| < LINELEN
    requires NextPiece(line, 0) == Last(w) && Tokens(line) == words
    ensures ReadLine(env, file, Reading(np, trace, ok)) ==
      var o := ParseWords(env, Placed(np, line, w), words, trace);
      if o.ok then Reading(o.np, o.trace, true) else Halted(false, o.np, o.trace)
  {
    hide NextPiece, Tokens, ParseWords, ParseLine, Line;
    ParseLineUnfold(env, Placed(np, line, 0), line, 0, trace);
  }

  lemma Round(env: Env, file: string, np: Np, trace: Trace, ok: bool, line: string, w: nat, words: Words)
    requires np.Valid() && Line(file, np.fpos) == line && line != "" && |line| < LINELEN
    requires NextPiece(line, 0) == Last(w) && Tokens(line) == words && Fixed(words)
    ensures ReadLine(env, file, Reading(np, trace, ok)) ==
      var o := ParseCommand(env.run, Placed(np, line, w), words, trace);
      if o.ok then Reading(o.np, o.trace, true) else Halted(false, o.np, o.trace)
  {
    hide NextPiece, Tokens, ParseCommand, ParseWords, ReadLine, Line, Fixed;
    OneRound(env, file, np, trace, ok, line, w, words);
    FixedExactly(env, Placed(np, line, w), words, trace);
  }

  lemma ScriptFixed()
    ensures Fixed(["while", "a b"]) && Fixed(["do"]) && Fixed(["c"]) && Fixed(["done"]) && Fixed([])
  {
    assert KindOf("a b") == Plain;
    hide KindOf;
  }

  /** The states between the lines of the script. */
  predicate Between(np: Np, fpos: int, depth: nat, state: LoopState) {
    && np.Valid() && np.scripted && !np.fail && np.fpos == fpos && np.iendx == 0 && np.lpndx == depth < 2 <= |np.lp|
    && np.Itef() == ItefLevel(ItefNormal, false, false) && np.lp[0].state == LoopNormal
    && (depth == 1 ==> np.lp[1] == LoopLevel(state, true, 0, 11))
  }

  lemma HeaderRound(np: Np)
    requires Between(np, 0, 0, LoopNormal)
    ensures var o := ParseCommand(THIRD, np.(foffs := 0, loffs := 11, fpos := 12, jump := false), ["while", "a b"], []);
      o.ok && o.trace == [TEST] && Between(o.np, 12, 1, LoopWhile)
  {
    var words := ["while", "a b"];
    assert KindOf("while") == While && KindOf("a b") == Plain && words[1..] == ["a b"];
    hide KindOf;
    var m := np.(foffs := 0, loffs := 11, fpos := 12, jump := false);
    var n := PushLoop(m, LoopWhile);
    assert LoopStep(m, words) == Go(n, ["a b"]) && ItefStep(n, ["a b"]) == Go(n, ["a b"]);
    assert Clip(["a b"]) == ["a b"] && [] + [TEST] == [TEST];
  }

  lemma DoRound(np: Np)
    requires Between(np, 12, 1, LoopWhile)
    ensures var o := ParseCommand(THIRD, np.(foffs := 12, loffs := 0, fpos := 15, jump := false), ["do"], [TEST]);
      o.ok && o.trace == [TEST] && Between(o.np, 15, 1, LoopDo)
  {
    assert KindOf("do") == Do && ["do"][1..] == [];
  }

  lemma BodyRound(np: Np)
    requires Between(np, 15, 1, LoopDo)
    ensures var o := ParseCommand(THIRD, np.(foffs := 15, loffs := 0, fpos := 17, jump := false), ["c"], [TEST]);
      o.ok && o.trace == [TEST, BODY] && Between(o.np, 17, 1, LoopDo)
  {
    assert KindOf("c") == Plain && Clip(["c"]) == ["c"] && [TEST] + [BODY] == [TEST, BODY];
  }

  lemma DoneRound(np: Np)
    requires Between(np, 17, 1, LoopDo)
    ensures var o := ParseCommand(THIRD, np.(foffs := 17, loffs := 0, fpos := 22, jump := false), ["done"], [TEST, BODY]);
      o.ok && o.trace == [TEST, BODY] && Between(o.np, 11, 0, LoopNormal)
  {
    assert KindOf("done") == Done && ["done"][1..] == [];
  }

  lemma BlankRound(np: Np)
    requires Between(np, 11, 0, LoopNormal)
    ensures var o := ParseCommand(THIRD, np.(foffs := 11, loffs := 0, fpos := 12, jump := false), [], [TEST, BODY]);
      o.ok && o.trace == [TEST, BODY] && Between(o.np, 12, 0, LoopNormal)
  {
  }

  lemma StrayRound(np: Np)
    requires Between(np, 12, 0, LoopNormal)
    ensures var o := ParseCommand(THIRD, np.(foffs := 12, loffs := 0, fpos := 15, jump := false), ["do"], [TEST, BODY]);
      !o.ok && o.trace == [TEST, BODY]
  {
    assert KindOf("do") == Do;
  }

  lemma BlankLine()
    ensures NextPiece("\n", 0) == Last(0) && Tokens("\n") == []
  {
    SpanIs("\n", 0, 0);
    PieceUnfold("\n", 0);
    P.NoTokens("\n");
  }

  /** The script stops at its "do", which is read again without its "while". */
  lemma ScriptFails(env: Env, np: Np)
    requires env.run == THIRD && R.Fresh(np) && !np.fail && |np.lp| >= 2 && LINELEN > 12
    ensures var c := ReadLines(env, SCRIPT, Reading(np, [], false), 6);
      c.Halted? && !c.ok && c.trace == [TEST, BODY]
  {
    hide Line, NextPiece, Tokens, ParseCommand, ReadLine, ReadLines, Fixed;
    ScriptLines();
    HeadLine();
    WordLines();
    BlankLine();
    ScriptFixed();
    HeaderRound(np);
    Round(env, SCRIPT, np, [], false, HEAD + "\n", 11, ["while", "a b"]);
    var c1 := ReadLine(env, SCRIPT, Reading(np, [], false));
    DoRound(c1.np);
    Round(env, SCRIPT, c1.np, [TEST], true, "do" + "\n", 0, ["do"]);
    var c2 := ReadLine(env, SCRIPT, c1);
    BodyRound(c2.np);
    Round(env, SCRIPT, c2.np, [TEST], true, "c" + "\n", 0, ["c"]);
    var c3 := ReadLine(env, SCRIPT, c2);
    DoneRound(c3.np);
    Round(env, SCRIPT, c3.np, [TEST, BODY], true, "done" + "\n", 0, ["done"]);
    var c4 := ReadLine(env, SCRIPT, c3);
    BlankRound(c4.np);
    Round(env, SCRIPT, c4.np, [TEST, BODY], true, "\n", 0, []);
    var c5 := ReadLine(env, SCRIPT, c4);
    StrayRound(c5.np);
    Round(env, SCRIPT, c5.np, [TEST, BODY], true, "do" + "\n", 0, ["do"]);
    var c6 := ReadLine(env, SCRIPT, c5);
    SixRounds(env, SCRIPT, Reading(np, [], false), c1, c2, c3, c4, c5, c6);
  }

  lemma SixRounds(env: Env, file: string, c0: Script, c1: Script, c2: Script, c3: Script, c4: Script,
                  c5: Script, c6: Script)
    requires c0.np.Valid() && c1 == ReadLine(env, file, c0)
    requires c1.np.Valid() && c2 == ReadLine(env, file, c1) && c2.np.Valid() && c3 == ReadLine(env, file, c2)
    requires c3.np.Valid() && c4 == ReadLine(env, file, c3) && c4.np.Valid() && c5 == ReadLine(env, file, c4)
    requires c5.np.Valid() && c6 == ReadLine(env, file, c5)
    ensures ReadLines(env, file, c0, 6) == c6
  {
    hide ReadLine;
    assert ReadLines(env, file, c5, 1) == ReadLines(env, file, c6, 0);
    assert ReadLines(env, file, c4, 2) == ReadLines(env, file, c5, 1);
    assert ReadLines(env, file, c3, 3) == ReadLines(env, file, c4, 2);
    assert ReadLines(env, file, c2, 4) == ReadLines(env, file, c3, 3);
    assert ReadLines(env, file, c1, 5) == ReadLines(env, file, c2, 4);
  }

  /** A script ends in one way only. */
  lemma EndsOnce(env: Env, file: string, np: Np, trace: Trace, n: nat, e: R.Ending)
    requires np.Valid() && ReadLines(env, file, Reading(np, trace, false), n).Halted?
    requires R.TextEnds(env, file, np, trace, e)
    ensures var c := ReadLines(env, file, Reading(np, trace, false), n); e.ok == c.ok && e.trace == c.trace
  {
    hide ReadLines;
    var c0 := Reading(np, trace, false);
    var m: nat :| (var c := ReadLines(env, file, c0, m); c.Halted? && R.EndsAs(c.ok, c.np, c.trace, e));
    if m <= n {
      ReadsAdd(env, file, c0, m, n - m);
      R.ReadsStay(env, file, ReadLines(env, file, c0, m), n - m);
    } else {
      ReadsAdd(env, file, c0, n, m - n);
      R.ReadsStay(env, file, ReadLines(env, file, c0, n), m - n);
    }
  }

  lemma {:induction false} ReadsAdd(env: Env, file: string, c: Script, m: nat, n: nat)
    requires c.np.Valid()
    ensures ReadLines(env, file, c, m + n) == ReadLines(env, file, ReadLines(env, file, c, m), n)
    decreases m
  {
    hide ReadLine;
    if m > 0 { ReadsAdd(env, file, ReadLine(env, file, c), m - 1, n); }
  }

  /** The script has the commands of the loop, which ends well when the test fails
      the second time around; the script itself fails and never runs that test. */
  lemma QuotedLoop(env: Env, np: Np, e: R.Ending)
    requires env.run == THIRD && R.Fresh(np) && !np.fail && |np.lp| >= 2 && LINELEN > 12
    requires T.FlowEnds(Std(THIRD, LOOP, false, false, [], 1), e)
    ensures R.Commands(FileSpots(SCRIPT, 0)) == Flatten(LOOP)
    ensures e.ok && e.trace == [TEST, BODY, TEST]
    ensures !R.TextEnds(env, SCRIPT, np, [], e)
    ensures exists d: R.Ending :: R.TextEnds(env, SCRIPT, np, [], d) && !d.ok && d.trace == [TEST, BODY]
  {
    LoopFlow();
    ScriptCommands();
    hide Std, ReadLines, R.TextEnds, Flatten, FileSpots;
    ScriptFails(env, np);
    var c := ReadLines(env, SCRIPT, Reading(np, [], false), 6);
    if R.TextEnds(env, SCRIPT, np, [], e) { EndsOnce(env, SCRIPT, np, [], 6, e); }
    HaltedEnds(env, SCRIPT, np, [], 6, R.Ending(false, [TEST, BODY], 0, 0));
  }

  lemma HaltedEnds(env: Env, file: string, np: Np, trace: Trace, n: nat, e: R.Ending)
    requires np.Valid()
    requires var c := ReadLines(env, file, Reading(np, trace, false), n); c.Halted? && R.EndsAs(c.ok, c.np, c.trace, e)
    ensures R.TextEnds(env, file, np, trace, e)
  {
  }

  lemma LoopFlow()
    ensures Std(THIRD, LOOP, false, false, [], 1) == Next(false, [TEST, BODY, TEST])
  {
    assert Clip(["a b"]) == ["a b"] && Clip(["c"]) == ["c"];
    var body := LOOP.body;
    assert [] + [TEST] == [TEST] && [TEST] + [BODY] == [TEST, BODY] && [TEST, BODY] + [TEST] == [TEST, BODY, TEST];
    assert Std(THIRD, body, true, false, [TEST], 1) == Next(false, [TEST, BODY]);
    StdRepeat(THIRD, LOOP, false, false, [], 1);
    StdRepeat(THIRD, LOOP, false, false, [TEST, BODY], 0);
    hide Std;
    StdNothing(THIRD, [TEST, BODY, TEST], 0);
  }

  lemma StdNothing(run: Interpreter, trace: Trace, fuel: nat)
    ensures Std(run, Nop, false, false, trace, fuel) == Next(false, trace)
  {
  }

  // ----- A loop that is found again all the same -----

  /** A header whose words the line repeats behind its last quotation mark: the
      search for the end of the command and the search for its words disagree on
      what is quoted, and both stop at a comment character, but not the same. */
  const ODD := "while \"p#\" A\" #\""
  const AGAIN := "while p# A\"\n"

  /** A plain word, whatever quotation marks it has inside. */
  lemma PlainWord(w: string, rest: string)
    requires w != "" && w[0] != '#' && w[0] != '>' && w[0] != '"'
    requires (forall i :: 0 <= i < |w| ==> w[i] != '`' && !Separator(w[i])) && rest != "" && Separator(rest[0])
    ensures Tokens(w + rest) == [w] + Tokens(rest)
  {
    var s := w + rest;
    P.PlainEnd(w, rest, false);
    hide WordEnd;
    assert SkipSeparators(s) == s && s[..|w|] == w && s[|w| + 1..] == rest[1..];
    assert NextToken(s) == Token(w, rest[1..]);
    P.LeadingSpace(rest[0], rest[1..]);
    assert [rest[0]] + rest[1..] == rest;
  }

  lemma CommentEnds(s: string)
    requires s != "" && s[0] == '#'
    ensures Tokens(" " + s) == []
  {
    P.LeadingSpace(' ', s);
  }

  lemma AgainWords()
    ensures Tokens(AGAIN) == ["while", "p#", "A\""]
  {
    hide Tokens;
    assert AGAIN == "while" + (" " + ("p#" + (" " + ("A\"" + "\n"))));
    PlainWord("while", " " + ("p#" + (" " + ("A\"" + "\n"))));
    P.LeadingSpace(' ', "p#" + (" " + ("A\"" + "\n")));
    PlainWord("p#", " " + ("A\"" + "\n"));
    P.LeadingSpace(' ', "A\"" + "\n");
    PlainWord("A\"", "\n");
    P.NoTokens("\n");
  }

  lemma OddWords()
    ensures Tokens(ODD + AGAIN) == ["while", "p#", "A\""]
  {
    hide Tokens;
    var tail := "#\"" + AGAIN;
    assert ODD + AGAIN == "while" + (" " + ("\"p#\"" + (" " + ("A\"" + (" " + tail)))));
    PlainWord("while", " " + ("\"p#\"" + (" " + ("A\"" + (" " + tail)))));
    P.LeadingSpace(' ', "\"p#\"" + (" " + ("A\"" + (" " + tail))));
    assert P.Printable("p#") && "p#"[1] == '#' && P.NeedsQuotes("p#");
    assert P.PrintWord("p#") == "\"p#\"";
    P.WordBack("p#", " " + ("A\"" + (" " + tail)));
    P.LeadingSpace(' ', "A\"" + (" " + tail));
    PlainWord("A\"", " " + tail);
    CommentEnds(tail);
  }

  lemma OddPiece(s: string)
    requires s == ODD + AGAIN
    ensures NextPiece(s, 0) == Last(16) && s[16..] == AGAIN && NextPiece(AGAIN, 0) == Last(0)
  {
    hide NextPiece, Span, FindQuote;
    assert s[6] == '"' && s[9] == '"' && s[12] == '"' && s[15] == '"' && s[23] == '#';
    SpanIs(s, 0, 6);
    P.QuoteAt(s, 7, 9);
    PieceUnfold(s, 0);
    SpanIs(s, 10, 12);
    P.QuoteAt(s, 13, 15);
    PieceUnfold(s, 10);
    SpanIs(s, 16, 23);
    PieceUnfold(s, 16);
    SpanIs(AGAIN, 0, 7);
    PieceUnfold(AGAIN, 0);
  }

  /** So quotation marks alone do not keep a loop from being found again. */
  lemma OddHeader()
    ensures var spots := FileSpots(ODD + AGAIN, 0);
      && |spots| == 1 && spots[0].first && Header(spots[0].words) && spots[0].offs != spots[0].at
      && LeadsTo(ODD + AGAIN, 0)
  {
    var file := ODD + AGAIN;
    OddLine(file);
    OddPiece(file);
    OddWords();
    AgainWords();
    hide Line, NextPiece, Tokens, FileSpots, LineSpots, LeadsTo;
    FileUnfold(file, 0);
    FileUnfold(file, |file|);
    W.LastPiece(file, 0);
    assert KindOf("while") == While;
    HeaderLands(file, 0);
  }

  lemma OddLine(file: string)
    requires file == ODD + AGAIN
    ensures Line(file, 0) == file && Line(file, 16) == AGAIN && Line(file, |file|) == ""
  {
    NoLine(file);
    hide Line;
    var s := ODD + "while p# A\"";
    assert file[0..] == s + "\n" + "" && '\n' !in s;
    LineAt(file, 0, s, "");
    LineTail(file, 0, 16);
    assert file[16..] == AGAIN;
  }

  lemma NoLine(file: string)
    ensures Line(file, |file|) == ""
  {
  }
}
