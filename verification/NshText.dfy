/** Command lines as text: how nsh_parse cuts a line into commands, how
    nsh_argument cuts a command into words and expands them, and how nsh_script
    drives both.

    A C string is a sequence of characters without NUL.
 */
module NshText {
  import opened NshState
  import X = NshExpand

  // ----- nsh_argument: words -----

  predicate Separator(c: char) {
    c == ' ' || c == '\t' || c == '\n'
  }

  /** Characters that end a word: a quotation mark in a quoted word, otherwise
      the usual separators. */
  predicate Terminator(quoted: bool, c: char) {
    if quoted then c == '"' else Separator(c)
  }

  function SkipSeparators(s: string): (r: string)
    ensures |r| <= |s|
    ensures r == "" || !Separator(r[0])
  {
    if s != "" && Separator(s[0]) then SkipSeparators(s[1..]) else s
  }

  /** The length of the word at the start of `s`; nothing ends a word inside
      backquotes. */
  function WordEnd(s: string, quoted: bool, backquoted: bool): (n: nat)
    ensures n <= |s|
  {
    if s == "" then 0
    else if s[0] == '`' then 1 + WordEnd(s[1..], quoted, !backquoted)
    else if !backquoted && Terminator(quoted, s[0]) then 0
    else 1 + WordEnd(s[1..], quoted, backquoted)
  }

  datatype Token = NoToken | Token(word: string, rest: string)

  /** The word at the start of `s` and what is left after its terminator. */
  function Word(s: string, quoted: bool): (t: Token)
    ensures t.Token? && |t.rest| <= |s|
    ensures s != "" && !quoted && !Separator(s[0]) ==> |t.rest| < |s|
  {
    var n := WordEnd(s, quoted, false);
    Token(s[..n], if n < |s| then s[n + 1..] else "")
  }

  function NextToken(s: string): (t: Token)
    ensures t.Token? ==> |t.rest| < |s|
  {
    var s1 := SkipSeparators(s);
    if s1 == "" || s1[0] == '#' then NoToken
    else if s1[0] == '>' then
      if |s1| > 1 && s1[1] == '>' then Token(">>", s1[2..]) else Token(">", s1[1..])
    else if s1[0] == '"' then Word(s1[1..], true)
    else Word(s1, false)
  }

  function Tokens(s: string): Words
    decreases |s|
  {
    match NextToken(s)
    case NoToken => []
    case Token(w, rest) => [w] + Tokens(rest)
  }

  // ----- nsh_argument: expansion -----

  /** What the parser asks of the world: whether a command fails, and what a word
      with `$` or backquotes stands for, given the commands run before the word
      is read, those run once it is read, and np_fail. */
  datatype Env = Env(run: Interpreter, value: (Trace, Trace, bool, string) -> string)

  predicate Literal(w: string) {
    forall i :: 0 <= i < |w| ==> !X.Special(w[i])
  }

  function Value(env: Env, before: Trace, after: Trace, fail: bool, w: string): string {
    if Literal(w) then w else env.value(before, after, fail, w)
  }

  /** The backquoted commands of a word, up to a delimiter without a partner. */
  function Inside(w: string): seq<string> {
    Backquoted(X.Read(w).parts)
  }

  function Backquoted(parts: seq<X.Part>): seq<string>
    decreases |parts|
  {
    if parts == [] then []
    else if parts[0].Command? then [parts[0].cmd] + Backquoted(parts[1..])
    else Backquoted(parts[1..])
  }

  /** nsh_parse_cmdparm: a backquoted command runs in whatever state the parser
      is in, and its result is saved there. */
  function CmdParm(env: Env, np: Np, cmd: string, trace: Trace): (o: Outcome)
    requires np.Valid()
    ensures o.np.Valid() && |o.np.lp| == |np.lp| && trace <= o.trace
  {
    var words := Tokens(cmd);
    if words == [] then Outcome(true, np, trace)
    else Dispatch(env.run, np, [Value(env, trace, trace, np.fail, words[0])] + words[1..], trace)
  }

  datatype After = After(np: Np, trace: Trace)

  function RunInside(env: Env, np: Np, cmds: seq<string>, trace: Trace): (r: After)
    requires np.Valid()
    ensures r.np.Valid() && |r.np.lp| == |np.lp| && trace <= r.trace
    decreases |cmds|
  {
    hide CmdParm;
    if cmds == [] then After(np, trace)
    else
      var o := CmdParm(env, np, cmds[0], trace);
      RunInside(env, o.np, cmds[1..], o.trace)
  }

  /** The words of a command that are left, the first of them expanded. */
  datatype Taken = Taken(np: Np, words: Words, trace: Trace)

  function Take(env: Env, np: Np, words: Words, trace: Trace): (t: Taken)
    requires np.Valid()
    ensures t.np.Valid() && |t.np.lp| == |np.lp| && trace <= t.trace && |t.words| == |words|
  {
    hide RunInside;
    if words == [] then Taken(np, words, trace)
    else
      var r := RunInside(env, np, Inside(words[0]), trace);
      Taken(r.np, [Value(env, trace, r.trace, r.np.fail, words[0])] + words[1..], r.trace)
  }

  /** A keyword reads the word after it before it does anything else. */
  function TakeNext(env: Env, keywords: set<Kind>, np: Np, words: Words, trace: Trace): (t: Taken)
    requires np.Valid()
    ensures t.np.Valid() && |t.np.lp| == |np.lp| && trace <= t.trace && |t.words| == |words|
  {
    hide Take, KindOf;
    if words != [] && KindOf(words[0]) in keywords then
      var t := Take(env, np, words[1..], trace);
      Taken(t.np, [words[0]] + t.words, t.trace)
    else
      Taken(np, words, trace)
  }

  lemma TakeNextUnfold(env: Env, keywords: set<Kind>, np: Np, cmd: string, rest: Words, trace: Trace)
    requires np.Valid()
    ensures TakeNext(env, keywords, np, [cmd] + rest, trace) ==
      if KindOf(cmd) in keywords then
        var t := Take(env, np, rest, trace);
        Taken(t.np, [cmd] + t.words, t.trace)
      else
        Taken(np, [cmd] + rest, trace)
  {
    hide Take, KindOf;
    assert ([cmd] + rest)[1..] == rest;
  }

  function TakeArgs(env: Env, np: Np, words: Words, trace: Trace): (r: After)
    requires np.Valid()
    ensures r.np.Valid() && |r.np.lp| == |np.lp| && trace <= r.trace
    decreases |words|
  {
    hide RunInside;
    if words == [] then After(np, trace)
    else
      var r := RunInside(env, np, Inside(words[0]), trace);
      TakeArgs(env, r.np, words[1..], r.trace)
  }

  /** Reads the arguments and runs the command, if commands are enabled here.
      The interpreter is given the arguments unexpanded: what they stand for
      follows from the commands run so far and np_fail. */
  function Perform(env: Env, np: Np, words: Words, trace: Trace): (o: Outcome)
    requires np.Valid()
    ensures o.np.Valid() && |o.np.lp| == |np.lp| && trace <= o.trace
  {
    hide TakeArgs;
    if words == [] || !np.CmdEnabled() then Outcome(true, np, trace)
    else
      var r := TakeArgs(env, np, Clip(words)[1..], trace);
      Execute(env.run, r.np, words, r.trace)
  }

  const LOOP_KEYWORDS := {While, Until, Do, Done}

  const ITEF_KEYWORDS := {If, Then, Else, Fi}

  /** nsh_parse_command from nsh_itef on */
  function ParseItef(env: Env, np: Np, words: Words, trace: Trace): (o: Outcome)
    requires np.Valid()
    ensures o.np.Valid() && |o.np.lp| == |np.lp| && trace <= o.trace
  {
    hide TakeNext, ItefStep, Perform;
    var t := TakeNext(env, ITEF_KEYWORDS, np, words, trace);
    match ItefStep(t.np, t.words)
    case Bad(np1) => Saved(np1, true, t.trace)
    case Go(np1, rest) => Perform(env, np1, rest, t.trace)
  }

  /** nsh_parse_command */
  function ParseWords(env: Env, np: Np, words: Words, trace: Trace): (o: Outcome)
    requires np.Valid()
    ensures o.np.Valid() && |o.np.lp| == |np.lp| && trace <= o.trace
  {
    hide Take, TakeNext, LoopStep, ParseItef;
    var t0 := Take(env, np, words, trace);
    var t1 := TakeNext(env, LOOP_KEYWORDS, t0.np, t0.words, t0.trace);
    match LoopStep(t1.np, t1.words)
    case Bad(np1) => Saved(np1, true, t1.trace)
    case Go(np1, rest) => ParseItef(env, np1, rest, t1.trace)
  }

  // ----- Words that need no expansion -----

  lemma {:induction false} NoBackquote(w: string)
    requires '`' !in w
    ensures Inside(w) == []
    decreases |w|
  {
    var f, parts := X.FirstPart(w), X.Read(w).parts;
    if f.Found? {
      assert f.part.Variable? && '`' !in f.more;
      NoBackquote(f.more);
      assert parts[1..][1..] == X.Read(f.more).parts;
      assert Backquoted(parts) == Backquoted(parts[1..]) == Backquoted(parts[1..][1..]);
    } else {
      assert parts[0].Text? && parts[1..] == [];
      assert Backquoted(parts) == Backquoted([]) == [];
    }
  }

  /** No word runs anything, and none that may be compared with a keyword has to
      be expanded. */
  predicate Fixed(words: Words) {
    && (forall i :: 0 <= i < |words| ==> '`' !in words[i])
    && (|words| > 0 ==> Literal(words[0]))
    && (|words| > 1 && KindOf(words[0]) in LOOP_KEYWORDS + ITEF_KEYWORDS ==> Literal(words[1]))
    && (|words| > 2 && KindOf(words[0]) in LOOP_KEYWORDS && KindOf(words[1]) in ITEF_KEYWORDS ==> Literal(words[2]))
  }

  lemma TakeLiteral(env: Env, np: Np, words: Words, trace: Trace)
    requires np.Valid() && (words != [] ==> Literal(words[0]))
    ensures Take(env, np, words, trace) == Taken(np, words, trace)
  {
    hide Inside, X.Special;
    if words != [] {
      LiteralQuiet(words[0]);
      NoBackquote(words[0]);
      assert [words[0]] + words[1..] == words;
    }
  }

  lemma LiteralQuiet(w: string)
    requires Literal(w)
    ensures '`' !in w
  {
  }

  lemma {:induction false} ArgsQuiet(env: Env, np: Np, words: Words, trace: Trace)
    requires np.Valid() && forall i :: 0 <= i < |words| ==> '`' !in words[i]
    ensures TakeArgs(env, np, words, trace) == After(np, trace)
    decreases |words|
  {
    hide Inside;
    if words != [] {
      NoBackquote(words[0]);
      ArgsQuiet(env, np, words[1..], trace);
    }
  }

  lemma NextLiteral(env: Env, keywords: set<Kind>, np: Np, words: Words, trace: Trace)
    requires np.Valid() && (|words| > 1 && KindOf(words[0]) in keywords ==> Literal(words[1]))
    ensures TakeNext(env, keywords, np, words, trace) == Taken(np, words, trace)
  {
    hide Take, KindOf, Literal;
    if words != [] && KindOf(words[0]) in keywords {
      TakeLiteral(env, np, words[1..], trace);
      assert [words[0]] + words[1..] == words;
    }
  }

  lemma PerformQuiet(env: Env, np: Np, words: Words, trace: Trace)
    requires np.Valid() && forall i :: 0 <= i < |words| ==> '`' !in words[i]
    ensures Perform(env, np, words, trace) == Dispatch(env.run, np, words, trace)
  {
    hide TakeArgs, Execute;
    if words != [] { ArgsQuiet(env, np, Clip(words)[1..], trace); }
  }

  /** Words that nsh_loop and nsh_itef do not know. */
  lemma LoopOther(np: Np, words: Words)
    requires np.Valid() && words != [] && KindOf(words[0]) !in LOOP_KEYWORDS
    ensures LoopStep(np, words) == if np.InLoopHeader() then Bad(LoopReset(np)) else Go(np, words)
  {
    hide KindOf;
  }

  lemma ItefOther(np: Np, words: Words)
    requires np.Valid() && words != [] && KindOf(words[0]) !in ITEF_KEYWORDS
    ensures ItefStep(np, words) == if np.Itef().state == ItefIf then Bad(ItefReset(np)) else Go(np, words)
  {
    hide KindOf;
  }

  /** What LoopStep leaves of a command. */
  lemma LoopLeaves(np: Np, words: Words)
    requires np.Valid() && LoopStep(np, words).Go?
    ensures var rest := LoopStep(np, words).rest;
      if words != [] && KindOf(words[0]) in LOOP_KEYWORDS then rest == words[1..] else rest == words
  {
    hide KindOf, PushLoop, PopLoop, LoopReset, LoopAllowed;
  }

  lemma ItefLeaves(np: Np, words: Words)
    requires np.Valid() && ItefStep(np, words).Go?
    ensures var rest := ItefStep(np, words).rest;
      if words != [] && KindOf(words[0]) in ITEF_KEYWORDS then rest == words[1..] else rest == words
  {
    hide KindOf;
  }

  /** A command without anything to expand early does what its words say. */
  lemma FixedExactly(env: Env, np: Np, words: Words, trace: Trace)
    requires np.Valid() && Fixed(words)
    ensures ParseWords(env, np, words, trace) == ParseCommand(env.run, np, words, trace)
  {
    hide Take, TakeNext, LoopStep, ItefStep, Perform, Dispatch, KindOf, Literal, SaveResult;
    TakeLiteral(env, np, words, trace);
    NextLiteral(env, LOOP_KEYWORDS, np, words, trace);
    if LoopStep(np, words).Go? {
      LoopLeaves(np, words);
      var np1, rest := LoopStep(np, words).np, LoopStep(np, words).rest;
      NextLiteral(env, ITEF_KEYWORDS, np1, rest, trace);
      if ItefStep(np1, rest).Go? {
        ItefLeaves(np1, rest);
        PerformQuiet(env, ItefStep(np1, rest).np, ItefStep(np1, rest).rest, trace);
      }
    }
  }

  // ----- nsh_parse: commands -----

  predicate LineSeparator(c: char) {
    c == '"' || c == '#' || c == ';' || c == '\n'
  }

  /** Index of the first character from `i` on that may end a command. */
  function Span(s: string, i: nat): (e: nat)
    requires i <= |s|
    ensures i <= e <= |s|
    ensures e < |s| ==> LineSeparator(s[e])
    ensures forall j :: i <= j < e ==> !LineSeparator(s[j])
    decreases |s| - i
  {
    if i < |s| && !LineSeparator(s[i]) then Span(s, i + 1) else i
  }

  function FindQuote(s: string, i: nat): (q: nat)
    requires i <= |s|
    ensures i <= q <= |s|
    ensures q < |s| ==> s[q] == '"'
    ensures forall j :: i <= j < q ==> s[j] != '"'
    decreases |s| - i
  {
    if i < |s| && s[i] != '"' then FindQuote(s, i + 1) else i
  }

  /** Where the command at the start of `s` ends.  `working` is the position
      from which nsh_parse last searched; it is what np_loffs records. */
  datatype Piece = Last(working: nat) | Semi(end: nat, working: nat) | Unmatched(working: nat)

  function NextPiece(s: string, working: nat): (p: Piece)
    requires working <= |s|
    ensures working <= p.working <= |s|
    ensures p.Semi? ==> p.working <= p.end < |s| && s[p.end] == ';'
    decreases |s| - working
  {
    var e := Span(s, working);
    if e == |s| || s[e] == '\n' || s[e] == '#' then Last(working)
    else if s[e] == ';' then Semi(e, working)
    else
      var q := FindQuote(s, e + 1);
      if q == |s| then Unmatched(working) else NextPiece(s, q + 1)
  }

  lemma PieceUnfold(s: string, w: nat)
    requires w <= |s|
    ensures var e := Span(s, w);
      NextPiece(s, w) ==
        if e == |s| || s[e] == '\n' || s[e] == '#' then Last(w)
        else if s[e] == ';' then Semi(e, w)
        else
          var q := FindQuote(s, e + 1);
          if q == |s| then Unmatched(w) else NextPiece(s, q + 1)
  {
  }

  /** np_loffs names the start of the command exactly if the command, up to the
      place where the search for its end stopped, has no quotation mark. */
  lemma {:induction false} RecordedStartExactly(s: string)
    ensures NextPiece(s, 0).working == 0 <==>
      (var e := Span(s, 0); e == |s| || s[e] != '"' || FindQuote(s, e + 1) == |s|)
  {
    var e := Span(s, 0);
    if e < |s| && s[e] == '"' {
      var q := FindQuote(s, e + 1);
      if q < |s| { assert NextPiece(s, q + 1).working >= q + 1; }
    }
  }

  /** nsh_parse on the rest `s` of a line, which starts at index `start`. */
  function ParseLine(env: Env, np: Np, s: string, start: nat, trace: Trace): (o: Outcome)
    requires np.Valid()
    ensures o.np.Valid() && |o.np.lp| == |np.lp| && trace <= o.trace
    decreases |s|
  {
    hide ParseWords, NextPiece, Tokens;
    var piece := NextPiece(s, 0);
    var np1 := np.(loffs := start + piece.working);
    match piece
    case Unmatched(_) => Outcome(false, np1, trace)
    case Last(_) => ParseWords(env, np1, Tokens(s), trace)
    case Semi(e, _) =>
      var o := ParseWords(env, np1, Tokens(s[..e]), trace);
      if !o.ok || o.np.jump then o else ParseLine(env, o.np, s[e + 1..], start + e + 1, o.trace)
  }

  lemma ParseLineUnfold(env: Env, np: Np, s: string, start: nat, trace: Trace)
    requires np.Valid()
    ensures var piece := NextPiece(s, 0);
      var np1 := np.(loffs := start + piece.working);
      ParseLine(env, np, s, start, trace) ==
        if piece.Unmatched? then Outcome(false, np1, trace)
        else
          var o := ParseWords(env, np1, Tokens(if piece.Semi? then s[..piece.end] else s), trace);
          if piece.Last? || !o.ok || o.np.jump then o
          else ParseLine(env, o.np, s[piece.end + 1..], start + piece.end + 1, o.trace)
  {
    hide NextPiece, Tokens, ParseWords;
  }

  // ----- nsh_script -----

  /** The line of the file that starts at `at`, with its newline. */
  function Line(file: string, at: int): (s: string)
    ensures 0 <= at ==> at + |s| <= |file| || s == ""
    ensures 0 <= at < |file| ==> s != ""
    decreases |file| - at
  {
    if at < 0 || at >= |file| then ""
    else if file[at] == '\n' then "\n"
    else [file[at]] + Line(file, at + 1)
  }

  /** CONFIG_NSH_LINELEN: any size with room for a character and a NUL. */
  type LineSize = n: nat | n >= 2 witness 2

  const LINELEN: LineSize

  /** fgets(buffer, LINELEN, stream) */
  function Fgets(file: string, at: int): string {
    var s := Line(file, at);
    if |s| < LINELEN then s else s[..LINELEN - 1]
  }

  datatype Script = Reading(np: Np, trace: Trace, ok: bool) | Halted(ok: bool, np: Np, trace: Trace)

  /** One round of the loop in nsh_script. */
  function ReadLine(env: Env, file: string, c: Script): (r: Script)
    requires c.np.Valid()
    ensures r.np.Valid()
  {
    hide ParseLine, Fgets;
    match c
    case Halted(_, _, _) => c
    case Reading(np, trace, ok) =>
      var line := Fgets(file, np.fpos);
      var np1 := np.(foffs := np.fpos, loffs := 0);
      if line == "" then Halted(ok, np1, trace)
      else
        var o := ParseLine(env, np1.(fpos := np.fpos + |line|, jump := false), line, 0, trace);
        if o.ok then Reading(o.np, o.trace, true) else Halted(false, o.np, o.trace)
  }

  function ReadLines(env: Env, file: string, c: Script, n: nat): (r: Script)
    requires c.np.Valid()
    ensures r.np.Valid()
    decreases n
  {
    hide ReadLine;
    if n == 0 then c else ReadLines(env, file, ReadLine(env, file, c), n - 1)
  }
}
