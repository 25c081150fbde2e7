/** Printing commands and parsing them back. */
module NshPrint {
  import opened NshState
  import opened NshText

  /** Words that survive a command line: no quotation mark, no expansion. */
  predicate Printable(w: string) {
    forall i :: 0 <= i < |w| ==> w[i] != '"' && w[i] != '`' && w[i] != '$' && w[i] != '\0'
  }

  /** Words that mean something else unless they are quoted. */
  predicate NeedsQuotes(w: string) {
    || w == "" || w[0] == '>'
    || exists i :: 0 <= i < |w| && (Separator(w[i]) || w[i] == ';' || w[i] == '#')
  }

  function PrintWord(w: string): string {
    if NeedsQuotes(w) then "\"" + w + "\"" else w
  }

  function PrintCommand(words: Words): string {
    if words == [] then "" else PrintWord(words[0]) + PrintArgs(words[1..])
  }

  function PrintArgs(words: Words): string {
    if words == [] then "" else " " + PrintWord(words[0]) + PrintArgs(words[1..])
  }

  function PrintLine(commands: seq<Words>): string
    requires commands != []
  {
    if |commands| == 1 then PrintCommand(commands[0])
    else PrintCommand(commands[0]) + ";" + PrintLine(commands[1..])
  }

  predicate AllPrintable(words: Words) {
    forall i :: 0 <= i < |words| ==> Printable(words[i])
  }

  /** The commands of a line, as nsh_parse cuts them. */
  function Commands(s: string): seq<Words>
    decreases |s|
  {
    match NextPiece(s, 0)
    case Unmatched(_) => []
    case Last(_) => [Tokens(s)]
    case Semi(e, _) => [Tokens(s[..e])] + Commands(s[e + 1..])
  }

  // ----- Words -----

  lemma {:induction false} PlainEnd(w: string, rest: string, quoted: bool)
    requires forall i :: 0 <= i < |w| ==> w[i] != '`' && !Terminator(quoted, w[i])
    requires rest == "" || (rest[0] != '`' && Terminator(quoted, rest[0]))
    ensures WordEnd(w + rest, quoted, false) == |w|
  {
    if w == "" {
      assert w + rest == rest;
    } else {
      assert (w + rest)[1..] == w[1..] + rest;
      PlainEnd(w[1..], rest, quoted);
    }
  }

  lemma LeadingSpace(c: char, s: string)
    requires Separator(c)
    ensures Tokens([c] + s) == Tokens(s)
  {
    assert ([c] + s)[1..] == s;
    assert NextToken([c] + s) == NextToken(s);
  }

  lemma PlainToken(w: string, rest: string)
    requires Printable(w) && !NeedsQuotes(w) && (rest == "" || Separator(rest[0]))
    ensures NextToken(w + rest) == Token(w, if rest == "" then "" else rest[1..])
  {
    var s := w + rest;
    assert !Separator(w[0]) && w[0] != '#' && s[0] == w[0];
    PlainEnd(w, rest, false);
    assert s[..|w|] == w;
    assert rest != "" ==> s[|w| + 1..] == rest[1..];
  }

  lemma QuotedToken(w: string, rest: string)
    requires Printable(w)
    ensures NextToken("\"" + w + "\"" + rest) == Token(w, rest)
  {
    var s := "\"" + w + "\"" + rest;
    var t := w + ("\"" + rest);
    assert s[1..] == t;
    PlainEnd(w, "\"" + rest, true);
    assert t[..|w|] == w && t[|w| + 1..] == rest;
  }

  /** A printed word is read back, and the words after it are left. */
  lemma WordBack(w: string, rest: string)
    requires Printable(w) && (rest == "" || Separator(rest[0]))
    ensures Tokens(PrintWord(w) + rest) == [w] + Tokens(rest)
  {
    if NeedsQuotes(w) {
      QuotedToken(w, rest);
    } else {
      PlainToken(w, rest);
      if rest != "" {
        LeadingSpace(rest[0], rest[1..]);
        assert [rest[0]] + rest[1..] == rest;
      }
    }
    hide NextToken;
  }

  /** The end of a line: nothing, or a newline. */
  predicate LineEnd(end: string) {
    end == "" || end == "\n"
  }

  lemma {:induction false} ArgsBack(words: Words, end: string)
    requires AllPrintable(words) && LineEnd(end)
    ensures Tokens(PrintArgs(words) + end) == words
    ensures PrintArgs(words) + end == "" || Separator((PrintArgs(words) + end)[0])
  {
    hide Tokens, PrintWord;
    if words == [] {
      NoTokens(end);
      assert PrintArgs(words) + end == end;
    } else {
      ArgsBack(words[1..], end);
      var rest := PrintArgs(words[1..]) + end;
      WordBack(words[0], rest);
      LeadingSpace(' ', PrintWord(words[0]) + rest);
      assert PrintArgs(words) + end == " " + (PrintWord(words[0]) + rest);
    }
  }

  lemma NoTokens(end: string)
    requires LineEnd(end)
    ensures Tokens(end) == []
  {
    assert SkipSeparators(end) == "";
  }

  lemma CommandBack(words: Words, end: string)
    requires AllPrintable(words) && LineEnd(end)
    ensures Tokens(PrintCommand(words) + end) == words
  {
    hide Tokens, PrintWord, PrintArgs;
    if words == [] {
      NoTokens(end);
      assert PrintCommand(words) + end == end;
    } else {
      ArgsBack(words[1..], end);
      WordBack(words[0], PrintArgs(words[1..]) + end);
      assert PrintCommand(words) + end == PrintWord(words[0]) + (PrintArgs(words[1..]) + end);
    }
  }

  // ----- Commands -----

  /** Where nsh_parse stops on its way through the text, character by character. */
  datatype Stop = AtEnd | AtSemicolon(n: nat) | NoQuote

  function Later(d: nat, c: Stop): Stop {
    if c.AtSemicolon? then AtSemicolon(d + c.n) else c
  }

  function Walk(s: string): Stop
    decreases |s|
  {
    if s == "" || s[0] == '\n' || s[0] == '#' then AtEnd
    else if s[0] == ';' then AtSemicolon(0)
    else if s[0] == '"' then
      var q := FindQuote(s, 1);
      if q == |s| then NoQuote else Later(q + 1, Walk(s[q + 1..]))
    else Later(1, Walk(s[1..]))
  }

  lemma {:induction false} WalkPlain(t: string, rest: string)
    requires forall i :: 0 <= i < |t| ==> !LineSeparator(t[i])
    ensures Walk(t + rest) == Later(|t|, Walk(rest))
  {
    if t == "" {
      assert t + rest == rest;
    } else {
      assert (t + rest)[1..] == t[1..] + rest;
      WalkPlain(t[1..], rest);
    }
  }

  lemma {:induction false} QuoteAt(s: string, i: nat, q: nat)
    requires i <= q < |s| && s[q] == '"' && forall j :: i <= j < q ==> s[j] != '"'
    ensures FindQuote(s, i) == q
  {
  }

  lemma WalkQuoted(w: string, rest: string)
    requires Printable(w)
    ensures var t := "\"" + w + "\""; Walk(t + rest) == Later(|t|, Walk(rest))
  {
    var s := "\"" + w + "\"" + rest;
    QuoteAt(s, 1, |w| + 1);
    assert s[|w| + 2..] == rest;
  }

  lemma WalkWord(w: string, rest: string)
    requires Printable(w)
    ensures Walk(PrintWord(w) + rest) == Later(|PrintWord(w)|, Walk(rest))
  {
    if NeedsQuotes(w) { WalkQuoted(w, rest); } else { WalkPlain(w, rest); }
  }

  lemma {:induction false} WalkArgs(words: Words, rest: string)
    requires AllPrintable(words)
    ensures Walk(PrintArgs(words) + rest) == Later(|PrintArgs(words)|, Walk(rest))
  {
    hide Walk, PrintWord;
    if words == [] {
      assert PrintArgs(words) + rest == rest;
    } else {
      var more := PrintArgs(words[1..]) + rest;
      WalkArgs(words[1..], rest);
      WalkWord(words[0], more);
      WalkPlain(" ", PrintWord(words[0]) + more);
      assert PrintArgs(words) + rest == " " + (PrintWord(words[0]) + more);
    }
  }

  lemma WalkCommand(words: Words, rest: string)
    requires AllPrintable(words)
    ensures Walk(PrintCommand(words) + rest) == Later(|PrintCommand(words)|, Walk(rest))
  {
    hide Walk, PrintWord, PrintArgs;
    if words == [] {
      assert PrintCommand(words) + rest == rest;
    } else {
      var more := PrintArgs(words[1..]) + rest;
      WalkArgs(words[1..], rest);
      WalkWord(words[0], more);
      assert PrintCommand(words) + rest == PrintWord(words[0]) + more;
    }
  }

  /** The walk finds what the search by spans finds. */
  lemma {:induction false} WalkIsNextPiece(s: string, w: nat)
    requires w <= |s|
    ensures match NextPiece(s, w)
      case Last(_) => Walk(s[w..]) == AtEnd
      case Semi(e, _) => Walk(s[w..]) == AtSemicolon(e - w)
      case Unmatched(_) => Walk(s[w..]) == NoQuote
    decreases |s| - w
  {
    hide Walk, NextPiece, Span, FindQuote;
    PieceUnfold(s, w);
    var e := Span(s, w);
    WalkPlain(s[w..e], s[e..]);
    assert s[w..e] + s[e..] == s[w..];
    WalkUnfold(s, e);
    if e < |s| && s[e] == '"' {
      var q := FindQuote(s, e + 1);
      if q < |s| { WalkIsNextPiece(s, q + 1); }
    }
  }

  lemma WalkUnfold(s: string, e: nat)
    requires e <= |s|
    ensures e < |s| && s[e] == '"' ==>
      var q := FindQuote(s, e + 1);
      Walk(s[e..]) == if q == |s| then NoQuote else Later(q + 1 - e, Walk(s[q + 1..]))
    ensures e == |s| || s[e] == '\n' || s[e] == '#' ==> Walk(s[e..]) == AtEnd
    ensures e < |s| && s[e] == ';' ==> Walk(s[e..]) == AtSemicolon(0)
  {
    if e < |s| && s[e] == '"' {
      var q := FindQuote(s, e + 1);
      var t := s[e..];
      hide FindQuote;
      if q < |s| {
        QuoteAt(t, 1, q - e);
        assert t[q - e + 1..] == s[q + 1..];
      } else {
        NoQuoteAt(t, 1);
      }
    }
  }

  lemma {:induction false} NoQuoteAt(s: string, i: nat)
    requires i <= |s| && forall j :: i <= j < |s| ==> s[j] != '"'
    ensures FindQuote(s, i) == |s|
  {
  }

  /** What is printed is read back: the same commands with the same words. */
  lemma {:induction false} RoundTrip(commands: seq<Words>)
    requires commands != [] && forall i :: 0 <= i < |commands| ==> AllPrintable(commands[i])
    ensures Commands(PrintLine(commands)) == commands
  {
    hide Tokens, NextPiece, AllPrintable;
    PrintedPiece(commands, "");
    assert PrintLine(commands) + "" == PrintLine(commands);
    if |commands| > 1 {
      assert PrintLine(commands[1..]) + "" == PrintLine(commands[1..]);
      RoundTrip(commands[1..]);
    }
  }

  lemma WalkEnd(end: string)
    requires LineEnd(end)
    ensures Walk(end) == AtEnd
  {
  }

  lemma WalkSemicolon(rest: string)
    ensures Walk(";" + rest) == AtSemicolon(0)
  {
  }

  // ----- Running a printed line -----

  /** Commands one after the other, until one fails. */
  function RunAll(run: Interpreter, commands: seq<Words>, fail: bool, trace: Trace): (bool, Trace)
    decreases |commands|
  {
    if commands == [] then (true, trace)
    else
      var call := Call(Clip(commands[0]), fail);
      if run(trace, call) then (false, trace + [call])
      else RunAll(run, commands[1..], false, trace + [call])
  }

  /** No keyword is being waited for and commands are enabled. */
  predicate Plainly(np: Np) {
    np.Valid() && !np.InLoopHeader() && np.Itef().state != ItefIf && np.CmdEnabled() && !np.jump
  }

  lemma PlainCommand(run: Interpreter, np: Np, words: Words, trace: Trace)
    requires Plainly(np) && Simple(words)
    ensures var call := Call(Clip(words), np.fail);
      ParseCommand(run, np, words, trace)
        == Outcome(!run(trace, call), np.(fail := run(trace, call)), trace + [call])
  {
    hide KindOf;
    assert LoopStep(np, words) == Go(np, words);
    hide LoopStep;
    assert ItefStep(np, words) == Go(np, words);
    hide ItefStep;
  }

  /** A printed line runs the printed commands, in order, up to the first that
      fails, and leaves the parser as it was. */
  lemma {:induction false} PrintedRuns(env: Env, np: Np, commands: seq<Words>, start: nat, trace: Trace)
    requires Plainly(np) && commands != []
    requires forall i :: 0 <= i < |commands| ==> AllPrintable(commands[i]) && Simple(commands[i])
    ensures var o := ParseLine(env, np, PrintLine(commands), start, trace);
      && (o.ok, o.trace) == RunAll(env.run, commands, np.fail, trace)
      && o.np == np.(fail := !o.ok, loffs := o.np.loffs)
    decreases |commands|
  {
    hide Walk, Tokens, NextPiece, PrintCommand, AllPrintable, Simple, ParseCommand, ParseWords, ParseLine, Fixed;
    var s := PrintLine(commands);
    PrintedPiece(commands, "");
    assert s + "" == s;
    ParseLineUnfold(env, np, s, start, trace);
    var np1 := np.(loffs := start + NextPiece(s, 0).working);
    PrintableFixed(commands[0]);
    FixedExactly(env, np1, commands[0], trace);
    PlainCommand(env.run, np1, commands[0], trace);
    var o := ParseCommand(env.run, np1, commands[0], trace);
    if |commands| == 1 {
      assert RunAll(env.run, commands[1..], false, o.trace) == (true, o.trace);
    } else if o.ok {
      PrintedRuns(env, o.np, commands[1..], start + NextPiece(s, 0).end + 1, o.trace);
    }
  }

  /** Printable words need no expansion. */
  lemma PrintableFixed(words: Words)
    requires AllPrintable(words)
    ensures Fixed(words)
  {
    hide KindOf;
    forall i | 0 <= i < |words|
      ensures Literal(words[i]) && '`' !in words[i]
    {
      assert Printable(words[i]);
    }
  }

  /** The first command of a printed line, and what follows it. */
  lemma PrintedPiece(commands: seq<Words>, end: string)
    requires commands != [] && AllPrintable(commands[0]) && LineEnd(end)
    ensures var s := PrintLine(commands) + end;
      var piece := NextPiece(s, 0);
      && (|commands| == 1 ==> piece.Last? && Tokens(s) == commands[0])
      && (|commands| > 1 ==>
            && piece.Semi? && piece.end == |PrintCommand(commands[0])|
            && Tokens(s[..piece.end]) == commands[0] && s[piece.end + 1..] == PrintLine(commands[1..]) + end)
  {
    hide Walk, Tokens, NextPiece, PrintCommand, AllPrintable, PrintLine;
    var first, s := PrintCommand(commands[0]), PrintLine(commands) + end;
    var rest := if |commands| == 1 then end else ";" + (PrintLine(commands[1..]) + end);
    LineSplits(commands, end, rest);
    WalkIsNextPiece(s, 0);
    assert s[0..] == s;
    WalkCommand(commands[0], rest);
    if |commands| == 1 {
      CommandBack(commands[0], end);
      WalkEnd(end);
    } else {
      CommandBack(commands[0], "");
      WalkSemicolon(PrintLine(commands[1..]) + end);
      SplitAt(first, ";", PrintLine(commands[1..]) + end);
    }
  }

  lemma LineSplits(commands: seq<Words>, end: string, rest: string)
    requires commands != [] && rest == if |commands| == 1 then end else ";" + (PrintLine(commands[1..]) + end)
    ensures PrintLine(commands) + end == PrintCommand(commands[0]) + rest
  {
    hide PrintCommand;
    if |commands| > 1 {
      hide PrintLine;
      LineFirst(commands);
    }
  }

  lemma LineFirst(commands: seq<Words>)
    requires |commands| > 1
    ensures PrintLine(commands) == PrintCommand(commands[0]) + ";" + PrintLine(commands[1..])
  {
  }

  lemma SplitAt(a: string, m: string, b: string)
    requires |m| == 1
    ensures var s := a + (m + b); s[..|a|] == a && a + "" == a && s[|a| + 1..] == b
  {
  }
}
