/** Scripts as they are written: the commands of a program spread over lines in
    any way, and the text that this gives. */
module NshWritten {
  import opened NshState
  import opened NshProgram
  import opened NshStructured
  import opened NshText
  import opened NshLayout
  import P = NshPrint
  import R = NshScript
  import T = NshTheorem

  /** A line of text: its commands joined with semicolons. */
  function Row(commands: seq<Words>): string
    requires commands != []
  {
    P.PrintLine(commands) + "\n"
  }

  predicate Rows(lines: seq<seq<Words>>) {
    forall i :: 0 <= i < |lines| ==> lines[i] != []
  }

  function Text(lines: seq<seq<Words>>): string
    requires Rows(lines)
  {
    if lines == [] then "" else Row(lines[0]) + Text(lines[1..])
  }

  /** All commands in order. */
  function Flat(lines: seq<seq<Words>>): seq<Words> {
    if lines == [] then [] else lines[0] + Flat(lines[1..])
  }

  /** A command that can be written on a line: keywords that may be followed by
      another command stand alone, and a loop header needs no quotation marks. */
  predicate Writable(words: Words) {
    && words != [] && P.AllPrintable(words)
    && (forall i :: 0 <= i < |words| ==> '\n' !in words[i])
    && (KindOf(words[0]) in {Do, Then, Else} ==> |words| == 1)
    && (Header(words) ==> forall i :: 0 <= i < |words| ==> !P.NeedsQuotes(words[i]))
  }

  predicate WritableRow(commands: seq<Words>) {
    && commands != [] && |Row(commands)| < LINELEN
    && forall i :: 0 <= i < |commands| ==> Writable(commands[i])
  }

  // ----- The characters of a line -----

  lemma {:induction false} ArgsChars(words: Words, c: char)
    requires c == '\n' || c == '"'
    requires forall i :: 0 <= i < |words| ==> c !in words[i]
    requires c == '"' ==> forall i :: 0 <= i < |words| ==> !P.NeedsQuotes(words[i])
    ensures c !in P.PrintArgs(words)
    decreases |words|
  {
    if words != [] {
      ArgsChars(words[1..], c);
      assert c !in words[0];
    }
  }

  lemma CommandChars(words: Words, c: char)
    requires c == '\n' || c == '"'
    requires forall i :: 0 <= i < |words| ==> c !in words[i]
    requires c == '"' ==> forall i :: 0 <= i < |words| ==> !P.NeedsQuotes(words[i])
    ensures c !in P.PrintCommand(words)
  {
    if words != [] {
      ArgsChars(words[1..], c);
      assert c !in words[0];
      hide P.PrintArgs, P.NeedsQuotes;
    }
  }

  lemma {:induction false} LineChars(commands: seq<Words>)
    requires commands != [] && forall i :: 0 <= i < |commands| ==> Writable(commands[i])
    ensures '\n' !in P.PrintLine(commands)
    decreases |commands|
  {
    assert Writable(commands[0]);
    CommandChars(commands[0], '\n');
    hide P.PrintCommand, Writable;
    if |commands| > 1 {
      LineChars(commands[1..]);
    }
  }

  // ----- The commands of a line -----

  /** A loop header is recorded where it starts. */
  lemma RecordedHeader(commands: seq<Words>)
    requires commands != [] && Writable(commands[0]) && Header(commands[0])
    ensures NextPiece(Row(commands), 0).working == 0
  {
    var s, n := Row(commands), |P.PrintCommand(commands[0])|;
    assert n < |s| && s[..n] == P.PrintCommand(commands[0]) && LineSeparator(s[n]) && s[n] != '"' by {
      hide P.PrintCommand;
    }
    NoQuotes(commands[0]);
    var e := Span(s, 0);
    assert e <= n;
    assert s[e] != '"' by {
      if e < n { assert s[e] == s[..n][e]; }
    }
    RecordedStartExactly(s);
  }

  lemma NoQuotes(words: Words)
    requires Writable(words) && Header(words)
    ensures '"' !in P.PrintCommand(words)
  {
    forall i | 0 <= i < |words|
      ensures '"' !in words[i]
    {
      assert P.Printable(words[i]);
    }
    CommandChars(words, '"');
  }

  /** What is known of the commands found on a line. */
  predicate Found(spots: seq<Spot>, commands: seq<Words>) {
    && R.Commands(spots) == commands
    && forall i :: 0 <= i < |spots| && Header(spots[i].words) ==> spots[i].first && spots[i].offs == spots[i].at
  }

  lemma OneSpot(words: Words, at: int, offs: int)
    requires Writable(words) && (Header(words) ==> offs == at)
    ensures Found(CommandSpots(words, at, offs), [words]) && Regular(words)
  {
    assert Unglue(words) == [words];
    P.PrintableFixed(words);
  }

  lemma {:induction false} FoundAdd(a: seq<Spot>, b: seq<Spot>, c: seq<Words>, d: seq<Words>)
    requires Found(a, c) && Found(b, d)
    ensures Found(a + b, c + d)
  {
    var s := a + b;
    assert R.Commands(s) == R.Commands(a) + R.Commands(b);
    forall i | 0 <= i < |s| && Header(s[i].words)
      ensures s[i].first && s[i].offs == s[i].at
    {
      assert s[i] == if i < |a| then a[i] else b[i - |a|];
    }
  }

  lemma LastPiece(s: string, at: int)
    requires NextPiece(s, 0).Last?
    ensures LineSpots(s, at) == CommandSpots(Tokens(s), at, at + NextPiece(s, 0).working)
    ensures Matched(s) == Regular(Tokens(s))
  {
    hide NextPiece, Tokens, CommandSpots, Regular;
  }

  lemma FirstPiece(s: string, at: int)
    requires NextPiece(s, 0).Semi?
    ensures var p := NextPiece(s, 0); var words := Tokens(s[..p.end]);
      && LineSpots(s, at) == CommandSpots(words, at, at + p.working) + LineSpots(s[p.end + 1..], at + p.end + 1)
      && Matched(s) == (Regular(words) && Matched(s[p.end + 1..]))
  {
    hide NextPiece, Tokens, CommandSpots, Regular;
  }

  lemma {:induction false} RowFound(commands: seq<Words>, at: int)
    requires commands != [] && forall i :: 0 <= i < |commands| ==> Writable(commands[i])
    ensures Found(LineSpots(Row(commands), at), commands) && Matched(Row(commands))
    decreases |commands|
  {
    hide P.PrintLine, P.PrintCommand, NextPiece, Tokens, CommandSpots, Found, Regular, LineSpots, Matched, Header;
    var s := Row(commands);
    var piece := NextPiece(s, 0);
    assert Writable(commands[0]);
    P.PrintedPiece(commands, "\n");
    if Header(commands[0]) { RecordedHeader(commands); }
    OneSpot(commands[0], at, at + piece.working);
    if |commands| > 1 {
      FirstPiece(s, at);
      RowFound(commands[1..], at + piece.end + 1);
      FoundAdd(CommandSpots(commands[0], at, at + piece.working),
               LineSpots(Row(commands[1..]), at + piece.end + 1), [commands[0]], commands[1..]);
      assert [commands[0]] + commands[1..] == commands;
    } else {
      LastPiece(s, at);
      assert [commands[0]] == commands;
    }
  }

  // ----- The whole text -----

  lemma {:induction false} TextFound(file: string, at: nat, lines: seq<seq<Words>>)
    requires forall i :: 0 <= i < |lines| ==> WritableRow(lines[i])
    requires Rows(lines) && at <= |file| && file[at..] == Text(lines)
    ensures Found(FileSpots(file, at), Flat(lines)) && Tidy(file, at)
    decreases |lines|
  {
    hide LineSpots, Matched, Found, Line, P.PrintLine, P.PrintCommand, Writable;
    if lines == [] {
      NoFile(file, at);
    } else {
      var s, rest := P.PrintLine(lines[0]), Text(lines[1..]);
      assert WritableRow(lines[0]);
      LineChars(lines[0]);
      LineIs(file, at, s, rest);
      RowFound(lines[0], at);
      assert file[at + |s| + 1..] == file[at..][|s| + 1..];
      TextFound(file, at + |s| + 1, lines[1..]);
      FoundAdd(LineSpots(Row(lines[0]), at), FileSpots(file, at + |s| + 1), lines[0], Flat(lines[1..]));
    }
  }

  lemma NoFile(file: string, at: nat)
    requires at == |file|
    ensures FileSpots(file, at) == [] && Found([], []) && Tidy(file, at)
  {
  }

  /** Written out in any layout, a program in scope runs as its structured meaning says. */
  lemma WrittenIsStructured(env: Env, lines: seq<seq<Words>>, p: Prog, np: Np, trace: Trace, e: R.Ending)
    requires lines != [] && forall i :: 0 <= i < |lines| ==> WritableRow(lines[i])
    requires Flat(lines) == Flatten(p)
    requires R.Fresh(np) && WellFormed(p) && InScope(p, false, false) && Fits(p, np)
    ensures Rows(lines)
    ensures R.TextEnds(env, Text(lines), np, trace, e)
       <==> exists fuel: nat :: T.FlowEnds(Std(env.run, p, false, np.fail, trace, fuel), e)
  {
    forall i | 0 <= i < |lines|
      ensures lines[i] != []
    {
      assert WritableRow(lines[i]);
    }
    var file := Text(lines);
    assert file[0..] == file && file != "";
    TextFound(file, 0, lines);
    assert Clean(file);
    T.ScriptIsStructured(env, file, p, np, trace, e);
  }
}
