/** How text is cut into words and a file into lines, said a second time: a walk
    from character to character, and what the pieces add up to. */
module NshWords {
  import opened NshState
  import opened NshText
  import P = NshPrint

  // ----- Words -----

  /** Between two words, or inside one of which `w` has been read. */
  datatype Mode = Gap | In(w: string, quoted: bool, backquoted: bool)

  /** The words of a command, read one character after the other. */
  function Scan(s: string, mode: Mode): Words
    decreases |s|, mode.Gap?
  {
    match mode
    case Gap =>
      if s == "" || s[0] == '#' then []
      else if s[0] == ' ' || s[0] == '\t' || s[0] == '\n' then Scan(s[1..], Gap)
      else if s[0] == '>' then
        if |s| > 1 && s[1] == '>' then [">>"] + Scan(s[2..], Gap) else [">"] + Scan(s[1..], Gap)
      else if s[0] == '"' then Scan(s[1..], In("", true, false))
      else Scan(s, In("", false, false))
    case In(w, quoted, backquoted) =>
      if s == "" then [w]
      else if s[0] == '`' then Scan(s[1..], In(w + "`", quoted, !backquoted))
      else if backquoted then Scan(s[1..], In(w + [s[0]], quoted, true))
      else if quoted then
        if s[0] == '"' then [w] + Scan(s[1..], Gap) else Scan(s[1..], In(w + [s[0]], true, false))
      else
        if s[0] == ' ' || s[0] == '\t' || s[0] == '\n' then [w] + Scan(s[1..], Gap)
        else Scan(s[1..], In(w + [s[0]], false, false))
  }

  lemma {:induction false} ScanWord(s: string, w: string, quoted: bool, backquoted: bool)
    ensures var n := WordEnd(s, quoted, backquoted);
      Scan(s, In(w, quoted, backquoted)) == [w + s[..n]] + Scan(if n < |s| then s[n + 1..] else "", Gap)
    decreases |s|
  {
    var n := WordEnd(s, quoted, backquoted);
    if s == "" {
      assert w + s[..0] == w && [w] + [] == [w];
    } else if n == 0 {
      assert w + s[..0] == w;
    } else {
      var b := if s[0] == '`' then !backquoted else backquoted;
      assert n == 1 + WordEnd(s[1..], quoted, b);
      assert Scan(s, In(w, quoted, backquoted)) == Scan(s[1..], In(w + [s[0]], quoted, b));
      hide Scan, WordEnd;
      ScanWord(s[1..], w + [s[0]], quoted, b);
      Extend(w, s, n);
    }
  }

  lemma Extend(w: string, s: string, n: nat)
    requires 0 < n <= |s|
    ensures w + [s[0]] + s[1..][..n - 1] == w + s[..n]
    ensures n < |s| ==> s[1..][n..] == s[n + 1..]
  {
    assert [s[0]] + s[1..][..n - 1] == s[..n];
    assert w + [s[0]] + s[1..][..n - 1] == w + ([s[0]] + s[1..][..n - 1]);
  }

  lemma {:induction false} ScanGap(s: string)
    ensures Scan(s, Gap) == Scan(SkipSeparators(s), Gap)
    decreases |s|
  {
    if s != "" && Separator(s[0]) { ScanGap(s[1..]); }
  }

  /** The words that are cut off one after the other are those of the walk. */
  lemma {:induction false} TokensAreScanned(s: string)
    ensures Tokens(s) == Scan(s, Gap)
    decreases |s|
  {
    ScanGap(s);
    var s1 := SkipSeparators(s);
    match NextToken(s)
    case NoToken =>
    case Token(w, rest) =>
      TokensAreScanned(rest);
      if s1[0] == '"' {
        ScanWord(s1[1..], "", true, false);
        assert "" + w == w;
      } else if s1[0] != '>' {
        ScanWord(s1, "", false, false);
        assert "" + w == w;
      }
  }

  // ----- Lines -----

  /** A newline ends it, if it has any. */
  predicate OneLine(s: string) {
    forall i :: 0 <= i < |s| - 1 ==> s[i] != '\n'
  }

  lemma {:induction false} LineReads(file: string, at: nat)
    requires at <= |file|
    ensures var s := Line(file, at);
      && at + |s| <= |file| && s == file[at..at + |s|] && OneLine(s)
      && (at + |s| < |file| ==> s != "" && s[|s| - 1] == '\n')
    decreases |file| - at
  {
    if at < |file| && file[at] != '\n' {
      LineReads(file, at + 1);
      var t := Line(file, at + 1);
      assert file[at..at + 1 + |t|] == [file[at]] + t;
    }
  }

  /** What successive calls of fgets return. */
  function Chunks(file: string, at: nat): seq<string>
    requires at <= |file|
    decreases |file| - at
  {
    LineReads(file, at);
    var chunk := Fgets(file, at);
    if chunk == "" then [] else [chunk] + Chunks(file, at + |chunk|)
  }

  function Join(chunks: seq<string>): string {
    if chunks == [] then "" else chunks[0] + Join(chunks[1..])
  }

  /** A line, or as much of it as the buffer holds; only the last may be shorter. */
  predicate Chunk(s: string, last: bool) {
    && 0 < |s| < LINELEN && OneLine(s)
    && (last || s[|s| - 1] == '\n' || |s| == LINELEN - 1)
  }

  lemma FgetsReads(file: string, at: nat)
    requires at <= |file|
    ensures var chunk := Fgets(file, at);
      && at + |chunk| <= |file| && file[at..] == chunk + file[at + |chunk|..] && (chunk == "" <==> at == |file|)
      && (chunk != "" ==> Chunk(chunk, at + |chunk| == |file|))
  {
    hide Line, OneLine;
    LineReads(file, at);
    var s := Line(file, at);
    var n := if |s| < LINELEN then |s| else LINELEN - 1;
    assert Fgets(file, at) == s[..n] == file[at..at + n];
    ShortLine(s, n);
  }

  lemma ShortLine(s: string, n: nat)
    requires OneLine(s) && n <= |s|
    ensures OneLine(s[..n])
  {
  }

  /** Nothing of a file is lost, changed or read twice, and every read takes as much
      as it can. */
  lemma {:induction false} ChunksJoin(file: string, at: nat)
    requires at <= |file|
    ensures var chunks := Chunks(file, at);
      Join(chunks) == file[at..] && forall i :: 0 <= i < |chunks| ==> Chunk(chunks[i], i == |chunks| - 1)
    decreases |file| - at
  {
    hide Fgets, Chunk;
    FgetsReads(file, at);
    var chunk, chunks := Fgets(file, at), Chunks(file, at);
    if chunk != "" {
      ChunksJoin(file, at + |chunk|);
      assert chunks[1..] == Chunks(file, at + |chunk|);
      if at + |chunk| < |file| { MoreChunks(file, at + |chunk|); }
      hide Chunks;
      forall i | 0 <= i < |chunks|
        ensures Chunk(chunks[i], i == |chunks| - 1)
      {
        if i > 0 { assert chunks[i] == chunks[1..][i - 1]; }
      }
    }
  }

  lemma MoreChunks(file: string, at: nat)
    requires at < |file|
    ensures Chunks(file, at) != []
  {
    hide Fgets, Chunk;
    FgetsReads(file, at);
  }

  // ----- An unmatched quotation mark -----

  /** The command with it is not run, and the line fails. */
  lemma UnmatchedFails(env: Env, np: Np, s: string, start: nat, trace: Trace)
    requires np.Valid() && P.Walk(s) == P.NoQuote
    ensures var o := ParseLine(env, np, s, start, trace);
      !o.ok && o.trace == trace && o.np == np.(loffs := o.np.loffs)
  {
    hide ParseLine, NextPiece, P.Walk;
    P.WalkIsNextPiece(s, 0);
    assert s[0..] == s;
    ParseLineUnfold(env, np, s, start, trace);
  }
}
