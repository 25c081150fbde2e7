/** Loop headers with quotation marks: where the jump back to the recorded offset
    leads.  nsh_parse records how far it has searched for the end of the command,
    which is past every closing quotation mark. */
module NshHeader {
  import opened NshState
  import opened NshText
  import opened NshLayout
  import R = NshScript

  // ----- The text of a command -----

  /** A spot stands where it says, and the offset recorded for it is that of the
      last search on its line. */
  predicate Stands(file: string, spot: Spot) {
    var s := Line(file, spot.at);
    && s != "" && !NextPiece(s, 0).Unmatched? && spot.offs == spot.at + NextPiece(s, 0).working
    && Unglue(Tokens(Here(s))) != [] && spot.words == Unglue(Tokens(Here(s)))[0]
  }

  lemma {:induction false} LineStands(file: string, at: int, s: string, j: nat)
    requires 0 <= at && s != "" && Line(file, at) == s
    requires j < |LineSpots(s, at)| && LineSpots(s, at)[j].first
    ensures Stands(file, LineSpots(s, at)[j])
    decreases |s|
  {
    hide NextPiece, Tokens, Line, LineSpots, Here, Rest;
    LineUnfold(s, at);
    var here := CommandSpots(Tokens(Here(s)), at, at + NextPiece(s, 0).working);
    if j >= |here| {
      hide Stands;
      var d := |s| - |Rest(s)|;
      if Rest(s) == "" { NoSpots(at + d); }
      LineTail(file, at, d);
      LineStands(file, at + d, Rest(s), j - |here|);
    }
  }

  lemma {:induction false} FileStands(file: string, at: int, j: nat)
    requires 0 <= at && j < |FileSpots(file, at)| && FileSpots(file, at)[j].first
    ensures Stands(file, FileSpots(file, at)[j])
    decreases |file| - at
  {
    hide Line, LineSpots, FileSpots, Stands;
    FileUnfold(file, at);
    var line := Line(file, at);
    var here := LineSpots(line, at);
    if j < |here| {
      LineStands(file, at, line, j);
    } else {
      FileStands(file, at + |line|, j - |here|);
    }
  }

  // ----- The text from the recorded offset on -----

  lemma {:induction false} LastSearch(s: string, i: nat)
    requires i <= |s| && !NextPiece(s, i).Unmatched?
    ensures var p := NextPiece(s, i); var e := Span(s, p.working);
      && (p.Semi? ==> p.end == e)
      && (p.Last? ==> e == |s| || s[e] == '\n' || s[e] == '#')
    decreases |s| - i
  {
    hide NextPiece;
    PieceUnfold(s, i);
    var e := Span(s, i);
    if e < |s| && s[e] == '"' && FindQuote(s, e + 1) < |s| {
      LastSearch(s, FindQuote(s, e + 1) + 1);
    }
  }

  lemma SpanIs(s: string, i: nat, e: nat)
    requires i <= e <= |s| && (e < |s| ==> LineSeparator(s[e]))
    requires forall k :: i <= k < e ==> !LineSeparator(s[k])
    ensures Span(s, i) == e
  {
  }

  lemma SpanTail(s: string, w: nat)
    requires w <= |s|
    ensures Span(s[w..], 0) == Span(s, w) - w
  {
    SpanIs(s[w..], 0, Span(s, w) - w);
  }

  lemma PieceFrom(s: string, p: Piece)
    requires p == NextPiece(s, 0) && !p.Unmatched?
    ensures NextPiece(s[p.working..], 0) == if p.Semi? then Semi(p.end - p.working, 0) else Last(0)
  {
    hide NextPiece, Span, FindQuote;
    LastSearch(s, 0);
    SpanTail(s, p.working);
    PieceUnfold(s[p.working..], 0);
  }

  /** Searching again from there finds the same end of the command. */
  lemma PieceTail(s: string)
    requires !NextPiece(s, 0).Unmatched?
    ensures var w := NextPiece(s, 0).working;
      && NextPiece(s[w..], 0).working == 0 && !NextPiece(s[w..], 0).Unmatched?
      && w <= |Here(s)| && Here(s[w..]) == Here(s)[w..] && Rest(s[w..]) == Rest(s)
  {
    hide NextPiece;
    var p := NextPiece(s, 0);
    PieceFrom(s, p);
    if p.Semi? {
      assert s[p.working..][..p.end - p.working] == s[..p.end][p.working..];
      assert s[p.working..][p.end - p.working + 1..] == s[p.end + 1..];
    }
  }

  lemma NothingAfter(file: string, at: int, s: string)
    requires 0 <= at && Line(file, at) == s && s != "" && s[|s| - 1] != '\n'
    ensures Line(file, at + |s|) == ""
    decreases |s|
  {
    if |s| > 1 {
      LineTail(file, at, 1);
      NothingAfter(file, at + 1, s[1..]);
    }
  }

  /** The commands of the file from the recorded offset on. */
  lemma TailSpots(file: string, at: int)
    requires 0 <= at && Line(file, at) != "" && !NextPiece(Line(file, at), 0).Unmatched?
    ensures var s := Line(file, at); var w := NextPiece(s, 0).working;
      && Line(file, at + w) == s[w..]
      && FileSpots(file, at + w) == LineSpots(s[w..], at + w) + FileSpots(file, at + |s|)
  {
    hide NextPiece, Line, LineSpots, FileSpots;
    var s := Line(file, at);
    var w := NextPiece(s, 0).working;
    if w < |s| {
      LineTail(file, at, w);
      FileUnfold(file, at + w);
    } else {
      WholeLine(s);
      NothingAfter(file, at, s);
      NoSpots(at + w);
      FileUnfold(file, at + w);
    }
  }

  /** The search only reaches the end of the line past a quotation mark. */
  lemma WholeLine(s: string)
    requires s != "" && NextPiece(s, 0).working == |s|
    ensures s[|s| - 1] != '\n'
  {
    SearchedQuote(s, 0);
  }

  lemma {:induction false} SearchedQuote(s: string, i: nat)
    requires i <= |s|
    ensures var w := NextPiece(s, i).working; w == i || (w > i && s[w - 1] == '"')
    decreases |s| - i
  {
    hide NextPiece;
    PieceUnfold(s, i);
    var e := Span(s, i);
    if e < |s| && s[e] == '"' && FindQuote(s, e + 1) < |s| {
      SearchedQuote(s, FindQuote(s, e + 1) + 1);
    }
  }

  // ----- Where the jump leads -----

  /** From the recorded offset of spot j on, the file has the commands that it has
      from that spot on. */
  predicate LeadsTo(file: string, j: nat)
    requires j < |FileSpots(file, 0)|
  {
    var spots := FileSpots(file, 0);
    R.Commands(FileSpots(file, spots[j].offs)) == R.Commands(spots)[j..]
  }

  lemma CommandsAdd(a: seq<Spot>, b: seq<Spot>)
    ensures R.Commands(a + b) == R.Commands(a) + R.Commands(b)
  {
  }

  lemma CommandsFrom(a: seq<Spot>, j: nat)
    requires j <= |a|
    ensures R.Commands(a)[j..] == R.Commands(a[j..])
  {
  }

  lemma CommandsOf(words: Words, at: int, offs: int)
    ensures R.Commands(CommandSpots(words, at, offs)) == Unglue(words)
  {
  }

  /** The jump back to a loop header leads back to it exactly if the words behind
      the last closing quotation mark of the header are again its words; without
      a quotation mark they are. */
  lemma HeaderLands(file: string, j: nat)
    requires j < |FileSpots(file, 0)|
    requires var spot := FileSpots(file, 0)[j]; spot.first && Header(spot.words)
    ensures var spot := FileSpots(file, 0)[j];
      && LeadsTo(file, j) <==> Tokens(Here(Line(file, spot.offs))) == spot.words
  {
    hide Tokens, Line, FileSpots, Here, R.Commands, Unglue, KindOf, Stands;
    var spots := FileSpots(file, 0);
    var spot := spots[j];
    FileStands(file, 0, j);
    LeadsBack(file, 0, j);
    var rest := TwoReadings(file, spot);
    CommandsFrom(spots, j);
    var now := Tokens(Here(Line(file, spot.offs)));
    UnglueIs(now, spot.words);
    SameFront(Unglue(now), [spot.words], R.Commands(rest));
  }

  /** The commands from a loop header on, read from its start and from the offset
      recorded for it. */
  lemma TwoReadings(file: string, spot: Spot) returns (rest: seq<Spot>)
    requires 0 <= spot.at && Stands(file, spot) && Header(spot.words)
    ensures R.Commands(FileSpots(file, spot.at)) == [spot.words] + R.Commands(rest)
    ensures R.Commands(FileSpots(file, spot.offs))
         == Unglue(Tokens(Here(Line(file, spot.offs)))) + R.Commands(rest)
  {
    hide NextPiece, Tokens, Line, LineSpots, FileSpots, Here, Rest, R.Commands, Unglue, Header, CommandSpots;
    var s := Line(file, spot.at);
    var w := NextPiece(s, 0).working;
    var t := s[w..];
    TailSpots(file, spot.at);
    PieceTail(s);
    FileUnfold(file, spot.at);
    LineUnfold(s, spot.at);
    LineUnfold(t, spot.offs);
    rest := LineSpots(Rest(s), spot.at + |s| - |Rest(s)|) + FileSpots(file, spot.at + |s|);
    Reading(Tokens(Here(s)), spot.at, spot.offs, LineSpots(Rest(s), spot.at + |s| - |Rest(s)|),
            FileSpots(file, spot.at + |s|));
    Reading(Tokens(Here(t)), spot.offs, spot.offs, LineSpots(Rest(s), spot.at + |s| - |Rest(s)|),
            FileSpots(file, spot.at + |s|));
    UnglueHeader(Tokens(Here(s)));
  }

  lemma Reading(words: Words, at: int, offs: int, a: seq<Spot>, b: seq<Spot>)
    ensures R.Commands(CommandSpots(words, at, offs) + a + b) == Unglue(words) + R.Commands(a + b)
  {
    hide Unglue;
    CommandsAdd(CommandSpots(words, at, offs), a + b);
    CommandsOf(words, at, offs);
    assert CommandSpots(words, at, offs) + a + b == CommandSpots(words, at, offs) + (a + b);
  }

  lemma UnglueHeader(words: Words)
    requires Unglue(words) != [] && Header(Unglue(words)[0])
    ensures Unglue(words) == [words]
  {
  }

  lemma UnglueIs(words: Words, header: Words)
    requires Header(header)
    ensures Unglue(words) == [header] <==> words == header
  {
  }

  lemma SameFront(a: seq<Words>, b: seq<Words>, rest: seq<Words>)
    ensures a + rest == b + rest <==> a == b
  {
    if a + rest == b + rest {
      assert a == (a + rest)[..|a|] && b == (b + rest)[..|b|];
    }
  }

  // ----- Headers without comments and backquotes -----

  /** Characters that are neither separators nor quotation marks. */
  function Solid(s: string): (n: nat)
    ensures n <= |s|
  {
    if s == "" then 0
    else Solid(s[..|s| - 1]) + if Separator(s[|s| - 1]) || s[|s| - 1] == '"' then 0 else 1
  }

  lemma {:induction false} SolidAdd(a: string, b: string)
    ensures Solid(a + b) == Solid(a) + Solid(b)
    decreases |b|
  {
    if b == "" {
      assert a + b == a;
    } else {
      var n := |b| - 1;
      assert (a + b)[..|a + b| - 1] == a + b[..n];
      SolidAdd(a, b[..n]);
    }
  }

  /** Total length of the words. */
  function Weight(words: Words): nat {
    if words == [] then 0 else |words[0]| + Weight(words[1..])
  }

  predicate Free(s: string) {
    '#' !in s && '`' !in s
  }

  lemma {:induction false} SkipSolid(s: string)
    ensures Solid(SkipSeparators(s)) == Solid(s)
    ensures (Free(s) ==> Free(SkipSeparators(s))) && ('"' !in s ==> '"' !in SkipSeparators(s))
    decreases |s|
  {
    if s != "" && Separator(s[0]) {
      SkipSolid(s[1..]);
      assert s == s[..1] + s[1..];
      SolidAdd(s[..1], s[1..]);
    }
  }

  /** What a word is made of. */
  lemma {:induction false} WordParts(s: string, quoted: bool)
    requires '`' !in s
    ensures var n := WordEnd(s, quoted, false);
      && n <= |s| && (n < |s| ==> Terminator(quoted, s[n]))
      && forall i :: 0 <= i < n ==> !Terminator(quoted, s[i])
    decreases |s|
  {
    if s != "" && !Terminator(quoted, s[0]) {
      WordParts(s[1..], quoted);
      var n := WordEnd(s[1..], quoted, false);
      assert forall i :: 1 <= i < n + 1 ==> s[i] == s[1..][i - 1];
    }
  }

  lemma {:induction false} AllSolid(s: string)
    requires forall i :: 0 <= i < |s| ==> !Separator(s[i]) && s[i] != '"'
    ensures Solid(s) == |s|
    decreases |s|
  {
    if s != "" { AllSolid(s[..|s| - 1]); }
  }

  /** A word weighs at least as much as what is taken off the text with it, and
      exactly as much if there is no quotation mark. */
  predicate Weighs(s: string, word: string, rest: string) {
    && Free(rest) && ('"' !in s ==> '"' !in rest)
    && Solid(s) <= |word| + Solid(rest)
    && ('"' !in s ==> Solid(s) == |word| + Solid(rest))
  }

  lemma PlainWeight(s: string)
    requires Free(s)
    ensures var t := Word(s, false); Weighs(s, t.word, t.rest)
  {
    hide Solid, WordEnd;
    WordParts(s, false);
    TakenWeight(s, WordEnd(s, false, false), 1);
  }

  lemma QuotedWeight(s: string)
    requires Free(s) && s != "" && s[0] == '"'
    ensures var t := Word(s[1..], true); Weighs(s, t.word, t.rest)
  {
    assert Solid(s[..1]) == 0;
    assert s == s[..1] + s[1..];
    hide Solid, WordEnd;
    SolidAdd(s[..1], s[1..]);
    SuffixFree(s, 1);
    WordParts(s[1..], true);
    TakenWeight(s[1..], WordEnd(s[1..], true, false), 1);
    assert s[0] in s;
  }

  lemma RedirectWeight(s: string)
    requires Free(s) && s != "" && s[0] == '>'
    ensures if |s| > 1 && s[1] == '>' then Weighs(s, ">>", s[2..]) else Weighs(s, ">", s[1..])
  {
    hide Solid;
    TakenWeight(s, if |s| > 1 && s[1] == '>' then 2 else 1, 0);
  }

  lemma SuffixFree(s: string, k: nat)
    requires k <= |s|
    ensures Free(s) ==> Free(s[k..])
    ensures '"' !in s ==> '"' !in s[k..]
  {
  }

  lemma TokenWeight(s: string)
    requires Free(s)
    ensures NextToken(s).NoToken? ==> Solid(s) == 0
    ensures NextToken(s).Token? ==> Weighs(s, NextToken(s).word, NextToken(s).rest)
  {
    assert Solid("") == 0;
    hide Solid, SkipSeparators, Word, Weighs;
    SkipSolid(s);
    var s1 := SkipSeparators(s);
    if s1 != "" {
      NoComment(s1);
      if s1[0] == '>' {
        RedirectWeight(s1);
      } else if s1[0] == '"' {
        QuotedWeight(s1);
      } else {
        PlainWeight(s1);
      }
      var t := NextToken(s);
      WeighsMore(s, s1, t.word, t.rest);
    }
  }

  lemma NoComment(s: string)
    requires Free(s) && s != ""
    ensures s[0] != '#'
  {
    assert s[0] in s;
  }

  lemma WeighsMore(s: string, s1: string, word: string, rest: string)
    requires Weighs(s1, word, rest) && Solid(s) == Solid(s1) && ('"' !in s ==> '"' !in s1)
    ensures Weighs(s, word, rest)
  {
  }

  /** Cutting n characters off the text, and a terminator behind them. */
  lemma TakenWeight(s: string, n: nat, skip: nat)
    requires n <= |s| && skip <= 1
    requires n < |s| && skip == 1 ==> Separator(s[n]) || s[n] == '"'
    ensures var rest := if n + skip <= |s| then s[n + skip..] else "";
      && Solid(s) <= n + Solid(rest)
      && ((forall i :: 0 <= i < n ==> !Separator(s[i]) && s[i] != '"') ==> Solid(s) == n + Solid(rest))
      && (Free(s) ==> Free(rest)) && ('"' !in s ==> '"' !in rest)
  {
    if n + skip <= |s| { SuffixFree(s, n + skip); }
    FrontSolid(s, n);
    if n < |s| && skip == 1 {
      FrontSolid(s[n..], 1);
      assert Solid(s[n..][..1]) == 0;
      assert s[n..][1..] == s[n + 1..];
    } else if n == |s| {
      assert s[n..] == "";
    }
    hide Solid;
    if forall i :: 0 <= i < n ==> !Separator(s[i]) && s[i] != '"' { AllSolid(s[..n]); }
  }

  lemma FrontSolid(s: string, n: nat)
    requires n <= |s|
    ensures Solid(s) == Solid(s[..n]) + Solid(s[n..]) && Solid(s[..n]) <= n
  {
    assert s == s[..n] + s[n..];
    SolidAdd(s[..n], s[n..]);
  }

  lemma {:induction false} TokensWeight(s: string)
    requires Free(s)
    ensures Solid(s) <= Weight(Tokens(s))
    ensures '"' !in s ==> Weight(Tokens(s)) == Solid(s)
    decreases |s|
  {
    TokenWeight(s);
    hide NextToken, Solid;
    if NextToken(s).Token? { TokensWeight(NextToken(s).rest); }
  }

  predicate OneLine(s: string) {
    forall i :: 0 <= i < |s| - 1 ==> s[i] != '\n'
  }

  lemma {:induction false} LineIsOne(file: string, at: int)
    ensures OneLine(Line(file, at))
    decreases |file| - at
  {
    if 0 <= at < |file| && file[at] != '\n' {
      LineIsOne(file, at + 1);
      var s, t := Line(file, at), Line(file, at + 1);
      assert forall i :: 1 <= i < |s| ==> s[i] == t[i - 1];
    }
  }

  lemma {:induction false} SolidHas(s: string, k: nat)
    requires k < |s| && !Separator(s[k]) && s[k] != '"'
    ensures Solid(s) >= 1
    decreases |s|
  {
    if k < |s| - 1 { SolidHas(s[..|s| - 1], k); }
  }

  lemma {:induction false} SkipShape(s: string)
    ensures var i := |s| - |SkipSeparators(s)|;
      s[i..] == SkipSeparators(s) && forall k :: 0 <= k < i ==> Separator(s[k])
    decreases |s|
  {
    if s != "" && Separator(s[0]) {
      SkipShape(s[1..]);
      var i := |s[1..]| - |SkipSeparators(s[1..])|;
      assert forall k :: 1 <= k < i + 1 ==> s[k] == s[1..][k - 1];
    }
  }

  /** A header with a matched quotation mark has a character of its keyword before
      the last one. */
  lemma SolidFront(s: string)
    requires var p := NextPiece(s, 0); !p.Unmatched? && p.working > 0 && p.working <= |Here(s)|
    requires Header(Tokens(Here(s)))
    ensures Solid(Here(s)[..NextPiece(s, 0).working]) >= 1
  {
    var h, w := Here(s), NextPiece(s, 0).working;
    FirstQuotes(s);
    var e := Span(s, 0);
    hide NextPiece, Here, Solid, Span, FindQuote;
    HerePrefix(s, e);
    SkipShape(h);
    var i := |h| - |SkipSeparators(h)|;
    assert i <= e;
    FirstWord(h, i);
    assert h[..w][i] == h[i] && h[..w][i + 1] == h[i + 1];
    if h[i] == '"' { SolidHas(h[..w], i + 1); } else { SolidHas(h[..w], i); }
  }

  lemma HerePrefix(s: string, e: nat)
    requires e < |Here(s)|
    ensures e < |s| && Here(s)[e] == s[e]
  {
    hide NextPiece;
  }

  /** Where the keyword of a header starts. */
  lemma FirstWord(h: string, i: nat)
    requires i == |h| - |SkipSeparators(h)| && h[i..] == SkipSeparators(h) && Header(Tokens(h))
    ensures i < |h| && !Separator(h[i])
    ensures h[i] == '"' ==> i + 1 < |h| && (h[i + 1] == 'w' || h[i + 1] == 'u')
  {
    hide SkipSeparators, WordEnd;
    var word := NextToken(h).word;
    assert word == Tokens(h)[0] && (word == "while" || word == "until");
    hide Tokens;
    if h[i] == '"' {
      var s := h[i..][1..];
      assert word[0] == s[0] && s[0] == h[i + 1];
    }
  }

  lemma FirstQuotes(s: string)
    requires NextPiece(s, 0).working > 0
    ensures var e := Span(s, 0); e < |s| && s[e] == '"' && e + 2 <= NextPiece(s, 0).working
  {
    hide Span, FindQuote;
    PieceUnfold(s, 0);
  }

  /** Behind the last closing quotation mark there is none. */
  lemma TailFree(s: string)
    requires var p := NextPiece(s, 0); !p.Unmatched? && p.working <= |Here(s)|
    requires OneLine(s) && Free(Here(s))
    ensures '"' !in Here(s)[NextPiece(s, 0).working..]
  {
    LastSearch(s, 0);
    var p, e := NextPiece(s, 0), Span(s, NextPiece(s, 0).working);
    hide NextPiece;
    if p.Last? && e < |s| {
      assert s[e] in s;
      assert e == |s| - 1;
    }
  }

  /** The words behind the last closing quotation mark are not those of the header. */
  lemma TailDiffers(s: string)
    requires var p := NextPiece(s, 0); !p.Unmatched? && p.working > 0 && p.working <= |Here(s)|
    requires OneLine(s) && Free(Here(s)) && Header(Tokens(Here(s)))
    ensures Tokens(Here(s)[NextPiece(s, 0).working..]) != Tokens(Here(s))
  {
    hide NextPiece, Here, Tokens, Solid, Header;
    var h, w := Here(s), NextPiece(s, 0).working;
    SolidFront(s);
    TailFree(s);
    assert h == h[..w] + h[w..];
    SolidAdd(h[..w], h[w..]);
    TokensWeight(h);
    TokensWeight(h[w..]);
  }

  /** A header that has neither a comment character nor a backquote in it is led
      back to exactly if there is no quotation mark in it. */
  lemma HeaderExactly(file: string, j: nat)
    requires j < |FileSpots(file, 0)|
    requires var spot := FileSpots(file, 0)[j];
      spot.first && Header(spot.words) && Free(Here(Line(file, spot.at)))
    ensures var spot := FileSpots(file, 0)[j];
      && (LeadsTo(file, j) <==> spot.offs == spot.at)
      && (spot.offs == spot.at <==> '"' !in Here(Line(file, spot.at)))
  {
    hide Tokens, Line, FileSpots, LeadsTo, Here, Header, Free, NextPiece, Unglue;
    var spot := FileSpots(file, 0)[j];
    var s := Line(file, spot.at);
    FileStands(file, 0, j);
    LeadsBack(file, 0, j);
    HeaderLands(file, j);
    TailSpots(file, spot.at);
    PieceTail(s);
    LineIsOne(file, spot.at);
    UnglueHeader(Tokens(Here(s)));
    TailFree(s);
    var h, w := Here(s), NextPiece(s, 0).working;
    if w == 0 {
      assert h[0..] == h;
    } else {
      TailDiffers(s);
      SearchedQuote(s, 0);
      HerePrefix(s, w - 1);
    }
  }

  // ----- Tidy files -----

  lemma {:induction false} LineFirst(s: string, at: int, j: nat)
    requires Matched(s) && j < |LineSpots(s, at)| && Header(LineSpots(s, at)[j].words)
    ensures LineSpots(s, at)[j].first
    decreases |s|
  {
    hide NextPiece, Tokens, LineSpots, Matched, Here, Rest, KindOf;
    LineUnfold(s, at);
    R.MatchedUnfold(s);
    var here := CommandSpots(Tokens(Here(s)), at, at + NextPiece(s, 0).working);
    if j >= |here| {
      if NextPiece(s, 0).Last? { NoSpots(at + |s| - |Rest(s)|); }
      LineFirst(Rest(s), at + |s| - |Rest(s)|, j - |here|);
    }
  }

  /** In a tidy file every loop header starts its command. */
  lemma {:induction false} HeadersFirst(file: string, at: int, j: nat)
    requires 0 <= at && Tidy(file, at) && j < |FileSpots(file, at)| && Header(FileSpots(file, at)[j].words)
    ensures FileSpots(file, at)[j].first
    decreases |file| - at
  {
    hide Line, LineSpots, FileSpots, Tidy, Matched;
    FileUnfold(file, at);
    TidyUnfold(file, at);
    var line := Line(file, at);
    var here := LineSpots(line, at);
    if j < |here| {
      LineFirst(line, at, j);
    } else {
      HeadersFirst(file, at + |line|, j - |here|);
    }
  }
}
