/** The text machine refines the jump machine: the layout of a script does not
    matter.

    A loop is remembered as a byte offset, np_foffs + np_loffs, and jumped to by
    seeking in the file.  Whatever way the commands are spread over lines, with
    `;`, blank lines, comments, indentation, or a command on the line of its
    "do", "then" or "else", the offset leads back to the command after which the
    jump machine for the plain list of commands would go on.
 */
module NshLayout {
  import opened NshState
  import opened NshText

  // ----- The commands of a text -----

  /** "do", "then" and "else" may share a command with what follows them. */
  function Unglue(words: Words): seq<Words> {
    if words == [] then []
    else if KindOf(words[0]) in {Do, Then, Else} && |words| > 1 then [[words[0]], words[1..]]
    else [words]
  }

  /** A command, the offset of the text it starts, the offset that the parser
      records for it, and whether it is the first of its piece of text. */
  datatype Spot = Spot(words: Words, at: int, offs: int, first: bool)

  function CommandSpots(words: Words, at: int, offs: int): (r: seq<Spot>)
    ensures |r| == |Unglue(words)|
  {
    var u := Unglue(words);
    seq(|u|, i requires 0 <= i < |u| => Spot(u[i], at, offs, i == 0))
  }

  /** The commands on the rest `s` of a line that starts at offset `at`. */
  function LineSpots(s: string, at: int): seq<Spot>
    decreases |s|
  {
    var piece := NextPiece(s, 0);
    var offs := at + piece.working;
    match piece
    case Unmatched(_) => []
    case Last(_) => CommandSpots(Tokens(s), at, offs)
    case Semi(e, _) => CommandSpots(Tokens(s[..e]), at, offs) + LineSpots(s[e + 1..], at + e + 1)
  }

  /** The commands of the file from offset `at` on. */
  function FileSpots(file: string, at: int): seq<Spot>
    decreases |file| - at
  {
    var line := Line(file, at);
    if line == "" then [] else LineSpots(line, at) + FileSpots(file, at + |line|)
  }

  predicate Header(words: Words) {
    words != [] && KindOf(words[0]) in {While, Until}
  }

  /** After "do" no loop keyword is recognised, and after "then" and "else" no
      keyword at all. */
  predicate Glueable(words: Words) {
    |words| > 1 ==>
      match KindOf(words[0])
      case Do => KindOf(words[1]) !in LOOP_KEYWORDS
      case Then => KindOf(words[1]) in {Plain, Break}
      case Else => KindOf(words[1]) in {Plain, Break}
      case _ => true
  }

  /** Nothing to expand where a keyword may stand, and no keyword hidden behind
      another. */
  predicate Regular(words: Words) {
    Fixed(words) && Glueable(words)
  }

  /** Every quotation mark on the rest of a line is matched, and its commands are
      regular. */
  predicate Matched(s: string)
    decreases |s|
  {
    match NextPiece(s, 0)
    case Unmatched(_) => false
    case Last(_) => Regular(Tokens(s))
    case Semi(e, _) => Regular(Tokens(s[..e])) && Matched(s[e + 1..])
  }

  /** Every line of the file from offset `at` on is matched and fits the buffer. */
  predicate Tidy(file: string, at: int)
    decreases |file| - at
  {
    var line := Line(file, at);
    line != "" ==> |line| < LINELEN && Matched(line) && Tidy(file, at + |line|)
  }

  /** The texts in scope: quotation marks match, lines fit the buffer, nothing is
      expanded where a keyword may stand, and the recorded start of a loop header
      is its true start. */
  predicate Clean(file: string) {
    && Tidy(file, 0)
    && (forall i :: 0 <= i < |FileSpots(file, 0)| ==>
          var spot := FileSpots(file, 0)[i]; Header(spot.words) ==> spot.first && spot.offs == spot.at)
  }

  // ----- Offsets lead back -----

  lemma {:induction false} LineTail(file: string, at: int, d: nat)
    requires 0 <= at && d < |Line(file, at)|
    ensures Line(file, at + d) == Line(file, at)[d..]
    decreases d
  {
    if d > 0 { LineTail(file, at + 1, d - 1); }
  }

  /** The line of a file that starts with a piece of text and a newline. */
  lemma {:induction false} LineIs(file: string, at: nat, s: string, rest: string)
    requires at <= |file| && file[at..] == s + "\n" + rest && '\n' !in s
    ensures Line(file, at) == s + "\n"
    decreases |s|
  {
    assert file[at] == file[at..][0];
    if s != "" {
      assert file[at + 1..] == file[at..][1..];
      assert file[at + 1..] == s[1..] + "\n" + rest;
      LineIs(file, at + 1, s[1..], rest);
      assert s + "\n" == [s[0]] + (s[1..] + "\n");
    }
  }

  lemma NoSpots(at: int)
    ensures LineSpots("", at) == []
  {
    assert NextPiece("", 0) == Last(0) && Tokens("") == [];
  }

  function Rest(s: string): (r: string)
    ensures |r| <= |s| && r == s[|s| - |r|..]
    ensures s != "" ==> |r| < |s|
  {
    var piece := NextPiece(s, 0);
    if piece.Semi? then s[piece.end + 1..] else ""
  }

  /** The command at the start of `s`. */
  function Here(s: string): string {
    var piece := NextPiece(s, 0);
    if piece.Semi? then s[..piece.end] else s
  }

  lemma SpotsUnfold(s: string, at: int)
    ensures var piece := NextPiece(s, 0);
      LineSpots(s, at) ==
        if piece.Unmatched? then []
        else if piece.Last? then CommandSpots(Tokens(s), at, at + piece.working)
        else
          CommandSpots(Tokens(s[..piece.end]), at, at + piece.working) + LineSpots(s[piece.end + 1..], at + piece.end + 1)
  {
    hide NextPiece, Tokens, CommandSpots;
  }

  lemma HereRest(s: string)
    ensures var piece := NextPiece(s, 0);
      if piece.Semi? then Here(s) == s[..piece.end] && Rest(s) == s[piece.end + 1..] && |s| - |Rest(s)| == piece.end + 1
      else Here(s) == s && Rest(s) == "" && |s| - |Rest(s)| == |s|
  {
    hide NextPiece;
  }

  lemma LineUnfold(s: string, at: int)
    ensures var piece := NextPiece(s, 0);
      LineSpots(s, at) ==
        if piece.Unmatched? then []
        else CommandSpots(Tokens(Here(s)), at, at + piece.working) + LineSpots(Rest(s), at + |s| - |Rest(s)|)
  {
    hide NextPiece, Tokens, CommandSpots, LineSpots, Here, Rest;
    SpotsUnfold(s, at);
    HereRest(s);
    NoSpots(at + |s|);
    var here := CommandSpots(Tokens(s), at, at + NextPiece(s, 0).working);
    assert here + [] == here;
  }

  lemma FileUnfold(file: string, at: int)
    requires 0 <= at
    ensures var line := Line(file, at);
      line != "" ==> FileSpots(file, at) == LineSpots(line, at) + FileSpots(file, at + |line|)
    ensures Line(file, at) == "" ==> FileSpots(file, at) == []
  {
    hide Line, LineSpots;
  }

  /** Reading on from the start of a command finds that command and the rest of
      the file. */
  lemma {:induction false} LineLeadsBack(file: string, at: int, s: string, j: nat)
    requires 0 <= at && s != "" && Line(file, at) == s
    requires j < |LineSpots(s, at)| && LineSpots(s, at)[j].first
    ensures at <= LineSpots(s, at)[j].at
    ensures FileSpots(file, LineSpots(s, at)[j].at) == LineSpots(s, at)[j..] + FileSpots(file, at + |s|)
    decreases |s|
  {
    hide NextPiece, Tokens, Line, LineSpots, FileSpots, Unglue, Here, Rest;
    LineUnfold(s, at);
    FileUnfold(file, at);
    var spots := LineSpots(s, at);
    var here := CommandSpots(Tokens(Here(s)), at, at + NextPiece(s, 0).working);
    if j < |here| {
      assert here[j].first ==> j == 0;
      assert spots[0..] == spots;
    } else {
      var d := |s| - |Rest(s)|;
      if Rest(s) == "" { NoSpots(at + d); }
      LineTail(file, at, d);
      LineLeadsBack(file, at + d, Rest(s), j - |here|);
      assert spots[j..] == LineSpots(Rest(s), at + d)[j - |here|..];
    }
  }

  /** The recorded offset of a loop header leads back to the header. */
  lemma {:induction false} LeadsBack(file: string, at: int, j: nat)
    requires 0 <= at && j < |FileSpots(file, at)| && FileSpots(file, at)[j].first
    ensures at <= FileSpots(file, at)[j].at
    ensures FileSpots(file, FileSpots(file, at)[j].at) == FileSpots(file, at)[j..]
    decreases |file| - at
  {
    hide Line, LineSpots, FileSpots;
    FileUnfold(file, at);
    var line := Line(file, at);
    var here, rest := LineSpots(line, at), FileSpots(file, at + |line|);
    if j < |here| {
      LineLeadsBack(file, at, line, j);
      assert (here + rest)[j..] == here[j..] + rest;
    } else {
      LeadsBack(file, at + |line|, j - |here|);
      assert (here + rest)[j..] == rest[j - |here|..];
    }
  }

  lemma MatchedRest(s: string)
    requires Matched(s)
    ensures Rest(s) != "" ==> Matched(Rest(s))
  {
    hide NextPiece, Tokens, Regular;
  }

  /** A command of a tidy line starts a tidy rest of the file. */
  lemma {:induction false} LineTidy(file: string, at: int, s: string, j: nat)
    requires 0 <= at && s != "" && Line(file, at) == s && Tidy(file, at)
    requires j < |LineSpots(s, at)|
    ensures Tidy(file, LineSpots(s, at)[j].at)
    decreases |s|
  {
    hide NextPiece, Tokens, Line, LineSpots, Unglue, Here, Rest, Matched, Tidy;
    TidyUnfold(file, at);
    LineUnfold(s, at);
    var here := CommandSpots(Tokens(Here(s)), at, at + NextPiece(s, 0).working);
    if j >= |here| {
      var d := |s| - |Rest(s)|;
      if Rest(s) == "" { NoSpots(at + d); }
      LineTail(file, at, d);
      MatchedRest(s);
      TidyLine(file, at + d);
      LineTidy(file, at + d, Rest(s), j - |here|);
    }
  }

  lemma TidyUnfold(file: string, at: int)
    requires Tidy(file, at)
    ensures var line := Line(file, at); line != "" ==> |line| < LINELEN && Matched(line) && Tidy(file, at + |line|)
  {
    hide Line, Matched;
  }

  lemma TidyLine(file: string, at: int)
    requires var line := Line(file, at); |line| < LINELEN && Matched(line) && Tidy(file, at + |line|)
    ensures Tidy(file, at)
  {
    hide Line, Matched;
  }

  /** A command of a tidy file starts a tidy rest of the file. */
  lemma {:induction false} FileTidy(file: string, at: int, j: nat)
    requires 0 <= at && Tidy(file, at) && j < |FileSpots(file, at)|
    ensures Tidy(file, FileSpots(file, at)[j].at)
    decreases |file| - at
  {
    hide Line, LineSpots, FileSpots, Tidy, Matched;
    var line := Line(file, at);
    FileUnfold(file, at);
    TidyUnfold(file, at);
    var here := LineSpots(line, at);
    if j < |here| {
      LineTidy(file, at, line, j);
    } else {
      FileTidy(file, at + |line|, j - |here|);
    }
  }
}
