/** nsh_argexpand: variables and backquoted commands in one word, with
    CONFIG_NSH_ARGCAT and CONFIG_NSH_CMDPARMS. */
module NshExpand {
  import opened CStrings

  /** What the expansion asks of the world: the value of a variable, and the
      output and the result of a backquoted command, given the backquoted
      commands run before. */
  datatype Shell = Shell(
    getenv: (seq<string>, string) -> Option<string>,
    output: (seq<string>, string) -> string,
    fails: (seq<string>, string) -> bool)

  /** `fail` is np_fail, and `ran` the backquoted commands run so far. */
  datatype World = World(fail: bool, ran: seq<string>)

  /** nsh_envexpand */
  function EnvExpand(sh: Shell, w: World, name: string): string {
    if name == "?" then (if w.fail then "1" else "0")
    else
      match sh.getenv(w.ran, name)
      case Some(value) => value
      case None => ""
  }

  /** nsh_cmdparm */
  function CmdParm(sh: Shell, w: World, cmd: string): (string, World) {
    (sh.output(w.ran, cmd), World(sh.fails(w.ran, cmd), w.ran + [cmd]))
  }

  // ----- The specification: first read the word, then put in the values -----

  datatype Part = Text(text: string) | Variable(name: string, braces: bool) | Command(cmd: string)

  /** The parts of a word, up to a delimiter without a partner if there is one. */
  datatype Reading = Reading(parts: seq<Part>, matched: bool)

  predicate Special(c: char) {
    c == '`' || c == '$'
  }

  function FindSpecial(s: string): (n: nat)
    ensures n <= |s| && (n < |s| ==> Special(s[n]))
    ensures forall i :: 0 <= i < n ==> !Special(s[i])
  {
    if s == "" || Special(s[0]) then 0 else 1 + FindSpecial(s[1..])
  }

  /** The first special part of a word, between the text before it and what is
      left to read. */
  datatype First = NoPart | Open(text: string) | Found(text: string, part: Part, more: string)

  function FirstPart(s: string): (f: First)
    ensures f.Found? ==> |f.more| < |s|
  {
    var n := FindSpecial(s);
    if n == |s| then NoPart else SpecialPart(s[..n], s[n], s[n + 1..])
  }

  /** The part that starts with the special character `c` before `rest`. */
  function SpecialPart(text: string, c: char, rest: string): (f: First)
    ensures f.Found? ==> |f.more| <= |rest|
  {
    if c == '`' then
      var q := Find(rest, '`');
      if q == |rest| then Open(text) else Found(text, Command(rest[..q]), rest[q + 1..])
    else if rest != "" && rest[0] == '{' then
      var q := Find(rest[1..], '}');
      if q == |rest| - 1 then Open(text) else Found(text, Variable(rest[1..q + 1], true), rest[q + 2..])
    else
      Found(text, Variable(rest, false), "")
  }

  function Read(s: string): Reading
    decreases |s|
  {
    match FirstPart(s)
    case NoPart => Reading([Text(s)], true)
    case Open(text) => Reading([Text(text)], false)
    case Found(text, part, more) => Before([Text(text), part], Read(more))
  }

  function Before(parts: seq<Part>, r: Reading): Reading {
    Reading(parts + r.parts, r.matched)
  }

  /** The values of the parts, from left to right.  A value is never read again. */
  function Fill(sh: Shell, w: World, parts: seq<Part>): (string, World)
    decreases |parts|
  {
    if parts == [] then ("", w)
    else
      var (v, w1) := FillPart(sh, w, parts[0]);
      var (t, w2) := Fill(sh, w1, parts[1..]);
      (v + t, w2)
  }

  function FillPart(sh: Shell, w: World, part: Part): (string, World) {
    match part
    case Text(text) => (text, w)
    case Variable(name, _) => (EnvExpand(sh, w, name), w)
    case Command(cmd) => CmdParm(sh, w, cmd)
  }

  /** The expansion of a word; empty if a delimiter has no partner. */
  function Expand(sh: Shell, w: World, s: string): (string, World) {
    var r := Read(s);
    var (t, w') := Fill(sh, w, r.parts);
    (if r.matched then t else "", w')
  }

  lemma {:induction false} FillAdd(sh: Shell, w: World, a: seq<Part>, b: seq<Part>)
    ensures var (t1, w1) := Fill(sh, w, a);
      var (t2, w2) := Fill(sh, w1, b);
      Fill(sh, w, a + b) == (t1 + t2, w2)
    decreases |a|
  {
    if a == [] {
      assert a + b == b;
      var (t2, w2) := Fill(sh, w, b);
      assert "" + t2 == t2;
    } else {
      var (v, w1) := FillPart(sh, w, a[0]);
      assert (a + b)[1..] == a[1..] + b;
      FillAdd(sh, w1, a[1..], b);
      var (t1, w2) := Fill(sh, w1, a[1..]);
      var (t2, w3) := Fill(sh, w2, b);
      assert v + (t1 + t2) == (v + t1) + t2;
    }
  }

  // ----- Printing parts and reading them back -----

  function Spell(part: Part): string {
    match part
    case Text(text) => text
    case Variable(name, braces) => if braces then "${" + name + "}" else "$" + name
    case Command(cmd) => "`" + cmd + "`"
  }

  function Write(parts: seq<Part>): string {
    if parts == [] then "" else Spell(parts[0]) + Write(parts[1..])
  }

  lemma FirstSpells(s: string)
    requires FirstPart(s).Found?
    ensures var f := FirstPart(s); s == f.text + (Spell(f.part) + f.more)
  {
    var n := FindSpecial(s);
    var rest := s[n + 1..];
    if s[n] == '`' {
      SpellsCommand(s, n, Find(rest, '`'));
    } else if rest != "" && rest[0] == '{' {
      SpellsBraces(s, n, Find(rest[1..], '}'));
    } else {
      assert s == s[..n] + ("$" + rest + "");
    }
    hide FindSpecial, Find;
  }

  lemma SpellsCommand(s: string, n: nat, q: nat)
    requires n + q + 1 < |s| && s[n] == '`' && s[n + 1 + q] == '`'
    ensures var rest := s[n + 1..]; s == s[..n] + (Spell(Command(rest[..q])) + rest[q + 1..])
  {
    var rest := s[n + 1..];
    assert rest[..q] == s[n + 1..n + 1 + q] && rest[q + 1..] == s[n + q + 2..];
    Assemble(s, n, "`", q, "`");
  }

  lemma SpellsBraces(s: string, n: nat, q: nat)
    requires n + q + 2 < |s| && s[n] == '$' && s[n + 1] == '{' && s[n + 2 + q] == '}'
    ensures var rest := s[n + 1..]; s == s[..n] + (Spell(Variable(rest[1..q + 1], true)) + rest[q + 2..])
  {
    var rest := s[n + 1..];
    assert rest[1..q + 1] == s[n + 2..n + 2 + q] && rest[q + 2..] == s[n + q + 3..];
    Assemble(s, n, "${", q, "}");
  }

  /** A string around a part of length `q` between two delimiters. */
  lemma Assemble(s: string, n: nat, open: string, q: nat, close: string)
    requires n + |open| + q + |close| <= |s|
    requires s[n..n + |open|] == open && s[n + |open| + q..n + |open| + q + |close|] == close
    ensures s == s[..n] + (open + s[n + |open|..n + |open| + q] + close + s[n + |open| + q + |close|..])
  {
    var i, j, k := n + |open|, n + |open| + q, n + |open| + q + |close|;
    assert s[j..] == close + s[k..];
    assert s[i..] == s[i..j] + s[j..];
    assert s[n..] == open + s[i..];
    assert open + (s[i..j] + (close + s[k..])) == open + s[i..j] + close + s[k..];
  }

  /** What the parts of a word put back together spell is the word. */
  lemma {:induction false} ReadWrite(s: string)
    requires Read(s).matched
    ensures Write(Read(s).parts) == s
    decreases |s|
  {
    hide FirstPart, Spell;
    match FirstPart(s)
    case NoPart =>
      assert Write([Text(s)]) == Spell(Text(s)) + "" == s by { SpellText(s); }
    case Found(text, part, more) =>
      FirstSpells(s);
      ReadWrite(more);
      SpellText(text);
      var parts := Read(more).parts;
      assert ([Text(text), part] + parts)[1..] == [part] + parts;
      assert ([part] + parts)[1..] == parts;
  }

  lemma SpellText(text: string)
    ensures Spell(Text(text)) == text
  {
  }

  /** Parts that are read back as they are: text with nothing special in it
      before each variable or command, and at the end. */
  predicate Spellable(parts: seq<Part>)
    decreases |parts|
  {
    && parts != [] && parts[0].Text? && FindSpecial(parts[0].text) == |parts[0].text|
    && (|parts| > 1 ==> Delimited(parts[1], parts[2..]) && Spellable(parts[2..]))
  }

  /** A variable or command that does not contain its own end; a variable
      without braces is the last thing in the word. */
  predicate Delimited(part: Part, rest: seq<Part>) {
    match part
    case Text(_) => false
    case Command(cmd) => Find(cmd, '`') == |cmd|
    case Variable(name, true) => Find(name, '}') == |name|
    case Variable(name, false) => rest == [Text("")] && (name == "" || name[0] != '{')
  }

  lemma {:induction false} FindAfter(a: string, c: char, b: string)
    requires Find(a, c) == |a| && b != "" && b[0] == c
    ensures Find(a + b, c) == |a|
  {
    if a == "" { assert a + b == b; } else { assert (a + b)[1..] == a[1..] + b; FindAfter(a[1..], c, b); }
  }

  lemma {:induction false} FindSpecialAfter(a: string, b: string)
    requires FindSpecial(a) == |a| && (b != "" ==> Special(b[0]))
    ensures FindSpecial(a + b) == |a|
  {
    if a == "" { assert a + b == b; } else { assert (a + b)[1..] == a[1..] + b; FindSpecialAfter(a[1..], b); }
  }

  lemma FirstOf(text: string, c: char, rest: string)
    requires FindSpecial(text) == |text| && Special(c)
    ensures FirstPart(text + ([c] + rest)) == SpecialPart(text, c, rest)
  {
    var s := text + ([c] + rest);
    FindSpecialAfter(text, [c] + rest);
    hide FindSpecial, SpecialPart;
    assert s[..|text|] == text && s[|text|] == c && s[|text| + 1..] == rest;
  }

  lemma FirstBack(text: string, part: Part, more: string, rest: seq<Part>)
    requires FindSpecial(text) == |text| && Delimited(part, rest) && (rest == [Text("")] ==> more == "")
    ensures FirstPart(text + (Spell(part) + more)) == Found(text, part, more)
  {
    hide FirstPart, SpecialPart, FindSpecial, Find;
    match part
    case Command(cmd) =>
      FirstOf(text, '`', cmd + ("`" + more));
      BackCommand(text, cmd, more);
      CommandTail(cmd, more);
    case Variable(name, true) =>
      FirstOf(text, '$', "{" + (name + ("}" + more)));
      BackBraces(text, name, more);
      BracesTail(name, more);
    case Variable(name, false) =>
      FirstOf(text, '$', name);
      BackRest(text, name);
      RestTail(name);
  }

  lemma CommandTail(cmd: string, more: string)
    ensures Spell(Command(cmd)) + more == ['`'] + (cmd + ("`" + more))
  {
  }

  lemma RestTail(name: string)
    ensures Spell(Variable(name, false)) + "" == ['$'] + name
  {
  }

  lemma BracesTail(name: string, more: string)
    ensures "${" + name + "}" + more == ['$'] + ("{" + (name + ("}" + more)))
  {
  }

  lemma BackRest(text: string, name: string)
    requires name == "" || name[0] != '{'
    ensures SpecialPart(text, '$', name) == Found(text, Variable(name, false), "")
  {
  }

  lemma BackCommand(text: string, cmd: string, more: string)
    requires Find(cmd, '`') == |cmd|
    ensures SpecialPart(text, '`', cmd + ("`" + more)) == Found(text, Command(cmd), more)
  {
    FindAfter(cmd, '`', "`" + more);
    hide Find;
    Parts(cmd, "`", more);
  }

  lemma BackBraces(text: string, name: string, more: string)
    requires Find(name, '}') == |name|
    ensures SpecialPart(text, '$', "{" + (name + ("}" + more))) == Found(text, Variable(name, true), more)
  {
    FindAfter(name, '}', "}" + more);
    hide Find;
    var inner := name + ("}" + more);
    Parts(name, "}", more);
    Behind("{", inner, |name|);
    assert |inner| > |name|;
  }

  lemma Behind(c: string, s: string, n: nat)
    requires |c| == 1 && n < |s|
    ensures var t := c + s; t[0] == c[0] && t[1..] == s && t[1..n + 1] == s[..n] && t[n + 2..] == s[n + 1..]
  {
  }

  lemma Parts(a: string, c: string, b: string)
    requires |c| == 1
    ensures var s := a + (c + b); s[..|a|] == a && s[|a| + 1..] == b
  {
  }

  lemma {:induction false} WriteRead(parts: seq<Part>)
    requires Spellable(parts)
    ensures Read(Write(parts)) == Reading(parts, true)
    decreases |parts|
  {
    hide Spell, FirstPart, Delimited;
    var text := parts[0].text;
    SpellText(text);
    if |parts| == 1 {
      assert Write(parts[1..]) == "" && text + "" == text;
      NoneFirst(text);
    } else {
      var rest := parts[2..];
      assert parts[1..][1..] == rest;
      if rest == [Text("")] { SpellText(""); assert Write(rest[1..]) == "" && Write(rest) == "" + ""; }
      FirstBack(text, parts[1], Write(rest), rest);
      WriteRead(rest);
      assert parts == [Text(text), parts[1]] + rest;
    }
  }

  lemma NoneFirst(text: string)
    requires FindSpecial(text) == |text|
    ensures FirstPart(text) == NoPart
  {
  }

  // ----- The code -----

  /** strcspn(working, g_arg_separator) */
  method FindSpecialAt(buf: array<char>, p: nat, ghost s: string) returns (ptr: nat)
    requires IsStr(buf[..], p, s)
    ensures ptr == p + FindSpecial(s)
  {
    ptr := p;
    ghost var n := 0;
    assert s[0..] == s;
    while buf[ptr] != NUL && !Special(buf[ptr])
      invariant 0 <= n <= |s| && ptr == p + n && FindSpecial(s) == n + FindSpecial(s[n..])
      decreases |s| - n
    {
      assert s[n..][1..] == s[n + 1..];
      n, ptr := n + 1, ptr + 1;
    }
  }

  /** What is left to do: `acc` has been put together, `t` is still to be read. */
  ghost function Rest(sh: Shell, acc: string, w: World, t: string): (string, World) {
    var r := Read(t);
    var (x, w') := Fill(sh, w, r.parts);
    (if r.matched then acc + x else "", w')
  }

  lemma RestStart(sh: Shell, w: World, s: string)
    ensures Rest(sh, "", w, s) == Expand(sh, w, s)
  {
    var r := Read(s);
    var (x, _) := Fill(sh, w, r.parts);
    assert "" + x == x;
  }

  lemma FillTwo(sh: Shell, w: World, text: string, part: Part, parts: seq<Part>)
    ensures var (v, w1) := FillPart(sh, w, part);
      var (t, w2) := Fill(sh, w1, parts);
      Fill(sh, w, [Text(text), part] + parts) == (text + (v + t), w2)
  {
    hide FillPart;
    var all := [Text(text), part] + parts;
    assert all[1..] == [part] + parts && all[1..][1..] == parts;
    FillText(sh, w, text);
  }

  lemma FillText(sh: Shell, w: World, text: string)
    ensures FillPart(sh, w, Text(text)) == (text, w)
  {
  }

  lemma RestStep(sh: Shell, acc: string, w: World, t: string)
    ensures match FirstPart(t)
      case NoPart => Rest(sh, acc, w, t) == (acc + t, w)
      case Open(_) => Rest(sh, acc, w, t) == ("", w)
      case Found(text, part, more) =>
        var (v, w1) := FillPart(sh, w, part);
        Rest(sh, acc, w, t) == Rest(sh, acc + text + v, w1, more)
  {
    hide FirstPart, FillPart;
    match FirstPart(t)
    case NoPart => FillOne(sh, w, t);
    case Open(text) => FillOne(sh, w, text);
    case Found(text, part, more) =>
      FillTwo(sh, w, text, part, Read(more).parts);
      var (v, w1) := FillPart(sh, w, part);
      var (x, _) := Fill(sh, w1, Read(more).parts);
      assert acc + (text + (v + x)) == acc + text + v + x;
  }

  lemma FillOne(sh: Shell, w: World, text: string)
    ensures Fill(sh, w, [Text(text)]) == (text, w)
  {
    assert Fill(sh, w, [Text(text)][1..]) == ("", w);
    assert text + "" == text;
  }

  /** The delimiter of a part is overwritten, so that the text before it and the
      part itself become strings of their own. */
  method ArgExpand(sh: Shell, w: World, buf: array<char>, cmdline: nat, ghost s: string)
    returns (argument: string, w': World)
    requires IsStr(buf[..], cmdline, s)
    modifies buf
    ensures (argument, w') == Expand(sh, w, s)
    ensures forall i :: 0 <= i < buf.Length && !(cmdline <= i < cmdline + |s|) ==> buf[i] == old(buf[i])
  {
    hide Expand, Rest, FirstPart, FillPart;
    var working := cmdline;
    ghost var t := s;
    argument, w' := "", w;
    RestStart(sh, w, s);
    while true
      invariant IsStr(buf[..], working, t) && cmdline <= working && working + |t| == cmdline + |s|
      invariant Expand(sh, w, s) == Rest(sh, argument, w', t)
      invariant forall i :: 0 <= i < buf.Length && !(cmdline <= i < cmdline + |s|) ==> buf[i] == old(buf[i])
      decreases |t|
    {
      RestStep(sh, argument, w', t);
      var cut := CutPart(buf, working, t);
      match cut
      case Whole(text) =>
        argument := argument + text;
        return;
      case Lost =>
        argument := "";
        return;
      case Piece(text, part, next) =>
        argument := argument + text;
        var value;
        value, w' := FillOut(sh, w', part);
        argument := argument + value;
        working, t := next, FirstPart(t).more;
    }
  }

  /** What is at the front of the rest of a word, as the code takes it out of
      the buffer: a text, or a text with a part and the position after it. */
  datatype Cut = Whole(text: string) | Lost | Piece(text: string, part: Part, next: nat)

  method FillOut(sh: Shell, w: World, part: Part) returns (value: string, w': World)
    ensures (value, w') == FillPart(sh, w, part)
  {
    match part
    case Command(cmd) =>
      var r := CmdParm(sh, w, cmd);
      value, w' := r.0, r.1;
    case Variable(name, _) => value, w' := EnvExpand(sh, w, name), w;
    case Text(text) => value, w' := text, w;
  }

  method CutPart(buf: array<char>, working: nat, ghost t: string) returns (cut: Cut)
    requires IsStr(buf[..], working, t)
    modifies buf
    ensures match FirstPart(t)
      case NoPart => cut == Whole(t)
      case Open(_) => cut == Lost
      case Found(text, part, more) =>
        && cut.Piece? && cut.text == text && cut.part == part
        && IsStr(buf[..], cut.next, more) && working <= cut.next && cut.next + |more| == working + |t|
    ensures forall i :: 0 <= i < buf.Length && !(working <= i < working + |t|) ==> buf[i] == old(buf[i])
  {
    hide FindSpecial, SpecialPart;
    var ptr := FindSpecialAt(buf, working, t);
    ghost var n := ptr - working;
    var text := buf[working..ptr];
    assert text == t[..n];
    if buf[ptr] == NUL {
      assert n == |t| && t[..n] == t;
      return Whole(text);
    }
    var c := buf[ptr];
    StrCut(buf[..], working, t, n);
    buf[ptr] := NUL;
    cut := CutSpecial(buf, text, c, ptr + 1, t[n + 1..]);
  }

  method CutSpecial(buf: array<char>, text: string, c: char, ptr: nat, ghost rest: string) returns (cut: Cut)
    requires IsStr(buf[..], ptr, rest) && Special(c)
    modifies buf
    ensures match SpecialPart(text, c, rest)
      case Open(_) => cut == Lost
      case Found(text', part, more) =>
        && cut.Piece? && cut.text == text' && cut.part == part
        && IsStr(buf[..], cut.next, more) && ptr <= cut.next && cut.next + |more| == ptr + |rest|
      case NoPart => false
    ensures forall i :: 0 <= i < buf.Length && !(ptr <= i < ptr + |rest|) ==> buf[i] == old(buf[i])
  {
    hide Find;
    if c == '`' {
      var rptr := FindAt(buf, ptr, '`', rest);
      if buf[rptr] == NUL {
        return Lost;
      }
      assert buf[ptr..rptr] == rest[..rptr - ptr];
      cut := Piece(text, Command(buf[ptr..rptr]), rptr + 1);
      StrCut(buf[..], ptr, rest, rptr - ptr);
      buf[rptr] := NUL;
    } else if buf[ptr] == '{' {
      ghost var inner := rest[1..];
      StrTail(buf[..], ptr, rest, 1);
      var rptr := FindAt(buf, ptr + 1, '}', inner);
      ghost var q := rptr - ptr - 1;
      if buf[rptr] == NUL {
        return Lost;
      }
      assert buf[ptr + 1..rptr] == inner[..q] == rest[1..q + 1];
      assert inner[q + 1..] == rest[q + 2..];
      cut := Piece(text, Variable(buf[ptr + 1..rptr], true), rptr + 1);
      StrCut(buf[..], ptr + 1, inner, q);
      buf[rptr] := NUL;
    } else {
      var end := StrEnd(buf, ptr, rest);
      assert buf[ptr..end] == rest;
      cut := Piece(text, Variable(buf[ptr..end], false), end);
      StrTail(buf[..], ptr, rest, |rest|);
      assert rest[|rest|..] == "";
    }
  }
}
