/** What a word stands for: the values that variables and backquoted commands get,
    in the middle of any text. */
module NshValues {
  import opened CStrings
  import opened NshExpand

  predicate Plain(s: string) {
    '`' !in s && '$' !in s
  }

  /** The value of a variable: `?` is the result of the last command, and a variable
      that is not set is empty. */
  predicate Means(sh: Shell, w: World, name: string, value: string) {
    if name == "?" then value == (if w.fail then "1" else "0")
    else if sh.getenv(w.ran, name).Some? then sh.getenv(w.ran, name) == Some(value)
    else value == ""
  }

  lemma {:induction false} PlainFind(s: string)
    requires Plain(s)
    ensures FindSpecial(s) == |s|
  {
    if s != "" { assert s[0] in s; PlainFind(s[1..]); }
  }

  lemma {:induction false} NoneFind(s: string, c: char)
    requires c !in s
    ensures Find(s, c) == |s|
  {
    if s != "" { assert s[0] in s; NoneFind(s[1..], c); }
  }

  /** What the first part of a word adds to the value of the rest. */
  lemma FirstFills(sh: Shell, w: World, s: string, text: string, part: Part, more: string)
    requires FirstPart(s) == Found(text, part, more) && Read(more).matched
    ensures var (v, w1) := FillPart(sh, w, part);
      var (x, w2) := Expand(sh, w1, more);
      Expand(sh, w, s) == (text + v + x, w2)
  {
    hide FirstPart, FillPart;
    FillTwo(sh, w, text, part, Read(more).parts);
    var (v, w1) := FillPart(sh, w, part);
    var (x, w2) := Fill(sh, w1, Read(more).parts);
    assert text + (v + x) == text + v + x;
  }

  lemma VariableMeans(sh: Shell, w: World, name: string, braces: bool)
    ensures var (v, w1) := FillPart(sh, w, Variable(name, braces)); w1 == w && Means(sh, w, name, v)
  {
  }

  /** A variable in braces, between a text and the rest of a word. */
  lemma BracesExpand(sh: Shell, w: World, text: string, name: string, more: string) returns (value: string)
    requires Plain(text) && '}' !in name && Read(more).matched
    ensures Means(sh, w, name, value)
    ensures var (x, w') := Expand(sh, w, more);
      Expand(sh, w, text + ("${" + name + "}" + more)) == (text + value + x, w')
  {
    hide FirstPart, Expand, Means, FindSpecial, Find;
    PlainFind(text);
    NoneFind(name, '}');
    var s := text + ("${" + name + "}" + more);
    FirstOf(text, '$', "{" + (name + ("}" + more)));
    BackBraces(text, name, more);
    BracesTail(name, more);
    FirstFills(sh, w, s, text, Variable(name, true), more);
    VariableMeans(sh, w, name, true);
    value := FillPart(sh, w, Variable(name, true)).0;
  }

  /** A variable without braces, which takes the rest of the word for its name. */
  lemma LastExpand(sh: Shell, w: World, text: string, name: string) returns (value: string)
    requires Plain(text) && (name == "" || name[0] != '{')
    ensures Means(sh, w, name, value)
    ensures Expand(sh, w, text + ("$" + name)) == (text + value, w)
  {
    hide FirstPart, Means, FindSpecial;
    PlainFind(text);
    var s := text + ("$" + name);
    FirstOf(text, '$', name);
    BackRest(text, name);
    PlainExpand(sh, w, "");
    hide Expand, Read;
    NothingMatched();
    FirstFills(sh, w, s, text, Variable(name, false), "");
    VariableMeans(sh, w, name, false);
    value := FillPart(sh, w, Variable(name, false)).0;
    assert text + value + "" == text + value;
  }

  lemma NothingMatched()
    ensures Read("").matched
  {
  }

  lemma PlainExpand(sh: Shell, w: World, s: string)
    requires Plain(s)
    ensures Expand(sh, w, s) == (s, w) && Read(s).matched
  {
    PlainFind(s);
    NoneFirst(s);
    hide FirstPart, FindSpecial;
    FillOne(sh, w, s);
  }

  /** A command between backquotes stands for its output; it has run, and its result
      is the next `$?`. */
  lemma CommandExpand(sh: Shell, w: World, text: string, cmd: string, more: string)
    requires Plain(text) && '`' !in cmd && Read(more).matched
    ensures var (x, w') := Expand(sh, World(sh.fails(w.ran, cmd), w.ran + [cmd]), more);
      Expand(sh, w, text + ("`" + cmd + "`" + more)) == (text + sh.output(w.ran, cmd) + x, w')
  {
    hide FirstPart, Expand, FindSpecial, Find;
    PlainFind(text);
    NoneFind(cmd, '`');
    var s := text + ("`" + cmd + "`" + more);
    FirstOf(text, '`', cmd + ("`" + more));
    BackCommand(text, cmd, more);
    CommandTail(cmd, more);
    FirstFills(sh, w, s, text, Command(cmd), more);
  }

  /** A delimiter without a partner makes the word empty, and runs nothing itself. */
  lemma UnmatchedExpand(sh: Shell, w: World, text: string, rest: string)
    requires Plain(text)
    ensures '`' !in rest ==> Expand(sh, w, text + ("`" + rest)) == ("", w)
    ensures '}' !in rest ==> Expand(sh, w, text + ("$" + ("{" + rest))) == ("", w)
  {
    hide FirstPart, FindSpecial, Find;
    PlainFind(text);
    if '`' !in rest {
      FirstOf(text, '`', rest);
      NoneFind(rest, '`');
      FillOne(sh, w, text);
    }
    if '}' !in rest {
      FirstOf(text, '$', "{" + rest);
      NoneFind(rest, '}');
      assert ("{" + rest)[1..] == rest;
      FillOne(sh, w, text);
    }
  }

  /** `$?` is "1" after a failure and "0" otherwise. */
  lemma StatusExpand(sh: Shell, w: World, text: string)
    requires Plain(text)
    ensures Expand(sh, w, text + "$?") == (text + if w.fail then "1" else "0", w)
    ensures Expand(sh, w, text + "${?}") == (text + if w.fail then "1" else "0", w)
  {
    hide Expand, Read;
    var v := LastExpand(sh, w, text, "?");
    PlainExpand(sh, w, "");
    var u := BracesExpand(sh, w, text, "?", "");
    assert "$" + "?" == "$?" && "${" + "?" + "}" + "" == "${?}" && text + u + "" == text + u;
  }
}
