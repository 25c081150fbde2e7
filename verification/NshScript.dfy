/** Scripts as text: the trace and the status of a script depend only on its
    commands, not on how they are laid out. */
module NshScript {
  import opened NshState
  import opened NshProgram
  import opened NshJump
  import opened NshText
  import opened NshLayout
  import opened NshRefine
  import St = NshStale

  // ----- Calm is kept -----

  lemma CalmStep(run: Interpreter, code: seq<Words>, np: Np, trace: Trace)
    requires Sequenced(code) && Calm(code, np) && np.fpos < |code|
    ensures np.fpos >= 0
    ensures var r := Apply(run, np, code[np.fpos], trace);
      r.Ends? ==> Calm(code, r.np) && (r.np.jump || r.np.fpos == np.fpos + 1)
  {
    var w := code[np.fpos];
    assert InOrder(code, np.fpos);
    if !Boundary(np) {
      hide Apply, KindOf;
      ApplyPending(run, np, w[0], trace);
    } else {
      CalmCommand(run, code, np, w, trace);
    }
  }

  lemma CalmCommand(run: Interpreter, code: seq<Words>, np: Np, w: Words, trace: Trace)
    requires Boundary(np) && Settled(np) && np.fpos < |code| && w == code[np.fpos] && InOrder(code, np.fpos)
    ensures var r := Apply(run, np, w, trace);
      r.Ends? ==> Calm(code, r.np) && (r.np.jump || r.np.fpos == np.fpos + 1)
  {
    hide Apply, KindOf;
    Spelling(w[0]);
    match KindOf(w[0])
    case Plain => CalmPlain(run, code, np, w, trace);
    case Break => CalmPlain(run, code, np, w, trace);
    case If => CalmIf(run, code, np, w, trace);
    case While => CalmLoop(run, code, np, false, w, trace);
    case Until => CalmLoop(run, code, np, true, w, trace);
    case Do => assert w == ["do"]; ApplyStray(run, np, "do", trace);
    case Then => assert w == ["then"]; ApplyStray(run, np, "then", trace);
    case Else => assert w == [w[0]]; CalmElse(run, code, np, w[0], trace);
    case Fi => assert w == [w[0]]; CalmElse(run, code, np, w[0], trace);
    case Done => assert w == ["done"]; CalmDone(run, code, np, trace);
  }

  lemma Spelling(w: string)
    ensures match KindOf(w)
      case While => w == "while"
      case Until => w == "until"
      case Do => w == "do"
      case Done => w == "done"
      case If => w == "if"
      case Then => w == "then"
      case Else => w == "else"
      case Fi => w == "fi"
      case Break => w == "break"
      case Plain => true
  {
  }

  lemma CalmPlain(run: Interpreter, code: seq<Words>, np: Np, w: Words, trace: Trace)
    requires Boundary(np) && Settled(np) && (Simple(w) || w == ["break"])
    ensures var r := Apply(run, np, w, trace); r.Ends? ==> Calm(code, r.np) && r.np.fpos == np.fpos + 1
  {
    hide Apply, KindOf;
    if w == ["break"] { ApplyBreak(run, np, trace); } else { ApplyCmd(run, np, w, trace); }
  }

  lemma CalmElse(run: Interpreter, code: seq<Words>, np: Np, w: string, trace: Trace)
    requires Boundary(np) && Settled(np) && (w == "else" || w == "fi")
    ensures var r := Apply(run, np, [w], trace); r.Ends? ==> Calm(code, r.np) && r.np.fpos == np.fpos + 1
  {
    hide Apply;
    ApplyElse(run, np, trace);
    ApplyFi(run, np, trace);
  }

  lemma CalmIf(run: Interpreter, code: seq<Words>, np: Np, w: Words, trace: Trace)
    requires Boundary(np) && Settled(np) && w != [] && w[0] == "if" && Simple(w[1..])
    requires np.fpos + 1 < |code| && code[np.fpos + 1] == ["then"]
    ensures var r := Apply(run, np, w, trace); r.Ends? ==> Calm(code, r.np) && r.np.fpos == np.fpos + 1
  {
    hide Apply, KindOf, AfterIf, Calm, Settled, Boundary;
    assert w == ["if"] + w[1..];
    ApplyIf(run, np, w[1..], trace);
    if np.iendx < |np.ie| - 1 {
      AfterIfCalm(run, code, np, w[1..], trace);
    }
  }

  lemma AfterIfCalm(run: Interpreter, code: seq<Words>, np: Np, c: Words, trace: Trace)
    requires Boundary(np) && Settled(np) && np.iendx < |np.ie| - 1
    requires np.fpos + 1 < |code| && code[np.fpos + 1] == ["then"]
    ensures Calm(code, AfterIf(run, np, c, trace)) && AfterIf(run, np, c, trace).fpos == np.fpos + 1
  {
  }

  lemma CalmLoop(run: Interpreter, code: seq<Words>, np: Np, until: bool, w: Words, trace: Trace)
    requires Boundary(np) && Settled(np) && w != [] && w[0] == LoopWord(until) && Simple(w[1..])
    requires np.fpos + 1 < |code| && code[np.fpos + 1] == ["do"]
    ensures var r := Apply(run, np, w, trace); r.Ends? ==> Calm(code, r.np) && r.np.fpos == np.fpos + 1
  {
    hide Apply, KindOf, AfterLoop, Calm, Settled, Boundary;
    assert w == [LoopWord(until)] + w[1..];
    ApplyLoop(run, np, until, w[1..], trace);
    if np.lpndx < |np.lp| - 1 {
      AfterLoopCalm(run, code, np, until, w[1..], trace);
    }
  }

  lemma AfterLoopCalm(run: Interpreter, code: seq<Words>, np: Np, until: bool, c: Words, trace: Trace)
    requires Boundary(np) && Settled(np) && np.lpndx < |np.lp| - 1
    requires np.fpos + 1 < |code| && code[np.fpos + 1] == ["do"]
    ensures var r := AfterLoop(run, np, until, c, trace); Calm(code, r) && r.fpos == np.fpos + 1
  {
  }

  lemma CalmDone(run: Interpreter, code: seq<Words>, np: Np, trace: Trace)
    requires Boundary(np) && Settled(np)
    ensures var r := Apply(run, np, ["done"], trace);
      r.Ends? ==> Calm(code, r.np) && (r.np.jump || r.np.fpos == np.fpos + 1)
  {
    if np.lpndx >= 1 && np.Loop().state == LoopDo {
      ApplyDone(run, np, trace);
    } else {
      ApplyStrayDone(run, np, trace);
    }
    hide Apply;
  }

  // ----- A keyword and the command on the same line -----

  /** The first half of such a command, then the second. */
  predicate Splits(run: Interpreter, np: Np, words: Words, trace: Trace)
    requires np.Valid() && words != []
  {
    var o1 := ParseCommand(run, np, [words[0]], trace);
    && (o1.ok ==> o1.trace == trace && o1.np.jump == np.jump && o1.np.foffs == np.foffs && o1.np.fpos == np.fpos)
    && ParseCommand(run, np, words, trace)
         == if o1.ok then ParseCommand(run, o1.np, words[1..], trace) else o1
  }

  lemma GlueDo(run: Interpreter, np: Np, words: Words, trace: Trace)
    requires np.Valid() && |words| > 1 && KindOf(words[0]) == Do && Glueable(words) && np.Itef().state != ItefIf
    ensures Splits(run, np, words, trace)
  {
    hide KindOf, Dispatch, ItefNext;
    var rest := words[1..];
    assert rest[0] == words[1] && [words[0]][1..] == [];
    if np.InLoopHeader() {
      var np1 := np.(lp := np.lp[np.lpndx := np.Loop().(state := LoopDo)]);
      assert LoopStep(np, words) == Go(np1, rest) && LoopStep(np, [words[0]]) == Go(np1, []);
      assert LoopStep(np1, rest) == Go(np1, rest);
      hide LoopStep;
      NothingLeft(run, np1, trace);
    }
  }

  lemma NothingLeft(run: Interpreter, np: Np, trace: Trace)
    requires np.Valid()
    ensures ItefStep(np, []) == Go(np, []) && Dispatch(run, np, [], trace) == Outcome(true, np, trace)
  {
  }

  lemma GlueThen(run: Interpreter, np: Np, words: Words, trace: Trace)
    requires np.Valid() && |words| > 1 && KindOf(words[0]) in {Then, Else} && Glueable(words) && !np.InLoopHeader()
    ensures Splits(run, np, words, trace)
  {
    hide KindOf, Dispatch;
    var rest := words[1..];
    assert rest[0] == words[1] && [words[0]][1..] == [];
    assert LoopStep(np, words) == Go(np, words) && LoopStep(np, [words[0]]) == Go(np, [words[0]]);
    var k := ItefStep(np, words);
    if k.Go? {
      assert k.rest == rest && ItefStep(np, [words[0]]) == Go(k.np, []);
      assert LoopStep(k.np, rest) == Go(k.np, rest) && ItefStep(k.np, rest) == Go(k.np, rest);
      hide LoopStep, ItefStep;
      NothingLeft(run, k.np, trace);
    }
  }

  // ----- One piece of text -----

  function Commands(spots: seq<Spot>): (r: seq<Words>)
    ensures |r| == |spots| && forall i :: 0 <= i < |spots| ==> r[i] == spots[i].words
  {
    seq(|spots|, i requires 0 <= i < |spots| => spots[i].words)
  }

  /** `n` steps of the jump machine match the outcome of the text machine, which
      took `step` commands. */
  predicate Matches(run: Interpreter, spots: seq<Spot>, nb: Np, nc: Np, trace: Trace, n: nat, step: nat, oc: Outcome)
    requires nb.Valid()
  {
    var code := Commands(spots);
    var d := Jumps(run, code, Running(nb, trace), n);
    && d.trace == oc.trace && (step > 0 ==> n > 0)
    && if oc.ok then
         && d.Running? && Rel(spots, d.np, oc.np) && Calm(code, d.np) && oc.np.foffs == nc.foffs
         && if oc.np.jump then n > 0 && Target(spots, d.np.fpos, oc.np.fpos)
            else d.np.fpos == nb.fpos + step && oc.np.fpos == nc.fpos
       else
         d.Stopped? && !d.ok
  }

  lemma MatchOne(run: Interpreter, spots: seq<Spot>, nb: Np, nc: Np, words: Words, trace: Trace)
    requires Sequenced(Commands(spots)) && Rel(spots, nb, nc) && Calm(Commands(spots), nb) && !nc.jump && nc.foffs >= 0
    requires 0 <= nb.fpos < |spots| && spots[nb.fpos].words == words
    requires Header(words) ==> spots[nb.fpos].offs == nc.foffs + nc.loffs
    ensures Matches(run, spots, nb, nc, trace, 1, 1, ParseCommand(run, nc, words, trace))
  {
    var code := Commands(spots);
    assert Holds(code, nb.fpos, [words]);
    assert Rel(spots, Fetch(nb), nc) && nb.Valid();
    hide ParseCommand, Rel, Jumps, Calm, Sequenced, KindOf;
    JumpOne(run, code, nb, words, trace);
    CalmStep(run, code, nb, trace);
    RelCommand(run, spots, Fetch(nb), nc, words, trace);
  }

  lemma MatchSeq(run: Interpreter, spots: seq<Spot>, nb: Np, nc: Np, trace: Trace,
                 m: nat, s: nat, o1: Outcome, n: nat, t: nat, o2: Outcome)
    requires nb.Valid() && o1.ok && !o1.np.jump && Matches(run, spots, nb, nc, trace, m, s, o1)
    requires var d := Jumps(run, Commands(spots), Running(nb, trace), m);
      Matches(run, spots, d.np, o1.np, o1.trace, n, t, o2)
    ensures Matches(run, spots, nb, nc, trace, m + n, s + t, o2)
  {
    hide Rel, Jumps, Calm, Commands;
    JumpsAdd(run, Commands(spots), Running(nb, trace), m, n);
  }

  lemma MatchStop(run: Interpreter, spots: seq<Spot>, nb: Np, nc: Np, trace: Trace, n: nat, s: nat, t: nat, o: Outcome)
    requires nb.Valid() && (!o.ok || o.np.jump) && n > 0 && Matches(run, spots, nb, nc, trace, n, s, o)
    ensures Matches(run, spots, nb, nc, trace, n, t, o)
  {
    hide Rel, Jumps, Calm, Commands;
  }

  lemma MatchTwo(run: Interpreter, spots: seq<Spot>, nb: Np, nc: Np, words: Words, trace: Trace) returns (n: nat)
    requires Sequenced(Commands(spots)) && Rel(spots, nb, nc) && Calm(Commands(spots), nb) && !nc.jump && nc.foffs >= 0
    requires |words| > 1 && KindOf(words[0]) in {Do, Then, Else} && Glueable(words)
    requires 0 <= nb.fpos && nb.fpos + 1 < |spots|
    requires spots[nb.fpos].words == [words[0]] && spots[nb.fpos + 1].words == words[1..]
    ensures Matches(run, spots, nb, nc, trace, n, 2, ParseCommand(run, nc, words, trace))
  {
    hide ParseCommand, Rel, Jumps, Calm, Sequenced, KindOf, Header, Commands, Matches;
    GlueContext(spots, nb, nc, words);
    if KindOf(words[0]) == Do { GlueDo(run, nc, words, trace); } else { GlueThen(run, nc, words, trace); }
    MatchOne(run, spots, nb, nc, [words[0]], trace);
    var o1 := ParseCommand(run, nc, [words[0]], trace);
    if o1.ok {
      MatchedState(run, spots, nb, nc, trace, 1, 1, o1);
      var d := Jumps(run, Commands(spots), Running(nb, trace), 1);
      MatchOne(run, spots, d.np, o1.np, words[1..], trace);
      MatchSeq(run, spots, nb, nc, trace, 1, 1, o1, 1, 1, ParseCommand(run, nc, words, trace));
      n := 2;
    } else {
      MatchStop(run, spots, nb, nc, trace, 1, 1, 2, o1);
      n := 1;
    }
  }

  lemma MatchedState(run: Interpreter, spots: seq<Spot>, nb: Np, nc: Np, trace: Trace, n: nat, s: nat, o: Outcome)
    requires nb.Valid() && Matches(run, spots, nb, nc, trace, n, s, o) && o.ok
    ensures var d := Jumps(run, Commands(spots), Running(nb, trace), n);
      && d == Running(d.np, o.trace) && Rel(spots, d.np, o.np) && Calm(Commands(spots), d.np)
      && o.np.foffs == nc.foffs && (!o.np.jump ==> d.np.fpos == nb.fpos + s && o.np.fpos == nc.fpos)
  {
    hide Rel, Jumps, Calm, Commands;
  }

  lemma GlueContext(spots: seq<Spot>, nb: Np, nc: Np, words: Words)
    requires Rel(spots, nb, nc) && Calm(Commands(spots), nb)
    requires |words| > 1 && KindOf(words[0]) in {Do, Then, Else} && Glueable(words) && 0 <= nb.fpos < |spots|
    requires spots[nb.fpos].words == [words[0]]
    ensures nb.Valid() && nc.Valid() && !Header([words[0]]) && !Header(words[1..])
    ensures KindOf(words[0]) == Do ==> nc.Itef().state != ItefIf
    ensures KindOf(words[0]) != Do ==> !nc.InLoopHeader()
  {
    RelTop(spots, nb.lp, nc.lp, nb.lpndx);
    assert KindOf("do") == Do && KindOf("then") == Then;
  }

  /** A piece of text with any number of commands. */
  lemma MatchPiece(run: Interpreter, spots: seq<Spot>, nb: Np, nc: Np, words: Words, at: int, trace: Trace)
    returns (n: nat)
    requires Sequenced(Commands(spots)) && Rel(spots, nb, nc) && Calm(Commands(spots), nb) && !nc.jump && nc.foffs >= 0
    requires Glueable(words) && 0 <= nb.fpos <= |spots|
    requires CommandSpots(words, at, nc.foffs + nc.loffs) <= spots[nb.fpos..]
    ensures Matches(run, spots, nb, nc, trace, n, |Unglue(words)|, ParseCommand(run, nc, words, trace))
    ensures ParseCommand(run, nc, words, trace).ok || n > 0
  {
    var here := CommandSpots(words, at, nc.foffs + nc.loffs);
    assert forall i :: 0 <= i < |here| ==> here[i] == spots[nb.fpos + i];
    assert nb.Valid() && nc.Valid();
    hide Rel, Jumps, Calm, Sequenced, KindOf, Commands;
    if words == [] {
      MatchNone(run, spots, nb, nc, trace);
      n := 0;
    } else if |here| == 1 {
      hide ParseCommand;
      MatchOne(run, spots, nb, nc, words, trace);
      n := 1;
    } else {
      hide ParseCommand;
      n := MatchTwo(run, spots, nb, nc, words, trace);
    }
  }

  lemma MatchNone(run: Interpreter, spots: seq<Spot>, nb: Np, nc: Np, trace: Trace)
    requires Rel(spots, nb, nc) && Calm(Commands(spots), nb) && !nc.jump
    ensures Matches(run, spots, nb, nc, trace, 0, 0, ParseCommand(run, nc, [], trace))
    ensures ParseCommand(run, nc, [], trace) == Outcome(true, nc, trace)
  {
    hide Rel, Calm, Commands, Jump;
  }

  // ----- One line -----

  lemma {:induction false} MatchLine(
    env: Env, spots: seq<Spot>, nb: Np, nc: Np, s: string, start: nat, trace: Trace)
    returns (n: nat)
    requires Sequenced(Commands(spots)) && Rel(spots, nb, nc) && Calm(Commands(spots), nb) && !nc.jump && nc.foffs >= 0
    requires Matched(s) && 0 <= nb.fpos <= |spots| && LineSpots(s, nc.foffs + start) <= spots[nb.fpos..]
    ensures Matches(env.run, spots, nb, nc, trace, n, |LineSpots(s, nc.foffs + start)|,
                    ParseLine(env, nc, s, start, trace))
    decreases |s|
  {
    hide Tokens, NextPiece, KindOf, Rel, Calm, Sequenced, Commands, ParseCommand, ParseWords, Jumps, Unglue,
      LineSpots, ParseLine, Matched, CommandSpots, Matches, Fixed;
    LineUnfold(s, nc.foffs + start);
    MatchedUnfold(s);
    MatchLoffs(spots, nb, nc, start + NextPiece(s, 0).working);
    ParseLineUnfold(env, nc, s, start, trace);
    var at, end := nc.foffs + start, start + |s| - |Rest(s)|;
    var words := Tokens(Here(s));
    var np1 := nc.(loffs := start + NextPiece(s, 0).working);
    var here, rest := CommandSpots(words, at, np1.foffs + np1.loffs), LineSpots(Rest(s), nc.foffs + end);
    assert here <= spots[nb.fpos..] by { assert here <= here + rest; }
    n := MatchPiece(env.run, spots, nb, np1, words, at, trace);
    FixedExactly(env, np1, words, trace);
    var o := ParseCommand(env.run, np1, words, trace);
    MatchesLoffs(env.run, spots, nb, nc, np1, trace, n, |here|, o);
    if NextPiece(s, 0).Last? {
      NoSpots(nc.foffs + end);
    } else if !o.ok || o.np.jump {
      if o.ok { MatchJumped(env.run, spots, nb, nc, trace, n, |here|, o); }
      MatchStop(env.run, spots, nb, nc, trace, n, |here|, |here| + |rest|, o);
    } else {
      MatchedState(env.run, spots, nb, nc, trace, n, |here|, o);
      var d := Jumps(env.run, Commands(spots), Running(nb, trace), n);
      assert rest <= spots[d.np.fpos..];
      var m := MatchLine(env, spots, d.np, o.np, Rest(s), end, o.trace);
      MatchSeq(env.run, spots, nb, nc, trace, n, |here|, o, m, |rest|, ParseLine(env, o.np, Rest(s), end, o.trace));
      n := n + m;
    }
  }

  lemma MatchJumped(run: Interpreter, spots: seq<Spot>, nb: Np, nc: Np, trace: Trace, n: nat, s: nat, o: Outcome)
    requires nb.Valid() && Matches(run, spots, nb, nc, trace, n, s, o) && o.ok && o.np.jump
    ensures n > 0
  {
    hide Rel, Jumps, Calm, Commands;
  }

  lemma MatchedUnfold(s: string)
    requires Matched(s)
    ensures !NextPiece(s, 0).Unmatched? && Regular(Tokens(Here(s)))
    ensures NextPiece(s, 0).Last? ==> Rest(s) == ""
    ensures NextPiece(s, 0).Semi? ==> Matched(Rest(s)) && |Rest(s)| < |s|
  {
    hide NextPiece, Tokens, Regular;
  }

  lemma MatchLoffs(spots: seq<Spot>, nb: Np, nc: Np, loffs: nat)
    requires Rel(spots, nb, nc)
    ensures nb.Valid() && nc.Valid() && Rel(spots, nb, nc.(loffs := loffs))
  {
  }

  lemma MatchesLoffs(run: Interpreter, spots: seq<Spot>, nb: Np, nc: Np, np1: Np, trace: Trace, n: nat, s: nat, o: Outcome)
    requires nb.Valid() && nc.foffs == np1.foffs && nc.fpos == np1.fpos && Matches(run, spots, nb, np1, trace, n, s, o)
    ensures Matches(run, spots, nb, nc, trace, n, s, o)
  {
    hide Rel, Calm, Commands, Jumps;
  }

  // ----- Whole files -----

  /** The two machines are at the same command, between two lines. */
  predicate Abreast(file: string, nb: Np, nc: Np) {
    var spots := FileSpots(file, 0);
    && Clean(file) && Sequenced(Commands(spots))
    && Rel(spots, nb, nc) && Calm(Commands(spots), nb)
    && 0 <= nb.fpos <= |spots| && 0 <= nc.fpos && FileSpots(file, nc.fpos) == spots[nb.fpos..]
    && Tidy(file, nc.fpos)
  }

  predicate SameIndices(a: Np, b: Np) {
    a.lpndx == b.lpndx && a.iendx == b.iendx
  }

  lemma JumpAbreast(file: string, j: int, offs: int)
    requires Clean(file) && Target(FileSpots(file, 0), j, offs)
    ensures 0 <= offs && FileSpots(file, offs) == FileSpots(file, 0)[j..] && Tidy(file, offs)
  {
    hide FileSpots, Tidy;
    LeadsBack(file, 0, j);
    FileTidy(file, 0, j);
  }

  lemma CleanLine(file: string, at: int)
    requires Tidy(file, at) && 0 <= at
    ensures Fgets(file, at) == Line(file, at)
    ensures Line(file, at) != "" ==> Matched(Line(file, at)) && Tidy(file, at + |Line(file, at)|)
  {
    hide FileSpots, Matched;
  }

  /** One round of nsh_script is matched by steps of the jump machine. */
  lemma MatchRead(env: Env, file: string, nb: Np, nc: Np, trace: Trace, ok: bool) returns (n: nat)
    requires Abreast(file, nb, nc) && (ok || Line(file, nc.fpos) != "")
    ensures var c := ReadLine(env, file, Reading(nc, trace, ok));
      var d := Jumps(env.run, Commands(FileSpots(file, 0)), Running(nb, trace), n);
      && d.trace == c.trace
      && if c.Halted? then d.Stopped? && d.ok == c.ok && (c.ok ==> SameIndices(c.np, d.np))
         else && d.Running? && c.ok && Abreast(file, d.np, c.np)
              && (n == 0 ==> nc.fpos < |file| && c.np.fpos > nc.fpos)
  {
    hide Rel, Calm, Sequenced, Commands, Jumps, LineSpots, FileSpots, ParseLine, Clean, Tidy, Line, Fgets, Matches,
      ReadLine;
    AbreastValid(file, nb, nc);
    ReadLineUnfold(env, file, nc, trace, ok);
    if Line(file, nc.fpos) == "" {
      FileUnfold(file, nc.fpos);
      JumpEnd(env.run, Commands(FileSpots(file, 0)), nb, trace);
      n := 1;
    } else {
      n := MatchReadLine(env, file, nb, nc, trace);
      LineInside(file, nc.fpos);
    }
  }

  /** The state in which nsh_script parses a line. */
  function ReadState(file: string, np: Np): Np {
    np.(foffs := np.fpos, loffs := 0, fpos := np.fpos + |Line(file, np.fpos)|, jump := false)
  }

  lemma ReadLineUnfold(env: Env, file: string, np: Np, trace: Trace, ok: bool)
    requires Tidy(file, np.fpos) && 0 <= np.fpos && np.Valid()
    ensures ReadState(file, np).Valid()
    ensures var c := ReadLine(env, file, Reading(np, trace, ok));
      var o := ParseLine(env, ReadState(file, np), Line(file, np.fpos), 0, trace);
      if Line(file, np.fpos) == "" then c.Halted? && c.ok == ok && c.trace == trace && SameIndices(c.np, np)
      else c == if o.ok then Reading(o.np, o.trace, true) else Halted(false, o.np, o.trace)
  {
    hide Tidy, Line, Fgets, ParseLine;
    CleanLine(file, np.fpos);
  }

  lemma MatchReadLine(env: Env, file: string, nb: Np, nc: Np, trace: Trace) returns (n: nat)
    requires Abreast(file, nb, nc) && Line(file, nc.fpos) != ""
    ensures nb.Valid() && ReadState(file, nc).Valid()
    ensures var o := ParseLine(env, ReadState(file, nc), Line(file, nc.fpos), 0, trace);
      var d := Jumps(env.run, Commands(FileSpots(file, 0)), Running(nb, trace), n);
      && d.trace == o.trace
      && if !o.ok then d.Stopped? && !d.ok
         else && d.Running? && Abreast(file, d.np, o.np)
              && (n == 0 ==> o.np.fpos == nc.fpos + |Line(file, nc.fpos)|)
  {
    hide Rel, Calm, Sequenced, Commands, Jumps, LineSpots, FileSpots, ParseLine, Clean, Tidy, Line, Fgets, Matches;
    AbreastValid(file, nb, nc);
    CleanLine(file, nc.fpos);
    FileUnfold(file, nc.fpos);
    var spots, line, nc1 := FileSpots(file, 0), Line(file, nc.fpos), ReadState(file, nc);
    RelMoved(spots, nb, nc, nc1);
    var here := LineSpots(line, nc.fpos);
    n := MatchLine(env, spots, nb, nc1, line, 0, trace);
    assert FileSpots(file, nc1.fpos) == spots[nb.fpos + |here|..];
    MatchAbreast(env.run, file, nb, nc1, trace, n, |here|, ParseLine(env, nc1, line, 0, trace));
  }

  lemma LineInside(file: string, at: int)
    requires 0 <= at && Line(file, at) != ""
    ensures at < |file|
  {
  }

  lemma AbreastValid(file: string, nb: Np, nc: Np)
    requires Abreast(file, nb, nc)
    ensures nb.Valid() && nc.Valid() && SameIndices(nb, nc)
  {
    hide FileSpots, Clean, Tidy, Calm;
  }

  lemma RelMoved(spots: seq<Spot>, nb: Np, nc: Np, nc1: Np)
    requires Rel(spots, nb, nc)
    requires nc1 == nc.(foffs := nc1.foffs, loffs := nc1.loffs, fpos := nc1.fpos, jump := nc1.jump)
    ensures Rel(spots, nb, nc1) && nc1.Valid()
  {
    hide RelLoops;
  }

  /** After a line: at the next line, or where the jump led. */
  lemma MatchAbreast(run: Interpreter, file: string, nb: Np, nc: Np, trace: Trace, n: nat, step: nat, o: Outcome)
    requires nb.Valid() && Clean(file) && Sequenced(Commands(FileSpots(file, 0)))
    requires Matches(run, FileSpots(file, 0), nb, nc, trace, n, step, o)
    requires var spots := FileSpots(file, 0);
      && 0 <= nc.fpos && 0 <= nb.fpos && nb.fpos + step <= |spots|
      && FileSpots(file, nc.fpos) == spots[nb.fpos + step..] && Tidy(file, nc.fpos)
    ensures var d := Jumps(run, Commands(FileSpots(file, 0)), Running(nb, trace), n);
      && d.trace == o.trace
      && if !o.ok then d.Stopped? && !d.ok
         else d.Running? && Abreast(file, d.np, o.np) && (n == 0 ==> o.np.fpos == nc.fpos)
  {
    hide Rel, Calm, Sequenced, Commands, Jumps, FileSpots, Clean, Tidy;
    if o.ok && o.np.jump {
      JumpAbreast(file, Jumps(run, Commands(FileSpots(file, 0)), Running(nb, trace), n).np.fpos, o.np.fpos);
    }
  }

  lemma {:induction false} TextToJump(
    env: Env, file: string, nb: Np, nc: Np, trace: Trace, ok: bool, m: nat) returns (n: nat)
    requires Abreast(file, nb, nc) && (ok || Line(file, nc.fpos) != "")
    requires nc.Valid() && ReadLines(env, file, Reading(nc, trace, ok), m).Halted?
    ensures nb.Valid()
    ensures var c := ReadLines(env, file, Reading(nc, trace, ok), m);
      var d := Jumps(env.run, Commands(FileSpots(file, 0)), Running(nb, trace), n);
      d.Stopped? && d.ok == c.ok && d.trace == c.trace && (c.ok ==> SameIndices(c.np, d.np))
    decreases m
  {
    hide Jumps, ReadLine, Commands, FileSpots, Abreast, Line;
    AbreastValid(file, nb, nc);
    n := MatchRead(env, file, nb, nc, trace, ok);
    var c := ReadLine(env, file, Reading(nc, trace, ok));
    if c.Halted? {
      ReadsStay(env, file, c, m - 1);
    } else {
      var d := Jumps(env.run, Commands(FileSpots(file, 0)), Running(nb, trace), n);
      var k := TextToJump(env, file, d.np, c.np, c.trace, true, m - 1);
      JumpsAdd(env.run, Commands(FileSpots(file, 0)), Running(nb, trace), n, k);
      n := n + k;
    }
  }

  lemma {:induction false} ReadsStay(env: Env, file: string, c: Script, n: nat)
    requires c.np.Valid() && c.Halted?
    ensures ReadLines(env, file, c, n) == c
    decreases n
  {
    hide ParseLine, Fgets;
    if n > 0 { ReadsStay(env, file, c, n - 1); }
  }

  lemma {:induction false} JumpToText(
    env: Env, file: string, nb: Np, nc: Np, trace: Trace, ok: bool, n: nat) returns (m: nat)
    requires Abreast(file, nb, nc) && (ok || Line(file, nc.fpos) != "")
    requires nb.Valid() && Jumps(env.run, Commands(FileSpots(file, 0)), Running(nb, trace), n).Stopped?
    ensures nc.Valid()
    ensures var c := ReadLines(env, file, Reading(nc, trace, ok), m);
      var d := Jumps(env.run, Commands(FileSpots(file, 0)), Running(nb, trace), n);
      c.Halted? && d.ok == c.ok && d.trace == c.trace && (c.ok ==> SameIndices(c.np, d.np))
    decreases n, |file| - nc.fpos
  {
    hide Jumps, ReadLine, Commands, FileSpots, Abreast, Line;
    AbreastValid(file, nb, nc);
    var code, c0 := Commands(FileSpots(file, 0)), Running(nb, trace);
    var k := MatchRead(env, file, nb, nc, trace, ok);
    var c := ReadLine(env, file, Reading(nc, trace, ok));
    var d := Jumps(env.run, code, c0, k);
    if k <= n {
      JumpsAdd(env.run, code, c0, k, n - k);
    } else {
      JumpsAdd(env.run, code, c0, n, k - n);
      StaysStopped(env.run, code, Jumps(env.run, code, c0, n), k - n);
    }
    if c.Halted? {
      if k <= n { StaysStopped(env.run, code, d, n - k); }
      m := 1;
      assert ReadLines(env, file, c, 0) == c;
    } else {
      m := JumpToText(env, file, d.np, c.np, c.trace, true, n - k);
      m := m + 1;
    }
  }

  // ----- The theorems -----

  /** How a script ends: its status, the commands it ran, and on success the
      depths at which it left the two stacks. */
  datatype Ending = Ending(ok: bool, trace: Trace, lpndx: nat, iendx: nat)

  predicate EndsAs(ok: bool, np: Np, trace: Trace, e: Ending) {
    ok == e.ok && trace == e.trace && (ok ==> np.lpndx == e.lpndx && np.iendx == e.iendx)
  }

  ghost predicate TextEnds(env: Env, file: string, np: Np, trace: Trace, e: Ending)
    requires np.Valid()
  {
    exists m: nat :: var c := ReadLines(env, file, Reading(np, trace, false), m);
      c.Halted? && EndsAs(c.ok, c.np, c.trace, e)
  }

  ghost predicate CommandsEnd(run: Interpreter, code: seq<Words>, np: Np, trace: Trace, e: Ending)
    requires np.Valid()
  {
    exists n: nat :: var d := Jumps(run, code, Running(np, trace), n);
      d.Stopped? && EndsAs(d.ok, d.np, d.trace, e)
  }

  /** The parser before a script: at the start of the file, outside of any loop
      and any `if`, whatever earlier commands left further up the stacks. */
  predicate Fresh(np: Np) {
    && np.Valid() && np.scripted && np.fpos == 0 && np.lpndx == 0 && np.iendx == 0
    && np.Loop().state == LoopNormal && np.Loop().iendx == 0 && np.Itef() == ItefLevel(ItefNormal, false, false)
  }

  /** The same with nothing left there that is waiting for a condition. */
  predicate Clear(np: Np) {
    Fresh(np) && Boundary(np)
  }

  lemma SweptClear(np: Np)
    requires Fresh(np)
    ensures Clear(St.Swept(np)) && St.Alike(np, St.Swept(np), 0)
  {
    St.SweptAlike(np);
  }

  /** What is left further up the stacks has no influence on how a script ends. */
  lemma StaleText(env: Env, file: string, np: Np, trace: Trace, e: Ending)
    requires Fresh(np)
    ensures TextEnds(env, file, np, trace, e) <==> TextEnds(env, file, St.Swept(np), trace, e)
  {
    SweptClear(np);
    var b := St.Swept(np);
    hide St.Alike, ReadLines;
    var c0, d0 := Reading(np, trace, false), Reading(b, trace, false);
    assert St.SameScript(c0, d0);
    forall m: nat
      ensures var c, d := ReadLines(env, file, c0, m), ReadLines(env, file, d0, m);
        c.Halted? && EndsAs(c.ok, c.np, c.trace, e) <==> d.Halted? && EndsAs(d.ok, d.np, d.trace, e)
    {
      StaleReads(env, file, c0, d0, m, e);
    }
  }

  lemma StaleCommands(run: Interpreter, code: seq<Words>, np: Np, trace: Trace, e: Ending)
    requires Fresh(np)
    ensures CommandsEnd(run, code, np, trace, e) <==> CommandsEnd(run, code, St.Swept(np), trace, e)
  {
    SweptClear(np);
    var b := St.Swept(np);
    hide St.Alike, Jumps;
    var c1, d1 := Running(np, trace), Running(b, trace);
    assert St.SameConfig(c1, d1);
    forall n: nat
      ensures var c, d := Jumps(run, code, c1, n), Jumps(run, code, d1, n);
        c.Stopped? && EndsAs(c.ok, c.np, c.trace, e) <==> d.Stopped? && EndsAs(d.ok, d.np, d.trace, e)
    {
      StaleJumps(run, code, c1, d1, n, e);
    }
  }

  lemma StaleReads(env: Env, file: string, c: Script, d: Script, m: nat, e: Ending)
    requires c.np.Valid() && d.np.Valid() && St.SameScript(c, d)
    ensures var c', d' := ReadLines(env, file, c, m), ReadLines(env, file, d, m);
      c'.Halted? && EndsAs(c'.ok, c'.np, c'.trace, e) <==> d'.Halted? && EndsAs(d'.ok, d'.np, d'.trace, e)
  {
    hide ReadLines, St.Alike;
    St.LinesAlike(env, file, c, d, m);
    var h :| St.Alike(ReadLines(env, file, c, m).np, ReadLines(env, file, d, m).np, h);
    St.AlikeValid(ReadLines(env, file, c, m).np, ReadLines(env, file, d, m).np, h);
  }

  lemma StaleJumps(run: Interpreter, code: seq<Words>, c: Config, d: Config, n: nat, e: Ending)
    requires c.np.Valid() && d.np.Valid() && St.SameConfig(c, d)
    ensures var c', d' := Jumps(run, code, c, n), Jumps(run, code, d, n);
      c'.Stopped? && EndsAs(c'.ok, c'.np, c'.trace, e) <==> d'.Stopped? && EndsAs(d'.ok, d'.np, d'.trace, e)
  {
    hide Jumps, St.Alike;
    St.JumpsAlike(run, code, c, d, n);
    var h :| St.Alike(Jumps(run, code, c, n).np, Jumps(run, code, d, n).np, h);
    St.AlikeValid(Jumps(run, code, c, n).np, Jumps(run, code, d, n).np, h);
  }

  lemma ClearAbreast(file: string, np: Np)
    requires Clear(np) && Clean(file) && Sequenced(Commands(FileSpots(file, 0)))
    ensures Abreast(file, np, np)
  {
    assert Tidy(file, 0) by { hide Tidy; }
    hide FileSpots, Clean, Tidy, Sequenced, Commands;
    assert FileSpots(file, 0)[0..] == FileSpots(file, 0);
  }

  /** A clean script ends exactly as the plain list of its commands does. */
  lemma TextExactly(env: Env, file: string, np: Np, trace: Trace, e: Ending)
    requires Fresh(np) && file != "" && Clean(file) && Sequenced(Commands(FileSpots(file, 0)))
    ensures TextEnds(env, file, np, trace, e) <==> CommandsEnd(env.run, Commands(FileSpots(file, 0)), np, trace, e)
  {
    hide FileSpots, Clean, Sequenced, Commands, TextEnds, CommandsEnd, Clear;
    SweptClear(np);
    StaleText(env, file, np, trace, e);
    StaleCommands(env.run, Commands(FileSpots(file, 0)), np, trace, e);
    ClearExactly(env, file, St.Swept(np), trace, e);
  }

  lemma ClearExactly(env: Env, file: string, np: Np, trace: Trace, e: Ending)
    requires Clear(np) && file != "" && Clean(file) && Sequenced(Commands(FileSpots(file, 0)))
    ensures TextEnds(env, file, np, trace, e) <==> CommandsEnd(env.run, Commands(FileSpots(file, 0)), np, trace, e)
  {
    assert Line(file, 0) != "";
    ClearAbreast(file, np);
    hide FileSpots, Clean, Sequenced, Commands, Jumps, ReadLines, Abreast, Line;
    if m: nat :| (var c := ReadLines(env, file, Reading(np, trace, false), m);
                  c.Halted? && EndsAs(c.ok, c.np, c.trace, e)) {
      var n := TextToJump(env, file, np, np, trace, false, m);
    }
    if n: nat :| (var d := Jumps(env.run, Commands(FileSpots(file, 0)), Running(np, trace), n);
                  d.Stopped? && EndsAs(d.ok, d.np, d.trace, e)) {
      var m := JumpToText(env, file, np, np, trace, false, n);
    }
  }

  /** Layout independence: scripts with the same commands end alike. */
  lemma LayoutIndependent(env: Env, file: string, file': string, np: Np, trace: Trace, e: Ending)
    requires Fresh(np) && file != "" && file' != "" && Clean(file) && Clean(file')
    requires Commands(FileSpots(file, 0)) == Commands(FileSpots(file', 0)) && Sequenced(Commands(FileSpots(file, 0)))
    ensures TextEnds(env, file, np, trace, e) <==> TextEnds(env, file', np, trace, e)
  {
    hide FileSpots, Clean, Sequenced, Commands, TextEnds, CommandsEnd, Fresh;
    TextExactly(env, file, np, trace, e);
    TextExactly(env, file', np, trace, e);
  }
}
