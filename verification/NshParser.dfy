/** The parser as the source has it: one object whose fields the functions of
    nsh_parse.c and nsh_script.c update, and a line buffer that they cut up in
    place.  Each method is proved to do what the function of the same name in
    `NshState` and `NshText` says, `ParseCommand` what `ParseWords` says, so that
    everything proved about those holds of the object. */
module NshParser {
  import S = NshState
  import T = NshText
  import opened CStrings
  import opened NshArgument

  /** The words of a command whose first word has been cut off already. */
  ghost function WordsOf(cmd: Option<string>, s: string): S.Words {
    if cmd == None then [] else [cmd.value] + T.Tokens(s)
  }

  /** What nsh_argument leaves behind are the words after the first. */
  lemma ArgumentWords(s: string, word: Option<string>, rest: string)
    requires match T.NextToken(s)
      case NoToken => word == None && T.NextToken(rest) == T.NoToken
      case Token(w, r) => word == Some(w) && rest == r
    ensures T.Tokens(s) == WordsOf(word, rest)
  {
    hide T.NextToken;
  }

  /** The string at `next` is what is left of the string at `saveptr`, and the
      buffer is otherwise as it was. */
  twostate predicate Consumed(buf: array<char>, saveptr: nat, s: string, next: nat, rest: string)
    reads buf
  {
    && IsStr(buf[..], next, rest) && saveptr <= next && next + |rest| == saveptr + |s|
    && forall i :: 0 <= i < buf.Length && !(saveptr <= i < saveptr + |s|) ==> buf[i] == old(buf[i])
  }

  /** The keywords are told apart by comparing strings. */
  lemma Kinds(w: string)
    ensures w == "while" <==> S.KindOf(w) == S.While
    ensures w == "until" <==> S.KindOf(w) == S.Until
    ensures w == "do" <==> S.KindOf(w) == S.Do
    ensures w == "done" <==> S.KindOf(w) == S.Done
    ensures w == "if" <==> S.KindOf(w) == S.If
    ensures w == "then" <==> S.KindOf(w) == S.Then
    ensures w == "else" <==> S.KindOf(w) == S.Else
    ensures w == "fi" <==> S.KindOf(w) == S.Fi
    ensures w == "break" <==> S.KindOf(w) == S.Break
  {
  }

  class Parser {
    var fail: bool
    var scripted: bool
    var fpos: int
    var foffs: int
    var loffs: nat
    var jump: bool
    var lpndx: nat
    const lpstate: array<S.LoopLevel>
    var iendx: nat
    const iestate: array<S.ItefLevel>
    /** The commands run so far. */
    var trace: S.Trace

    ghost function View(): S.Np
      reads this, lpstate, iestate
    {
      S.Np(fail, scripted, fpos, foffs, loffs, jump, lpndx, lpstate[..], iendx, iestate[..])
    }

    ghost predicate Valid()
      reads this, lpstate, iestate
    {
      View().Valid() && lpstate.Length > 0
    }

    constructor (depth: nat)
      requires depth > 0
      ensures Valid() && fresh(lpstate) && fresh(iestate) && trace == []
      ensures View().lp == seq(depth, i => S.LoopLevel(S.LoopNormal, false, 0, 0))
      ensures View().ie == seq(depth, i => S.ItefLevel(S.ItefNormal, false, false))
      ensures !fail && !scripted && fpos == 0 && lpndx == 0 && iendx == 0
    {
      fail, scripted, fpos, foffs, loffs, jump := false, false, 0, 0, 0, false;
      lpndx, iendx, trace := 0, 0, [];
      lpstate := new S.LoopLevel[depth](_ => S.LoopLevel(S.LoopNormal, false, 0, 0));
      iestate := new S.ItefLevel[depth](_ => S.ItefLevel(S.ItefNormal, false, false));
    }

    // ----- Queries -----

    predicate LoopEnabled()
      requires lpndx < lpstate.Length
      reads this, lpstate
    {
      lpstate[lpndx].state == S.LoopDo ==> lpstate[lpndx].enable
    }

    predicate ItefEnabled()
      requires iendx < iestate.Length
      reads this, iestate
    {
      var top := iestate[iendx];
      if top.disabled then false
      else match top.state
        case ItefThen => !top.ifcond
        case ItefElse => top.ifcond
        case _ => true
    }

    predicate CmdEnabled()
      requires Valid()
      reads this, lpstate, iestate
      ensures CmdEnabled() == View().CmdEnabled()
    {
      LoopEnabled() && ItefEnabled()
    }

    // ----- nsh_saveresult -----

    method SaveResult(result: bool) returns (ok: bool)
      requires Valid()
      modifies this`fail, lpstate, iestate
      ensures Valid() && (View(), ok) == S.SaveResult(old(View()), result)
    {
      if lpstate[lpndx].state == S.LoopWhile {
        fail := false;
        lpstate[lpndx] := lpstate[lpndx].(enable := !result);
        ok := true;
      } else if lpstate[lpndx].state == S.LoopUntil {
        fail := false;
        lpstate[lpndx] := lpstate[lpndx].(enable := result);
        ok := true;
      } else if iestate[iendx].state == S.ItefIf {
        fail := false;
        iestate[iendx] := iestate[iendx].(ifcond := result);
        ok := true;
      } else {
        fail := result;
        ok := !result;
      }
    }

    // ----- cmd_break and nsh_execute -----

    method CmdBreak()
      requires Valid()
      modifies this`iendx, lpstate
      ensures Valid() && View() == S.BreakStep(old(View()))
    {
      if lpstate[lpndx].state == S.LoopDo {
        iendx := lpstate[lpndx].iendx;
        lpstate[lpndx] := lpstate[lpndx].(enable := false);
      }
    }

    /** Runs a command and saves its result. */
    method Execute(run: S.Interpreter, argv: S.Words) returns (ok: bool)
      requires Valid() && 0 < |argv| < S.MAX_ARGV_ENTRIES
      modifies this`fail, this`iendx, this`trace, lpstate, iestate
      ensures Valid() && S.Outcome(ok, View(), trace) == S.Execute(run, old(View()), argv, old(trace))
    {
      Kinds(argv[0]);
      hide S.KindOf;
      if argv[0] == "break" {
        CmdBreak();
        ok := SaveResult(false);
      } else {
        var call := S.Call(argv, fail);
        var failed := run(trace, call);
        trace := trace + [call];
        ok := SaveResult(failed);
      }
    }

    // ----- nsh_argument -----

    /** nsh_parse_cmdparm: runs a backquoted command in the current state. */
    method CmdParm(env: T.Env, cmd: string)
      requires Valid()
      modifies this`fail, this`iendx, this`trace, lpstate, iestate
      ensures Valid()
      ensures var o := T.CmdParm(env, old(View()), cmd, old(trace)); View() == o.np && trace == o.trace
    {
      hide T.Tokens, S.Execute, T.Literal;
      var words := T.Tokens(cmd);
      if words == [] || !CmdEnabled() {
        return;
      }
      words := [T.Value(env, trace, trace, fail, words[0])] + words[1..];
      ExecuteClipped(env.run, View(), words, trace);
      var _ := Execute(env.run, S.Clip(words));
    }

    /** nsh_argexpand: runs the backquoted commands of a word, from left to right. */
    method Expand(env: T.Env, w: string) returns (value: string)
      requires Valid()
      modifies this`fail, this`iendx, this`trace, lpstate, iestate
      ensures Valid()
      ensures var r := T.RunInside(env, old(View()), T.Inside(w), old(trace));
        View() == r.np && trace == r.trace && value == T.Value(env, old(trace), r.trace, r.np.fail, w)
    {
      hide T.CmdParm, T.RunInside, T.Inside, T.Literal;
      var before := trace;
      var cmds := T.Inside(w);
      ghost var all := T.RunInside(env, View(), cmds, trace);
      var i := 0;
      assert cmds[0..] == cmds;
      while i < |cmds|
        invariant 0 <= i <= |cmds| && Valid() && all == T.RunInside(env, View(), cmds[i..], trace)
      {
        InsideStep(env, View(), cmds[i..], trace);
        assert cmds[i..][1..] == cmds[i + 1..];
        CmdParm(env, cmds[i]);
        i := i + 1;
      }
      InsideStep(env, View(), cmds[i..], trace);
      value := T.Value(env, before, trace, fail, w);
    }

    /** Cuts the next word off and expands it. */
    method Word(env: T.Env, buf: array<char>, saveptr: nat, ghost s: string)
      returns (word: Option<string>, next: nat, ghost s': string)
      requires Valid() && IsStr(buf[..], saveptr, s)
      modifies this`fail, this`iendx, this`trace, lpstate, iestate, buf
      ensures Valid() && Consumed(buf, saveptr, s, next, s')
      ensures T.Taken(View(), WordsOf(word, s'), trace) == T.Take(env, old(View()), T.Tokens(s), old(trace))
    {
      hide T.Tokens, T.NextToken, T.RunInside, T.Inside, T.Literal;
      word, next, s' := Argument(buf, saveptr, s);
      ArgumentWords(s, word, s');
      if word != None {
        assert T.Tokens(s)[1..] == T.Tokens(s');
        var value := Expand(env, word.value);
        word := Some(value);
      }
    }

    // ----- nsh_loop -----

    method LoopError()
      requires Valid()
      modifies this`jump, this`lpndx, lpstate
      ensures Valid() && View() == S.LoopReset(old(View()))
    {
      jump := false;
      lpndx := 0;
      lpstate[0] := lpstate[0].(state := S.LoopNormal, enable := true, topoffs := 0);
    }
  
    /** The outcome of handling a keyword: the state, and on success the words
        that are left. */
    ghost predicate Handled(k: S.Keyword, t: S.Trace, ok: bool, cmd: Option<string>, s: string)
      reads this, lpstate, iestate
    {
      && View() == k.np && trace == t && ok == k.Go?
      && (k.Go? ==> WordsOf(cmd, s) == k.rest)
    }

    /** Handles a leading loop keyword; `cmd'` and `next` are then the word after
        it and the position of the rest. */
    method Loop(env: T.Env, buf: array<char>, cmd: Option<string>, saveptr: nat, ghost s: string)
      returns (ok: bool, cmd': Option<string>, next: nat, ghost s': string)
      requires Valid() && IsStr(buf[..], saveptr, s)
      modifies this`fail, this`iendx, this`trace, this`jump, this`lpndx, this`fpos, lpstate, iestate, buf
      ensures Valid() && Consumed(buf, saveptr, s, next, s')
      ensures var t := T.TakeNext(env, T.LOOP_KEYWORDS, old(View()), WordsOf(cmd, s), old(trace));
        Handled(S.LoopStep(t.np, t.words), t.trace, ok, cmd', s')
    {
      ok, cmd', next, s' := true, cmd, saveptr, s;
      hide T.Tokens, T.Take;
      if cmd == None {
        return;
      }
      Kinds(cmd.value);
      T.TakeNextUnfold(env, T.LOOP_KEYWORDS, View(), cmd.value, T.Tokens(s), trace);
      hide S.KindOf, T.TakeNext, S.LoopStep;
      if cmd.value == "while" || cmd.value == "until" {
        ok, cmd', next, s' := LoopTop(env, buf, cmd.value, saveptr, s);
      } else if cmd.value == "do" {
        ok, cmd', next, s' := LoopDo(env, buf, cmd.value, saveptr, s);
      } else if cmd.value == "done" {
        ok, cmd', next, s' := LoopDone(env, buf, cmd.value, saveptr, s);
      } else {
        T.LoopOther(View(), WordsOf(cmd, s));
        if lpstate[lpndx].state == S.LoopWhile || lpstate[lpndx].state == S.LoopUntil {
          LoopError();
          ok := false;
        }
      }
    }

    /** "while" and "until" */
    method LoopTop(env: T.Env, buf: array<char>, cmd: string, saveptr: nat, ghost s: string)
      returns (ok: bool, cmd': Option<string>, next: nat, ghost s': string)
      requires Valid() && IsStr(buf[..], saveptr, s) && (cmd == "while" || cmd == "until")
      modifies this`fail, this`iendx, this`trace, this`jump, this`lpndx, this`fpos, lpstate, iestate, buf
      ensures Valid() && Consumed(buf, saveptr, s, next, s')
      ensures var t := T.Take(env, old(View()), T.Tokens(s), old(trace));
        Handled(S.LoopStep(t.np, [cmd] + t.words), t.trace, ok, cmd', s')
    {
      Kinds(cmd);
      hide S.KindOf, T.Tokens, T.Take;
      cmd', next, s' := Word(env, buf, saveptr, s);
      ghost var words := [cmd] + WordsOf(cmd', s');
      assert words[1..] == WordsOf(cmd', s');
      if || cmd' == None
         || iestate[iendx].state == S.ItefIf
         || lpstate[lpndx].state == S.LoopWhile || lpstate[lpndx].state == S.LoopUntil
         || !scripted || foffs < 0
         || lpndx >= lpstate.Length - 1
      {
        LoopError();
        ok := false;
      } else {
        PushLoop(if cmd == "while" then S.LoopWhile else S.LoopUntil);
        ok := true;
      }
    }

    method LoopDo(env: T.Env, buf: array<char>, cmd: string, saveptr: nat, ghost s: string)
      returns (ok: bool, cmd': Option<string>, next: nat, ghost s': string)
      requires Valid() && IsStr(buf[..], saveptr, s) && cmd == "do"
      modifies this`fail, this`iendx, this`trace, this`jump, this`lpndx, this`fpos, lpstate, iestate, buf
      ensures Valid() && Consumed(buf, saveptr, s, next, s')
      ensures var t := T.Take(env, old(View()), T.Tokens(s), old(trace));
        Handled(S.LoopStep(t.np, [cmd] + t.words), t.trace, ok, cmd', s')
    {
      Kinds(cmd);
      hide S.KindOf, T.Tokens, T.Take;
      cmd', next, s' := Word(env, buf, saveptr, s);
      ghost var words := [cmd] + WordsOf(cmd', s');
      assert words[1..] == WordsOf(cmd', s');
      if lpstate[lpndx].state != S.LoopWhile && lpstate[lpndx].state != S.LoopUntil {
        LoopError();
        ok := false;
      } else {
        lpstate[lpndx] := lpstate[lpndx].(state := S.LoopDo);
        ok := true;
      }
    }

    method LoopDone(env: T.Env, buf: array<char>, cmd: string, saveptr: nat, ghost s: string)
      returns (ok: bool, cmd': Option<string>, next: nat, ghost s': string)
      requires Valid() && IsStr(buf[..], saveptr, s) && cmd == "done"
      modifies this`fail, this`iendx, this`trace, this`jump, this`lpndx, this`fpos, lpstate, iestate, buf
      ensures Valid() && Consumed(buf, saveptr, s, next, s')
      ensures var t := T.Take(env, old(View()), T.Tokens(s), old(trace));
        Handled(S.LoopStep(t.np, [cmd] + t.words), t.trace, ok, cmd', s')
    {
      Kinds(cmd);
      hide S.KindOf, T.Tokens, T.Take;
      cmd', next, s' := Word(env, buf, saveptr, s);
      ghost var words := [cmd] + WordsOf(cmd', s');
      assert words[1..] == WordsOf(cmd', s');
      if cmd' != None || lpstate[lpndx].state != S.LoopDo || lpndx < 1 {
        LoopError();
        ok := false;
      } else {
        PopLoop();
        ok := true;
      }
    }

    method PushLoop(state: S.LoopState)
      requires Valid() && lpndx < lpstate.Length - 1
      modifies this`jump, this`lpndx, lpstate
      ensures Valid() && View() == S.PushLoop(old(View()), state)
    {
      var enable := CmdEnabled();
      var offset := foffs + loffs;
      jump := false;
      lpndx := lpndx + 1;
      lpstate[lpndx] := S.LoopLevel(state, enable, iendx, offset);
    }

    method PopLoop()
      requires Valid() && lpndx > 0
      modifies this`jump, this`lpndx, this`fpos, lpstate
      ensures Valid() && View() == S.PopLoop(old(View()))
    {
      if lpstate[lpndx].enable {
        fpos := lpstate[lpndx].topoffs;
        jump := true;
      } else {
        lpstate[lpndx] := lpstate[lpndx].(enable := true);
      }
      lpstate[lpndx] := lpstate[lpndx].(state := S.LoopNormal);
      lpndx := lpndx - 1;
    }
  
    // ----- nsh_itef -----

    method ItefError()
      requires Valid()
      modifies this`iendx, iestate
      ensures Valid() && View() == S.ItefReset(old(View()))
    {
      iendx := 0;
      iestate[0] := S.ItefLevel(S.ItefNormal, false, false);
    }

    method Itef(env: T.Env, buf: array<char>, cmd: Option<string>, saveptr: nat, ghost s: string)
      returns (ok: bool, cmd': Option<string>, next: nat, ghost s': string)
      requires Valid() && IsStr(buf[..], saveptr, s)
      modifies this`fail, this`iendx, this`trace, lpstate, iestate, buf
      ensures Valid() && Consumed(buf, saveptr, s, next, s')
      ensures var t := T.TakeNext(env, T.ITEF_KEYWORDS, old(View()), WordsOf(cmd, s), old(trace));
        Handled(S.ItefStep(t.np, t.words), t.trace, ok, cmd', s')
    {
      ok, cmd', next, s' := true, cmd, saveptr, s;
      hide T.Tokens, T.Take;
      if cmd == None {
        return;
      }
      Kinds(cmd.value);
      T.TakeNextUnfold(env, T.ITEF_KEYWORDS, View(), cmd.value, T.Tokens(s), trace);
      hide S.KindOf, T.TakeNext, S.ItefStep;
      if cmd.value == "if" {
        ok, cmd', next, s' := ItefTop(env, buf, cmd.value, saveptr, s);
      } else if cmd.value == "then" || cmd.value == "else" {
        ok, cmd', next, s' := ItefBranch(env, buf, cmd.value, saveptr, s);
      } else if cmd.value == "fi" {
        ok, cmd', next, s' := ItefEnd(env, buf, cmd.value, saveptr, s);
      } else {
        T.ItefOther(View(), WordsOf(cmd, s));
        if iestate[iendx].state == S.ItefIf {
          ItefError();
          ok := false;
        }
      }
    }

    method ItefTop(env: T.Env, buf: array<char>, cmd: string, saveptr: nat, ghost s: string)
      returns (ok: bool, cmd': Option<string>, next: nat, ghost s': string)
      requires Valid() && IsStr(buf[..], saveptr, s) && cmd == "if"
      modifies this`fail, this`iendx, this`trace, lpstate, iestate, buf
      ensures Valid() && Consumed(buf, saveptr, s, next, s')
      ensures var t := T.Take(env, old(View()), T.Tokens(s), old(trace));
        Handled(S.ItefStep(t.np, [cmd] + t.words), t.trace, ok, cmd', s')
    {
      Kinds(cmd);
      hide S.KindOf, T.Tokens, T.Take;
      cmd', next, s' := Word(env, buf, saveptr, s);
      ghost var words := [cmd] + WordsOf(cmd', s');
      assert words[1..] == WordsOf(cmd', s');
      if cmd' == None || iestate[iendx].state == S.ItefIf || iendx >= iestate.Length - 1 {
        ItefError();
        ok := false;
      } else {
        PushItef();
        ok := true;
      }
    }

    method PushItef()
      requires Valid() && iendx < iestate.Length - 1
      modifies this`iendx, iestate
      ensures Valid()
      ensures var np := old(View());
        View() == np.(iendx := np.iendx + 1,
                      ie := np.ie[np.iendx + 1 := S.ItefLevel(S.ItefIf, !np.CmdEnabled(), false)])
    {
      var disabled := !CmdEnabled();
      iendx := iendx + 1;
      iestate[iendx] := S.ItefLevel(S.ItefIf, disabled, false);
    }

    /** "then" and "else" */
    method ItefBranch(env: T.Env, buf: array<char>, cmd: string, saveptr: nat, ghost s: string)
      returns (ok: bool, cmd': Option<string>, next: nat, ghost s': string)
      requires Valid() && IsStr(buf[..], saveptr, s) && (cmd == "then" || cmd == "else")
      modifies this`fail, this`iendx, this`trace, lpstate, iestate, buf
      ensures Valid() && Consumed(buf, saveptr, s, next, s')
      ensures var t := T.Take(env, old(View()), T.Tokens(s), old(trace));
        Handled(S.ItefStep(t.np, [cmd] + t.words), t.trace, ok, cmd', s')
    {
      Kinds(cmd);
      hide S.KindOf, T.Tokens, T.Take;
      cmd', next, s' := Word(env, buf, saveptr, s);
      ghost var words := [cmd] + WordsOf(cmd', s');
      assert words[1..] == WordsOf(cmd', s');
      var before, after := S.ItefIf, S.ItefThen;
      if cmd == "else" {
        before, after := S.ItefThen, S.ItefElse;
      }
      if iestate[iendx].state != before {
        ItefError();
        ok := false;
      } else {
        iestate[iendx] := iestate[iendx].(state := after);
        ok := true;
      }
    }

    method ItefEnd(env: T.Env, buf: array<char>, cmd: string, saveptr: nat, ghost s: string)
      returns (ok: bool, cmd': Option<string>, next: nat, ghost s': string)
      requires Valid() && IsStr(buf[..], saveptr, s) && cmd == "fi"
      modifies this`fail, this`iendx, this`trace, lpstate, iestate, buf
      ensures Valid() && Consumed(buf, saveptr, s, next, s')
      ensures var t := T.Take(env, old(View()), T.Tokens(s), old(trace));
        Handled(S.ItefStep(t.np, [cmd] + t.words), t.trace, ok, cmd', s')
    {
      Kinds(cmd);
      hide S.KindOf, T.Tokens, T.Take;
      cmd', next, s' := Word(env, buf, saveptr, s);
      ghost var words := [cmd] + WordsOf(cmd', s');
      assert words[1..] == WordsOf(cmd', s');
      if || cmd' != None
         || (iestate[iendx].state != S.ItefThen && iestate[iendx].state != S.ItefElse)
         || iendx < 1
      {
        ItefError();
        ok := false;
      } else {
        iendx := iendx - 1;
        ok := true;
      }
    }

    // ----- nsh_parse_command -----

    /** Cuts the next word off and runs the commands in it. */
    method Argv(env: T.Env, buf: array<char>, saveptr: nat, ghost s: string)
      returns (word: Option<string>, next: nat, ghost s': string)
      requires Valid() && IsStr(buf[..], saveptr, s)
      modifies this`fail, this`iendx, this`trace, lpstate, iestate, buf
      ensures Valid() && Consumed(buf, saveptr, s, next, s') && T.Tokens(s) == WordsOf(word, s')
      ensures T.After(View(), trace)
           == if word == None then T.After(old(View()), old(trace))
              else T.RunInside(env, old(View()), T.Inside(word.value), old(trace))
    {
      hide T.Tokens, T.NextToken, T.RunInside, T.Inside, T.Literal;
      word, next, s' := Argument(buf, saveptr, s);
      ArgumentWords(s, word, s');
      if word != None {
        var _ := Expand(env, word.value);
      }
    }

    /** Reads the words of the command, as many as `argv` has room for. */
    method Arguments(env: T.Env, buf: array<char>, cmd: string, saveptr: nat, ghost s: string)
      returns (argv: S.Words)
      requires Valid() && IsStr(buf[..], saveptr, s)
      modifies this`fail, this`iendx, this`trace, lpstate, iestate, buf
      ensures Valid() && argv == S.Clip([cmd] + T.Tokens(s)) && 0 < |argv| < S.MAX_ARGV_ENTRIES
      ensures T.After(View(), trace) == T.TakeArgs(env, old(View()), argv[1..], old(trace))
      ensures forall i :: 0 <= i < buf.Length && !(saveptr <= i < saveptr + |s|) ==> buf[i] == old(buf[i])
    {
      hide T.Tokens, T.TakeArgs, T.RunInside, T.Inside, S.Clip, Collected;
      ghost var words := [cmd] + T.Tokens(s);
      CollectFirst(cmd, T.Tokens(s));
      var next, more := saveptr, true;
      ghost var s' := s;
      argv := [cmd];
      ghost var all := T.TakeArgs(env, View(), S.Clip(words)[1..], trace);
      while more && |argv| < S.MAX_ARGV_ENTRIES - 1
        invariant Valid() && Consumed(buf, saveptr, s, next, s')
        invariant Collected(words, argv, if more then T.Tokens(s') else []) && |argv| <= |S.Clip(words)|
        invariant all == T.TakeArgs(env, View(), S.Clip(words)[|argv|..], trace)
        decreases more, S.MAX_ARGV_ENTRIES - |argv|
      {
        ArgsStep(env, View(), S.Clip(words)[|argv|..], trace);
        CollectNext(words, argv, T.Tokens(s'));
        var w;
        w, next, s' := Argv(env, buf, next, s');
        if w == None {
          more := false;
        } else {
          argv := argv + [w.value];
        }
      }
      CollectDone(words, argv, if more then T.Tokens(s') else []);
      ArgsStep(env, View(), [], trace);
    }

    method ParseCommand(env: T.Env, buf: array<char>, start: nat, ghost s: string) returns (ok: bool)
      requires Valid() && IsStr(buf[..], start, s)
      modifies this, lpstate, iestate, buf
      ensures Valid() && S.Outcome(ok, View(), trace) == T.ParseWords(env, old(View()), T.Tokens(s), old(trace))
      ensures forall i :: 0 <= i < buf.Length && !(start <= i < start + |s|) ==> buf[i] == old(buf[i])
    {
      hide T.Tokens, S.LoopStep, S.SaveResult, T.Take, T.TakeNext, T.ParseItef;
      var cmd, saveptr, s1 := Word(env, buf, start, s);
      var done;
      ghost var s2;
      done, cmd, saveptr, s2 := Loop(env, buf, cmd, saveptr, s1);
      if done {
        ok := ParseRest(env, buf, cmd, saveptr, s2);
      } else {
        ok := SaveResult(true);
      }
    }

    /** The command from nsh_itef on. */
    method ParseRest(env: T.Env, buf: array<char>, cmd: Option<string>, saveptr: nat, ghost s: string) returns (ok: bool)
      requires Valid() && IsStr(buf[..], saveptr, s)
      modifies this, lpstate, iestate, buf
      ensures Valid() && S.Outcome(ok, View(), trace) == T.ParseItef(env, old(View()), WordsOf(cmd, s), old(trace))
      ensures forall i :: 0 <= i < buf.Length && !(saveptr <= i < saveptr + |s|) ==> buf[i] == old(buf[i])
    {
      hide T.Tokens, S.ItefStep, S.SaveResult, S.Execute, T.TakeNext, T.TakeArgs;
      var done, cmd', next, s' := Itef(env, buf, cmd, saveptr, s);
      if !done {
        ok := SaveResult(true);
      } else if cmd' == None || !CmdEnabled() {
        ok := true;
      } else {
        var argv := Arguments(env, buf, cmd'.value, next, s');
        ExecuteClipped(env.run, View(), WordsOf(cmd', s'), trace);
        ok := Execute(env.run, argv);
      }
    }

    // ----- nsh_parse -----

    /** strcspn(working, g_line_separator) */
    static method FindSeparator(buf: array<char>, start: nat, w: nat, ghost s: string) returns (ptr: nat)
      requires IsStr(buf[..], start, s) && w <= |s|
      ensures ptr == start + T.Span(s, w)
    {
      ptr := start + w;
      ghost var i := w;
      while buf[ptr] != NUL && !T.LineSeparator(buf[ptr])
        invariant w <= i <= |s| && ptr == start + i && T.Span(s, w) == T.Span(s, i)
        decreases |s| - i
      {
        i, ptr := i + 1, ptr + 1;
      }
    }

    /** strchr(ptr, '"'), or the end of the string */
    static method FindQuote(buf: array<char>, start: nat, w: nat, ghost s: string) returns (ptr: nat)
      requires IsStr(buf[..], start, s) && w <= |s|
      ensures ptr == start + T.FindQuote(s, w)
    {
      ptr := start + w;
      ghost var i := w;
      while buf[ptr] != NUL && buf[ptr] != '"'
        invariant w <= i <= |s| && ptr == start + i && T.FindQuote(s, w) == T.FindQuote(s, i)
        decreases |s| - i
      {
        i, ptr := i + 1, ptr + 1;
      }
    }

    /** Looks for the end of the command that starts at `start`. */
    static method FindCommand(buf: array<char>, start: nat, ghost s: string) returns (piece: T.Piece)
      requires IsStr(buf[..], start, s)
      ensures piece == T.NextPiece(s, 0)
    {
      var working := 0;
      hide T.NextPiece, T.Span, T.FindQuote;
      while true
        invariant working <= |s| && T.NextPiece(s, 0) == T.NextPiece(s, working)
        decreases |s| - working
      {
        T.PieceUnfold(s, working);
        var ptr := FindSeparator(buf, start, working, s);
        if buf[ptr] == NUL || buf[ptr] == '\n' || buf[ptr] == '#' {
          return T.Last(working);
        } else if buf[ptr] == ';' {
          return T.Semi(ptr - start, working);
        } else {
          var quote := FindQuote(buf, start, ptr - start + 1, s);
          if buf[quote] == NUL {
            return T.Unmatched(working);
          }
          working := quote - start + 1;
        }
      }
    }

    /** The command up to the semicolon at `e`. */
    method ParseFirst(env: T.Env, buf: array<char>, start: nat, e: nat, ghost s: string) returns (ok: bool)
      requires Valid() && IsStr(buf[..], start, s) && e < |s|
      modifies this, lpstate, iestate, buf
      ensures Valid() && S.Outcome(ok, View(), trace) == T.ParseWords(env, old(View()), T.Tokens(s[..e]), old(trace))
      ensures IsStr(buf[..], start + e + 1, s[e + 1..])
    {
      hide T.Tokens, T.ParseWords;
      StrCut(buf[..], start, s, e);
      buf[start + e] := NUL;
      ghost var cut := buf[..];
      ok := ParseCommand(env, buf, start, s[..e]);
      StrKept(cut, buf[..], start + e + 1, s[e + 1..]);
    }

    /** Runs the next command of a line, and says whether to go on behind it. */
    method ParseNext(env: T.Env, buf: array<char>, start: nat, ghost s: string)
      returns (ok: bool, more: bool, next: nat, ghost s': string)
      requires Valid() && IsStr(buf[..], start, s)
      modifies this, lpstate, iestate, buf
      ensures Valid()
      ensures more ==> ok && IsStr(buf[..], next, s') && |s'| < |s|
      ensures T.ParseLine(env, old(View()), s, start, old(trace))
           == if more then T.ParseLine(env, View(), s', next, trace) else S.Outcome(ok, View(), trace)
    {
      hide T.ParseLine, T.NextPiece, T.Tokens, T.ParseWords, IsStr;
      T.ParseLineUnfold(env, View(), s, start, trace);
      var piece := FindCommand(buf, start, s);
      loffs := start + piece.working;
      more, next, s' := false, start, s;
      match piece
      case Unmatched(_) =>
        ok := false;
      case Last(_) =>
        ok := ParseCommand(env, buf, start, s);
      case Semi(e, _) =>
        ok := ParseFirst(env, buf, start, e, s);
        more, next, s' := ok && !jump, start + e + 1, s[e + 1..];
    }

    /** Runs the commands of a line one after the other, until one fails or jumps. */
    method Parse(env: T.Env, buf: array<char>, ghost line: string) returns (ok: bool)
      requires Valid() && IsStr(buf[..], 0, line)
      modifies this, lpstate, iestate, buf
      ensures Valid()
      ensures S.Outcome(ok, View(), trace)
           == T.ParseLine(env, old(View()).(jump := false), line, 0, old(trace))
    {
      hide T.ParseLine, IsStr;
      var start, more := 0, true;
      ghost var s := line;
      jump := false;
      ghost var goal := T.ParseLine(env, View(), line, 0, trace);
      ok := true;
      while more
        invariant Valid() && (more ==> IsStr(buf[..], start, s))
        invariant goal == if more then T.ParseLine(env, View(), s, start, trace) else S.Outcome(ok, View(), trace)
        decreases more, |s|
      {
        ok, more, start, s := ParseNext(env, buf, start, s);
      }
    }

    // ----- nsh_script -----

    /** fgets */
    static method Fgets(file: string, at: int, buf: array<char>) returns (n: nat)
      requires buf.Length == T.LINELEN && NoNul(file)
      modifies buf
      ensures n == |T.Fgets(file, at)| && IsStr(buf[..], 0, T.Fgets(file, at))
    {
      n := 0;
      var more := true;
      ghost var read := "";
      ReadNothing(file, at);
      hide T.Line, NoNul, ReadSoFar, T.Fgets, IsStr;
      while more && n < T.LINELEN - 1
        invariant n == |read| < T.LINELEN && NoNul(read)
        invariant forall i :: 0 <= i < n ==> buf[i] == read[i]
        invariant ReadSoFar(file, at, read, more)
        decreases more, T.LINELEN - n
      {
        ReadStep(file, at, read);
        if 0 <= at + n < |file| {
          var c := file[at + n];
          NulStep(file, read, at + n);
          buf[n] := c;
          read := read + [c];
          more := c != '\n';
          n := n + 1;
        } else {
          more := false;
        }
      }
      buf[n] := NUL;
      IsFgets(file, at, read, more);
      StrOf(buf[..], read);
    }

    /** One round of the loop: reads a line and runs it. */
    method ReadLine(env: T.Env, file: string, buf: array<char>, ok: bool) returns (halted: bool, ok': bool)
      requires Valid() && NoNul(file) && buf.Length == T.LINELEN
      modifies this, lpstate, iestate, buf
      ensures Valid()
      ensures T.ReadLine(env, file, T.Reading(old(View()), old(trace), ok))
           == if halted then T.Halted(ok', View(), trace) else T.Reading(View(), trace, ok')
    {
      hide T.ParseLine, T.Fgets, NoNul, IsStr;
      foffs, loffs := fpos, 0;
      var length := Fgets(file, fpos, buf);
      if length > 0 {
        ghost var line := T.Fgets(file, fpos);
        fpos := fpos + length;
        ok' := Parse(env, buf, line);
        halted := !ok';
      } else {
        halted, ok' := true, ok;
      }
    }

    /** Reads and runs up to `rounds` lines of the script, and says whether that
        was the end of it. */
    method Script(env: T.Env, file: string, rounds: nat) returns (halted: bool, ok: bool)
      requires Valid() && NoNul(file)
      modifies this, lpstate, iestate
      ensures Valid() && scripted == old(scripted) && fpos == old(fpos)
      ensures var c := T.ReadLines(env, file, T.Reading(old(View()).(scripted := true, fpos := 0), old(trace), false), rounds);
        && halted == c.Halted? && ok == c.ok && trace == c.trace
        && View() == c.np.(scripted := old(scripted), fpos := old(fpos))
    {
      hide T.ReadLine, T.ReadLines, NoNul;
      var stream, position := scripted, fpos;
      scripted, fpos := true, 0;
      var buf := new char[T.LINELEN];
      halted, ok := false, false;
      var n := rounds;
      ghost var goal := T.ReadLines(env, file, T.Reading(View(), trace, ok), rounds);
      while n > 0 && !halted
        invariant Valid() && fresh(buf) && buf.Length == T.LINELEN
        invariant goal == T.ReadLines(env, file, if halted then T.Halted(ok, View(), trace) else T.Reading(View(), trace, ok), n)
      {
        ReadsStep(env, file, T.Reading(View(), trace, ok), n);
        halted, ok := ReadLine(env, file, buf, ok);
        n := n - 1;
      }
      ReadsDone(env, file, if halted then T.Halted(ok, View(), trace) else T.Reading(View(), trace, ok), n);
      scripted, fpos := stream, position;
    }
  }

  predicate NoNul(s: string) {
    forall i :: 0 <= i < |s| ==> s[i] != NUL
  }

  lemma NulStep(file: string, read: string, i: nat)
    requires NoNul(file) && NoNul(read) && i < |file|
    ensures NoNul(read + [file[i]])
  {
  }

  /** `read` has been read of the line at `at`. */
  predicate ReadSoFar(file: string, at: int, read: string, more: bool) {
    T.Line(file, at) == read + if more then T.Line(file, at + |read|) else ""
  }

  lemma ReadStep(file: string, at: int, read: string)
    requires ReadSoFar(file, at, read, true)
    ensures var i := at + |read|;
      if 0 <= i < |file| then ReadSoFar(file, at, read + [file[i]], file[i] != '\n') else ReadSoFar(file, at, read, false)
  {
    hide T.Line;
    var i := at + |read|;
    LineStep(file, i);
    if 0 <= i < |file| {
      var rest := if file[i] == '\n' then "" else T.Line(file, i + 1);
      assert T.Line(file, at) == read + ([file[i]] + rest);
      assert read + ([file[i]] + rest) == read + [file[i]] + rest;
    }
  }

  lemma LineStep(file: string, at: int)
    ensures T.Line(file, at) ==
      if at < 0 || at >= |file| then ""
      else [file[at]] + if file[at] == '\n' then "" else T.Line(file, at + 1)
  {
  }

  lemma IsFgets(file: string, at: int, read: string, more: bool)
    requires |read| < T.LINELEN && ReadSoFar(file, at, read, more)
    requires more ==> |read| == T.LINELEN - 1
    ensures T.Fgets(file, at) == read
  {
    hide T.Line;
    if more {
      var rest := T.Line(file, at + |read|);
      assert |read + rest| < T.LINELEN ==> rest == "";
      assert (read + rest)[..|read|] == read;
    }
  }

  lemma ReadNothing(file: string, at: int)
    ensures ReadSoFar(file, at, "", true)
  {
    assert "" + T.Line(file, at) == T.Line(file, at);
  }

  lemma StrOf(a: seq<char>, s: string)
    requires |s| < |a| && NoNul(s) && a[|s|] == NUL && forall i :: 0 <= i < |s| ==> a[i] == s[i]
    ensures IsStr(a, 0, s)
  {
  }

  lemma StrKept(a: seq<char>, b: seq<char>, p: int, s: string)
    requires IsStr(a, p, s) && |a| == |b| && forall i :: p <= i <= p + |s| ==> a[i] == b[i]
    ensures IsStr(b, p, s)
  {
  }

  lemma InsideStep(env: T.Env, np: S.Np, cmds: seq<string>, trace: S.Trace)
    requires np.Valid()
    ensures T.RunInside(env, np, cmds, trace) ==
      if cmds == [] then T.After(np, trace)
      else
        var o := T.CmdParm(env, np, cmds[0], trace);
        T.RunInside(env, o.np, cmds[1..], o.trace)
  {
    hide T.CmdParm;
  }

  lemma ArgsStep(env: T.Env, np: S.Np, words: S.Words, trace: S.Trace)
    requires np.Valid()
    ensures T.TakeArgs(env, np, words, trace) ==
      if words == [] then T.After(np, trace)
      else
        var r := T.RunInside(env, np, T.Inside(words[0]), trace);
        T.TakeArgs(env, r.np, words[1..], r.trace)
  {
    hide T.RunInside, T.Inside;
  }

  /** The words of a command, of which `left` have not been read yet. */
  predicate Collected(words: S.Words, argv: S.Words, left: S.Words) {
    argv + left == words && argv <= S.Clip(words) && 0 < |argv| < S.MAX_ARGV_ENTRIES
  }

  lemma CollectFirst(cmd: string, rest: S.Words)
    ensures Collected([cmd] + rest, [cmd], rest) && |S.Clip([cmd] + rest)| >= 1
  {
  }

  lemma CollectNext(words: S.Words, argv: S.Words, left: S.Words)
    requires Collected(words, argv, left) && |argv| < S.MAX_ARGV_ENTRIES - 1
    ensures left == [] ==> Collected(words, argv, [])
    ensures left != [] ==>
      && |argv| < |S.Clip(words)| && S.Clip(words)[|argv|] == left[0]
      && S.Clip(words)[|argv|..][1..] == S.Clip(words)[|argv| + 1..]
      && Collected(words, argv + [left[0]], left[1..])
  {
    if left != [] {
      assert words[|argv|] == left[0];
      assert argv + [left[0]] + left[1..] == argv + left;
    }
  }

  lemma CollectDone(words: S.Words, argv: S.Words, left: S.Words)
    requires Collected(words, argv, left) && (left == [] || |argv| >= S.MAX_ARGV_ENTRIES - 1)
    ensures S.Clip(words) == argv && 0 < |argv| < S.MAX_ARGV_ENTRIES && S.Clip(words)[|argv|..] == []
  {
  }

  lemma ReadsStep(env: T.Env, file: string, c: T.Script, n: nat)
    requires c.np.Valid() && n > 0
    ensures T.ReadLines(env, file, c, n) == T.ReadLines(env, file, T.ReadLine(env, file, c), n - 1)
  {
    hide T.ReadLine;
  }

  lemma {:induction false} ReadsDone(env: T.Env, file: string, c: T.Script, n: nat)
    requires c.np.Valid() && (c.Halted? || n == 0)
    ensures T.ReadLines(env, file, c, n) == c
    decreases n
  {
    hide T.ParseLine, T.Fgets;
    if n > 0 { ReadsDone(env, file, c, n - 1); }
  }

  lemma ExecuteClipped(run: S.Interpreter, np: S.Np, words: S.Words, trace: S.Trace)
    requires np.Valid() && words != []
    ensures 0 < |S.Clip(words)| < S.MAX_ARGV_ENTRIES
    ensures S.Execute(run, np, S.Clip(words), trace) == S.Execute(run, np, words, trace)
  {
    hide S.KindOf, S.SaveResult;
  }
}
