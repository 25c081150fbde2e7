/** The NSH parser state (`struct nsh_parser_s`) and the effect on it of one
    command that has already been split into words, none of which has to be
    expanded before the parser has dealt with it.

    A command is the sequence of its words; the empty sequence is what the C
    code sees as a NULL `cmd`.  Everything the commands themselves do is left
    to an interpreter: a function from the commands run so far and the command
    about to be run to "did it fail?".  An interpreter that is deterministic in
    some environment is such a function, because the environment is determined
    by the initial one and by the commands run so far.
 */
module NshState {

  datatype LoopState = LoopNormal | LoopWhile | LoopUntil | LoopDo

  datatype ItefState = ItefNormal | ItefIf | ItefThen | ItefElse

  /** One level of `np_lpstate`. */
  datatype LoopLevel = LoopLevel(state: LoopState, enable: bool, iendx: nat, topoffs: int)

  /** One level of `np_iestate`. */
  datatype ItefLevel = ItefLevel(state: ItefState, disabled: bool, ifcond: bool)
  {
    predicate InBranch() {
      state == ItefThen || state == ItefElse
    }
  }

  /** `struct nsh_parser_s`.  `fpos` is the file position of `np_stream`;
      `scripted` says that `np_stream` is not NULL. */
  datatype Np = Np(
    fail: bool,
    scripted: bool, fpos: int, foffs: int, loffs: nat, jump: bool,
    lpndx: nat, lp: seq<LoopLevel>,
    iendx: nat, ie: seq<ItefLevel>)
  {
    /** CONFIG_NSH_NESTDEPTH is the common length of the two stacks. */
    predicate Valid() {
      && |lp| == |ie|
      && lpndx < |lp|
      && iendx < |ie|
      && forall i :: 0 <= i < |lp| ==> lp[i].iendx < |ie|
    }

    function Loop(): LoopLevel
      requires lpndx < |lp|
    {
      lp[lpndx]
    }

    function Itef(): ItefLevel
      requires iendx < |ie|
    {
      ie[iendx]
    }

    /** nsh_parse.c waits for the condition of a loop. */
    predicate InLoopHeader()
      requires lpndx < |lp|
    {
      Loop().state == LoopWhile || Loop().state == LoopUntil
    }

    predicate LoopEnabled()
      requires lpndx < |lp|
    {
      Loop().state == LoopDo ==> Loop().enable
    }

    predicate ItefEnabled()
      requires iendx < |ie|
    {
      && !Itef().disabled
      && (Itef().state == ItefThen ==> !Itef().ifcond)
      && (Itef().state == ItefElse ==> Itef().ifcond)
    }

    predicate CmdEnabled()
      requires lpndx < |lp| && iendx < |ie|
    {
      LoopEnabled() && ItefEnabled()
    }
  }

  type Words = seq<string>

  /** A command as the interpreter sees it; `fail` is the value of `$?`. */
  datatype Call = Call(words: Words, fail: bool)

  type Trace = seq<Call>

  /** True when the command fails. */
  type Interpreter = (Trace, Call) -> bool

  /** MAX_ARGV_ENTRIES without background commands: CONFIG_NSH_MAXARGUMENTS and
      four more, whatever the configuration says. */
  type ArgvSize = n: nat | n >= 4 witness 4

  const MAX_ARGV_ENTRIES: ArgvSize

  /** Words past the end of `argv` are never parsed. */
  function Clip(words: Words): (r: Words)
    ensures r <= words
  {
    if |words| < MAX_ARGV_ENTRIES then words else words[..MAX_ARGV_ENTRIES - 1]
  }

  /** OK or ERROR, with the state and the trace afterwards. */
  datatype Outcome = Outcome(ok: bool, np: Np, trace: Trace)

  /** What the parser makes of the first word of a command. */
  datatype Kind = While | Until | Do | Done | If | Then | Else | Fi | Break | Plain

  function KindOf(w: string): Kind {
    if w == "while" then While
    else if w == "until" then Until
    else if w == "do" then Do
    else if w == "done" then Done
    else if w == "if" then If
    else if w == "then" then Then
    else if w == "else" then Else
    else if w == "fi" then Fi
    else if w == "break" then Break
    else Plain
  }

  /** The words of a command that is left to the interpreter. */
  predicate Simple(words: Words) {
    words != [] && KindOf(words[0]) == Plain
  }

  // ----- nsh_saveresult -----

  function SaveResult(np: Np, failed: bool): (r: (Np, bool))
    requires np.Valid()
    ensures r.0.Valid() && |r.0.lp| == |np.lp|
  {
    if np.Loop().state == LoopWhile then
      (np.(fail := false, lp := np.lp[np.lpndx := np.Loop().(enable := !failed)]), true)
    else if np.Loop().state == LoopUntil then
      (np.(fail := false, lp := np.lp[np.lpndx := np.Loop().(enable := failed)]), true)
    else if np.Itef().state == ItefIf then
      (np.(fail := false, ie := np.ie[np.iendx := np.Itef().(ifcond := failed)]), true)
    else
      (np.(fail := failed), !failed)
  }

  // ----- nsh_loop and nsh_itef -----

  /** What is left of the command once its leading keyword has been handled,
      or the reset state after a syntax error. */
  datatype Keyword = Go(np: Np, rest: Words) | Bad(np: Np)

  function LoopReset(np: Np): (r: Np)
    requires np.Valid()
    ensures r.Valid() && |r.lp| == |np.lp|
  {
    np.(jump := false, lpndx := 0,
        lp := np.lp[0 := np.lp[0].(state := LoopNormal, enable := true, topoffs := 0)])
  }

  function PushLoop(np: Np, state: LoopState): (r: Np)
    requires np.Valid() && np.lpndx + 1 < |np.lp|
    ensures r.Valid() && |r.lp| == |np.lp|
  {
    np.(jump := false, lpndx := np.lpndx + 1,
        lp := np.lp[np.lpndx + 1 := LoopLevel(state, np.CmdEnabled(), np.iendx, np.foffs + np.loffs)])
  }

  function PopLoop(np: Np): (r: Np)
    requires np.Valid() && np.lpndx > 0
    ensures r.Valid() && |r.lp| == |np.lp|
  {
    var top := np.Loop();
    if top.enable then
      np.(fpos := top.topoffs, jump := true, lpndx := np.lpndx - 1,
          lp := np.lp[np.lpndx := top.(state := LoopNormal)])
    else
      np.(lpndx := np.lpndx - 1,
          lp := np.lp[np.lpndx := top.(state := LoopNormal, enable := true)])
  }

  /** The context in which "while" and "until" are accepted. */
  predicate LoopAllowed(np: Np)
    requires np.Valid()
  {
    && np.Itef().state != ItefIf && !np.InLoopHeader()
    && np.scripted && np.foffs >= 0
    && np.lpndx < |np.lp| - 1
  }

  function LoopStep(np: Np, words: Words): (r: Keyword)
    requires np.Valid()
    ensures r.np.Valid() && |r.np.lp| == |np.lp|
  {
    if words == [] then
      Go(np, words)
    else
      match KindOf(words[0])
      case While =>
        if words[1..] == [] || !LoopAllowed(np) then Bad(LoopReset(np))
        else Go(PushLoop(np, LoopWhile), words[1..])
      case Until =>
        if words[1..] == [] || !LoopAllowed(np) then Bad(LoopReset(np))
        else Go(PushLoop(np, LoopUntil), words[1..])
      case Do =>
        if !np.InLoopHeader() then Bad(LoopReset(np))
        else Go(np.(lp := np.lp[np.lpndx := np.Loop().(state := LoopDo)]), words[1..])
      case Done =>
        if words[1..] != [] || np.Loop().state != LoopDo || np.lpndx < 1 then Bad(LoopReset(np))
        else Go(PopLoop(np), [])
      case _ =>
        if np.InLoopHeader() then Bad(LoopReset(np)) else Go(np, words)
  }

  function ItefReset(np: Np): (r: Np)
    requires np.Valid()
    ensures r.Valid() && |r.lp| == |np.lp|
  {
    np.(iendx := 0, ie := np.ie[0 := ItefLevel(ItefNormal, false, false)])
  }

  /** What nsh_itef makes of the `if` stack.  `enabled` is nsh_cmdenabled. */
  datatype ItefOut = ItefGo(ie: seq<ItefLevel>, iendx: nat, rest: Words) | ItefBad

  function ItefNext(ie: seq<ItefLevel>, iendx: nat, enabled: bool, words: Words): (r: ItefOut)
    requires iendx < |ie|
    ensures r.ItefGo? ==> r.iendx < |ie| == |r.ie|
  {
    var top := ie[iendx];
    if words == [] then
      ItefGo(ie, iendx, words)
    else
      match KindOf(words[0])
      case If =>
        if words[1..] == [] || top.state == ItefIf || iendx >= |ie| - 1 then ItefBad
        else ItefGo(ie[iendx + 1 := ItefLevel(ItefIf, !enabled, false)], iendx + 1, words[1..])
      case Then =>
        if top.state != ItefIf then ItefBad
        else ItefGo(ie[iendx := top.(state := ItefThen)], iendx, words[1..])
      case Else =>
        if top.state != ItefThen then ItefBad
        else ItefGo(ie[iendx := top.(state := ItefElse)], iendx, words[1..])
      case Fi =>
        if words[1..] != [] || !top.InBranch() || iendx < 1 then ItefBad
        else ItefGo(ie, iendx - 1, [])
      case _ =>
        if top.state == ItefIf then ItefBad else ItefGo(ie, iendx, words)
  }

  function ItefStep(np: Np, words: Words): (r: Keyword)
    requires np.Valid()
    ensures r.np.Valid() && |r.np.lp| == |np.lp|
  {
    match ItefNext(np.ie, np.iendx, np.CmdEnabled(), words)
    case ItefBad => Bad(ItefReset(np))
    case ItefGo(ie, iendx, rest) => Go(np.(ie := ie, iendx := iendx), rest)
  }

  // ----- cmd_break, nsh_execute and nsh_parse_command -----

  function BreakStep(np: Np): (r: Np)
    requires np.Valid()
    ensures r.Valid() && |r.lp| == |np.lp|
  {
    if np.Loop().state == LoopDo then
      np.(iendx := np.Loop().iendx, lp := np.lp[np.lpndx := np.Loop().(enable := false)])
    else
      np
  }

  function Saved(np: Np, failed: bool, trace: Trace): Outcome
    requires np.Valid()
  {
    Outcome(SaveResult(np, failed).1, SaveResult(np, failed).0, trace)
  }

  function Execute(run: Interpreter, np: Np, words: Words, trace: Trace): Outcome
    requires np.Valid() && words != []
  {
    if KindOf(words[0]) == Break then
      Saved(BreakStep(np), false, trace)
    else
      var call := Call(Clip(words), np.fail);
      Saved(np, run(trace, call), trace + [call])
  }

  /** Runs the command if commands are enabled here. */
  function Dispatch(run: Interpreter, np: Np, words: Words, trace: Trace): Outcome
    requires np.Valid()
  {
    if words == [] || !np.CmdEnabled() then Outcome(true, np, trace)
    else Execute(run, np, words, trace)
  }

  function ParseCommand(run: Interpreter, np: Np, words: Words, trace: Trace): (o: Outcome)
    requires np.Valid()
    ensures o.np.Valid() && |o.np.lp| == |np.lp| && trace <= o.trace
  {
    match LoopStep(np, words)
    case Bad(np1) => Saved(np1, true, trace)
    case Go(np1, rest) =>
      match ItefStep(np1, rest)
      case Bad(np2) => Saved(np2, true, trace)
      case Go(np2, rest2) => Dispatch(run, np2, rest2, trace)
  }
}
