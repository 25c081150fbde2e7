/**
 * Who owns what in the binary loader (nuttx/binfmt): every allocation that exec
 * makes, when it is released, and the list of modules waiting for their task to
 * exit. The events are calls of exec, any step of which may fail, and exits of
 * child tasks.
 */
module BinfmtBooks {
  import opened CStrings
  import opened BinfmtArgv

  /** The steps of starting a task, in order; the copied argv is released between Init and KStack. */
  datatype Step = Tcb | Select | Stack | Init | KStack | Shm | Clone | Activate | Restore

  /** How the steps of one exec call turn out. */
  datatype World = World(
    bin: bool,           // the load structure can be allocated
    room: bool,          // the argument buffer can be allocated
    load: bool,          // the module loads
    fail: Option<Step>,  // the step at which starting the task fails, if any
    pid: nat,            // the identity of the started task
    unload: bool,        // the format's own unload operation succeeds
    unmask: bool,        // SIGCHLD can be unmasked
    handler: bool)       // the SIGCHLD handler can be installed

  /** A load structure on the unload list. */
  datatype Entry = Entry(id: nat, pid: int)

  /** Allocations are numbered below `next`; orphans are structures that nothing will release. */
  datatype Books = Books(next: nat, frees: multiset<nat>, list: seq<Entry>, orphans: set<nat>)

  function Copies(argv: Option<seq<string>>): bool {
    argv.Some? && argv.value != []
  }

  predicate CopyFails(argv: Option<seq<string>>, w: World) {
    Copies(argv) && (|argv.value| > MAX_EXEC_ARGS || !w.room)
  }

  /** The books after a module with load structure bin was to be loaded and started. */
  function Launched(k: Books, bin: nat, buffer: multiset<nat>, w: World): Books {
    var done := k.(frees := k.frees + buffer);
    if !w.load || w.fail.Some? then done.(frees := done.frees + multiset{bin})
    else if w.unmask && w.handler then done.(list := [Entry(bin, w.pid)] + k.list)
    else done.(orphans := k.orphans + {bin})
  }

  /** The books after one call of exec. */
  function Exec(k: Books, argv: Option<seq<string>>, w: World): Books {
    var bin := k.next;
    if !w.bin then k
    else if CopyFails(argv, w) then k.(next := bin + 1, frees := k.frees + multiset{bin})
    else if Copies(argv) then Launched(k.(next := bin + 2), bin, multiset{bin + 1}, w)
    else Launched(k.(next := bin + 1), bin, multiset{}, w)
  }

  /** Position of the first entry for pid, or the length when there is none. */
  function Position(list: seq<Entry>, pid: int): (i: nat)
    ensures i <= |list| && (i < |list| ==> list[i].pid == pid)
    ensures forall j :: 0 <= j < i ==> list[j].pid != pid
  {
    if list == [] || list[0].pid == pid then 0 else 1 + Position(list[1..], pid)
  }

  function Without<T>(list: seq<T>, i: nat): seq<T>
    requires i < |list|
  {
    list[..i] + list[i + 1..]
  }

  /** The books after the task pid has exited. */
  function Exited(k: Books, pid: int): Books {
    var i := Position(k.list, pid);
    if i == |k.list| then k
    else k.(list := Without(k.list, i), frees := k.frees + multiset{k.list[i].id})
  }

  datatype Event = Call(argv: Option<seq<string>>, world: World) | Exit(pid: int)

  function Handle(k: Books, e: Event): Books {
    match e
    case Call(argv, world) => Exec(k, argv, world)
    case Exit(pid) => Exited(k, pid)
  }

  function Run(k: Books, es: seq<Event>): Books
    decreases |es|
  {
    if es == [] then k else Run(Handle(k, es[0]), es[1..])
  }

  // -------- exactly once --------

  predicate Listed(list: seq<Entry>, id: nat) {
    exists i :: 0 <= i < |list| && list[i].id == id
  }

  /** Is the allocation id still in use? */
  predicate Held(k: Books, id: nat) {
    Listed(k.list, id) || id in k.orphans
  }

  predicate Distinct(list: seq<Entry>) {
    forall i, j :: 0 <= i < j < |list| ==> list[i].id != list[j].id
  }

  /**
   * Every allocation was released exactly once, except the load structures on the
   * unload list, each there once, and the orphans, which were never released.
   */
  ghost predicate Balanced(k: Books) {
    Distinct(k.list) && forall id: nat :: Accounted(k, id)
  }

  predicate Accounted(k: Books, id: nat) {
    && !(Listed(k.list, id) && id in k.orphans)
    && (Held(k, id) ==> id < k.next)
    && k.frees[id] == if id < k.next && !Held(k, id) then 1 else 0
  }

  lemma ListedFirst(e: Entry, list: seq<Entry>, id: nat)
    ensures Listed([e] + list, id) <==> e.id == id || Listed(list, id)
  {
    var all := [e] + list;
    if Listed(list, id) {
      var i :| 0 <= i < |list| && list[i].id == id;
      assert all[i + 1].id == id;
    }
    if Listed(all, id) {
      var i :| 0 <= i < |all| && all[i].id == id;
      if i > 0 {
        assert list[i - 1].id == id;
      }
    }
    assert all[0] == e;
  }

  lemma ListedWithout(list: seq<Entry>, i: nat, id: nat)
    requires i < |list| && Distinct(list)
    ensures Listed(Without(list, i), id) <==> Listed(list, id) && id != list[i].id
  {
    var less := Without(list, i);
    if Listed(less, id) {
      var j :| 0 <= j < |less| && less[j].id == id;
      assert less[j] == list[if j < i then j else j + 1];
    }
    if Listed(list, id) && id != list[i].id {
      var j :| 0 <= j < |list| && list[j].id == id;
      assert less[if j < i then j else j - 1] == list[j];
    }
  }

  lemma DistinctWithout(list: seq<Entry>, i: nat)
    requires i < |list| && Distinct(list)
    ensures Distinct(Without(list, i))
  {
    var less := Without(list, i);
    forall a, b | 0 <= a < b < |less|
      ensures less[a].id != less[b].id
    {
      assert less[a] == list[if a < i then a else a + 1];
      assert less[b] == list[if b < i then b else b + 1];
    }
  }

  lemma ExecBalanced(k: Books, argv: Option<seq<string>>, w: World)
    requires Balanced(k)
    ensures Balanced(Exec(k, argv, w))
  {
    var after := Exec(k, argv, w);
    assert Accounted(k, k.next) && Accounted(k, k.next + 1);
    forall id: nat
      ensures Accounted(after, id)
    {
      assert Accounted(k, id);
      ListedFirst(Entry(k.next, w.pid), k.list, id);
    }
    forall i | 0 <= i < |k.list|
      ensures k.list[i].id != k.next
    {
      assert Listed(k.list, k.list[i].id);
    }
  }

  lemma ExitedBalanced(k: Books, pid: int)
    requires Balanced(k)
    ensures Balanced(Exited(k, pid))
  {
    var i := Position(k.list, pid);
    if i < |k.list| {
      assert Listed(k.list, k.list[i].id) && Accounted(k, k.list[i].id);
      DistinctWithout(k.list, i);
      forall id: nat
        ensures Accounted(Exited(k, pid), id)
      {
        assert Accounted(k, id);
        ListedWithout(k.list, i, id);
      }
    }
  }

  /** Over every run of calls and exits, nothing is released twice and nothing is lost but the orphans. */
  lemma {:induction false} RunBalanced(k: Books, es: seq<Event>)
    requires Balanced(k)
    ensures Balanced(Run(k, es))
    decreases |es|
  {
    if es != [] {
      match es[0] {
        case Call(argv, world) => ExecBalanced(k, argv, world);
        case Exit(pid) => ExitedBalanced(k, pid);
      }
      RunBalanced(Handle(k, es[0]), es[1..]);
    }
  }

  /** A call that starts its task but cannot have it unloaded later. */
  predicate Orphans(e: Event) {
    && e.Call? && e.world.bin && !CopyFails(e.argv, e.world) && e.world.load && e.world.fail.None?
    && !(e.world.unmask && e.world.handler)
  }

  /** Is id the load structure of a call in the run that orphans it? */
  predicate OrphanedIn(k: Books, es: seq<Event>, id: nat) {
    exists i :: 0 <= i < |es| && Orphans(es[i]) && Run(k, es[..i]).next == id
  }

  /** The orphans are exactly the structures of such calls. */
  lemma {:induction false} OrphansExactly(k: Books, es: seq<Event>, id: nat)
    ensures id in Run(k, es).orphans <==> id in k.orphans || OrphanedIn(k, es, id)
    decreases |es|
  {
    if es != [] {
      var after, rest := Handle(k, es[0]), es[1..];
      OrphansExactly(after, rest, id);
      assert id in after.orphans <==> id in k.orphans || (Orphans(es[0]) && k.next == id);
      assert es[..0] == [];
      if Orphans(es[0]) && k.next == id { assert Run(k, es[..0]).next == id; }
      if OrphanedIn(after, rest, id) {
        var i :| 0 <= i < |rest| && Orphans(rest[i]) && Run(after, rest[..i]).next == id;
        RunFrom(k, es, i + 1);
      }
      if OrphanedIn(k, es, id) {
        var i :| 0 <= i < |es| && Orphans(es[i]) && Run(k, es[..i]).next == id;
        if i > 0 {
          RunFrom(k, es, i);
          assert Orphans(rest[i - 1]);
        }
      }
    }
  }

  lemma RunFrom(k: Books, es: seq<Event>, i: nat)
    requires 0 < i <= |es|
    ensures Run(k, es[..i]) == Run(Handle(k, es[0]), es[1..][..i - 1])
  {
    assert es[..i][0] == es[0] && es[..i][1..] == es[1..][..i - 1];
  }

  // -------- every started task is waited for under its own identity --------

  /** A call that starts its task and has it unloaded when it exits. */
  predicate Schedules(e: Event) {
    && e.Call? && e.world.bin && !CopyFails(e.argv, e.world) && e.world.load && e.world.fail.None?
    && e.world.unmask && e.world.handler
  }

  /** From the call to the exit of its task: the structure waits under the identity of the task, and is then freed. */
  lemma StartAndExit(k: Books, argv: Option<seq<string>>, w: World)
    requires Schedules(Call(argv, w))
    ensures var m := Exec(k, argv, w);
            && m.list == [Entry(k.next, w.pid)] + k.list && m.frees[k.next] == k.frees[k.next]
            && Exited(m, w.pid) == m.(list := k.list, frees := m.frees + multiset{k.next})
  {
    var m := Exec(k, argv, w);
    assert Position(m.list, w.pid) == 0;
    assert Without(m.list, 0) == k.list;
  }

  /** With nothing else in the way, a task is started exactly if it has at most 256 arguments. */
  lemma StartedExactly(k: Books, argv: Option<seq<string>>, w: World)
    requires w.bin && w.room && w.load && w.fail.None? && w.unmask && w.handler
    ensures Exec(k, argv, w).list == k.list <==> argv.Some? && |argv.value| > 256
  {
    if Schedules(Call(argv, w)) {
      StartAndExit(k, argv, w);
      assert |Exec(k, argv, w).list| == |k.list| + 1;
    }
  }

  /** The tasks that are waited for after a run of events: a call adds its task, an exit takes one away. */
  function Waiting(tasks: multiset<int>, es: seq<Event>): multiset<int>
    decreases |es|
  {
    if es == [] then tasks
    else
      match es[0]
      case Call(_, world) => Waiting(if Schedules(es[0]) then tasks + multiset{world.pid} else tasks, es[1..])
      case Exit(pid) => Waiting(tasks - multiset{pid}, es[1..])
  }

  lemma Unscheduled(k: Books, e: Event)
    requires e.Call? && !Schedules(e)
    ensures Handle(k, e).list == k.list
  {
  }

  lemma ExecPids(k: Books, e: Event)
    requires e.Call?
    ensures var pids := multiset(Pids(k.list));
            multiset(Pids(Handle(k, e).list)) == if Schedules(e) then pids + multiset{e.world.pid} else pids
  {
    hide Schedules, Exec, Exited;
    if Schedules(e) {
      StartAndExit(k, e.argv, e.world);
      assert Pids(Handle(k, e).list) == [e.world.pid] + Pids(k.list);
    } else {
      Unscheduled(k, e);
    }
  }

  lemma ExitedPids(k: Books, pid: int)
    ensures multiset(Pids(Exited(k, pid).list)) == multiset(Pids(k.list)) - multiset{pid}
  {
    var i := Position(k.list, pid);
    if i < |k.list| {
      PidsWithout(k.list, i);
    } else {
      assert pid !in multiset(Pids(k.list));
    }
  }

  /** Over every run, the unload list holds exactly the tasks that were started and have not exited. */
  lemma {:induction false} WaitingExactly(k: Books, es: seq<Event>)
    ensures multiset(Pids(Run(k, es).list)) == Waiting(multiset(Pids(k.list)), es)
    decreases |es|
  {
    hide Exec, Exited, Pids, Schedules;
    if es != [] {
      if es[0].Call? { ExecPids(k, es[0]); } else { ExitedPids(k, es[0].pid); }
      WaitingExactly(Handle(k, es[0]), es[1..]);
    }
  }

  /** The tasks that are started and scheduled in a run, and those that exit. */
  function Started(es: seq<Event>): multiset<int> {
    if es == [] then multiset{}
    else (if Schedules(es[0]) then multiset{es[0].world.pid} else multiset{}) + Started(es[1..])
  }

  function Gone(es: seq<Event>): multiset<int> {
    if es == [] then multiset{}
    else (if es[0].Exit? then multiset{es[0].pid} else multiset{}) + Gone(es[1..])
  }

  /** Only tasks that are running exit. */
  predicate Causal(tasks: multiset<int>, es: seq<Event>)
    decreases |es|
  {
    es != [] ==>
      match es[0]
      case Call(_, world) => Causal(if Schedules(es[0]) then tasks + multiset{world.pid} else tasks, es[1..])
      case Exit(pid) => pid in tasks && Causal(tasks - multiset{pid}, es[1..])
  }

  lemma Regroup(a: multiset<int>, b: multiset<int>, c: multiset<int>, d: multiset<int>, one: multiset<int>)
    requires one <= c && a + b == c - one + d
    ensures a + (one + b) == c + d
  {
    assert a + (one + b) == a + b + one;
    assert c - one + d + one == c + d;
  }

  lemma {:induction false} WaitingIs(tasks: multiset<int>, es: seq<Event>)
    requires Causal(tasks, es)
    ensures Waiting(tasks, es) + Gone(es) == tasks + Started(es)
    decreases |es|
  {
    if es != [] {
      var rest := es[1..];
      assert es[0].Exit? ==> !Schedules(es[0]);
      hide Schedules;
      if es[0].Exit? {
        WaitingIs(tasks - multiset{es[0].pid}, rest);
        assert Gone(es) == multiset{es[0].pid} + Gone(rest) && Started(es) == Started(rest);
        Regroup(Waiting(tasks, es), Gone(rest), tasks, Started(rest), multiset{es[0].pid});
      } else {
        assert Gone(es) == Gone(rest);
        if Schedules(es[0]) {
          WaitingIs(tasks + multiset{es[0].world.pid}, rest);
        } else {
          WaitingIs(tasks, rest);
          assert Started(es) == Started(rest);
        }
      }
    }
  }

  /** When the tasks that were started have exited, in whatever order and between whatever other calls, the unload
      list is empty. */
  lemma AllExit(k: Books, es: seq<Event>)
    requires k.list == [] && Causal(multiset{}, es) && Gone(es) == Started(es)
    ensures Run(k, es).list == []
  {
    assert multiset(Pids(k.list)) == multiset{};
    WaitingExactly(k, es);
    WaitingIs(multiset{}, es);
    var list, left := Run(k, es).list, Waiting(multiset{}, es);
    assert left + Gone(es) == Gone(es);
    assert |left + Gone(es)| == |left| + |Gone(es)|;
    assert |multiset(Pids(list))| == |list|;
  }

  /** The only structure that waits for pid is id. */
  predicate WaitsAlone(list: seq<Entry>, id: nat, pid: int) {
    exists i ::
      && 0 <= i < |list| && list[i] == Entry(id, pid)
      && forall j :: 0 <= j < |list| && j != i ==> list[j].pid != pid
  }

  /** Another task is started or exits. */
  predicate Other(e: Event, pid: int) {
    match e
    case Call(_, world) => world.pid != pid
    case Exit(p) => p != pid
  }

  lemma OtherAdded(list: seq<Entry>, e: Entry, id: nat, pid: int)
    requires WaitsAlone(list, id, pid) && e.pid != pid
    ensures WaitsAlone([e] + list, id, pid)
  {
    var i :| 0 <= i < |list| && list[i] == Entry(id, pid)
             && forall j :: 0 <= j < |list| && j != i ==> list[j].pid != pid;
    var all := [e] + list;
    assert all[i + 1] == Entry(id, pid);
    assert forall j :: 1 <= j < |all| ==> all[j] == list[j - 1];
  }

  lemma OtherRemoved(list: seq<Entry>, p: nat, id: nat, pid: int)
    requires WaitsAlone(list, id, pid) && p < |list| && list[p].pid != pid
    ensures WaitsAlone(Without(list, p), id, pid)
  {
    var i :| 0 <= i < |list| && list[i] == Entry(id, pid)
             && forall j :: 0 <= j < |list| && j != i ==> list[j].pid != pid;
    var less := Without(list, p);
    assert forall j :: 0 <= j < |less| ==> less[j] == list[if j < p then j else j + 1];
    assert less[if i < p then i else i - 1] == Entry(id, pid);
  }

  lemma OtherKeeps(k: Books, e: Event, id: nat, pid: int)
    requires WaitsAlone(k.list, id, pid) && Other(e, pid)
    ensures WaitsAlone(Handle(k, e).list, id, pid)
  {
    hide Exec, Schedules, WaitsAlone, Without;
    if e.Exit? {
      var p := Position(k.list, e.pid);
      if p < |k.list| { OtherRemoved(k.list, p, id, pid); }
    } else if Schedules(e) {
      StartAndExit(k, e.argv, e.world);
      OtherAdded(k.list, Entry(k.next, e.world.pid), id, pid);
    } else {
      Unscheduled(k, e);
    }
  }

  lemma {:induction false} OthersKeep(k: Books, es: seq<Event>, id: nat, pid: int)
    requires WaitsAlone(k.list, id, pid) && forall i :: 0 <= i < |es| ==> Other(es[i], pid)
    ensures WaitsAlone(Run(k, es).list, id, pid)
    decreases |es|
  {
    hide Handle, WaitsAlone, Other;
    if es != [] {
      OtherKeeps(k, es[0], id, pid);
      OthersKeep(Handle(k, es[0]), es[1..], id, pid);
    }
  }

  /** A task gets back its own structure when it exits, whatever other tasks do in the meantime. */
  lemma OwnStructure(k: Books, argv: Option<seq<string>>, w: World, es: seq<Event>)
    requires Schedules(Call(argv, w)) && (forall i :: 0 <= i < |k.list| ==> k.list[i].pid != w.pid)
    requires forall i :: 0 <= i < |es| ==> Other(es[i], w.pid)
    ensures var m := Run(Exec(k, argv, w), es);
            Exited(m, w.pid).frees == m.frees + multiset{k.next} && w.pid !in Pids(Exited(m, w.pid).list)
  {
    hide Exec, Other, Schedules, Run;
    StartAndExit(k, argv, w);
    var n := Exec(k, argv, w);
    assert n.list[0] == Entry(k.next, w.pid) && forall j :: 1 <= j < |n.list| ==> n.list[j] == k.list[j - 1];
    assert WaitsAlone(n.list, k.next, w.pid);
    OthersKeep(n, es, k.next, w.pid);
    hide Exited, WaitsAlone;
    OwnExit(Run(n, es), k.next, w.pid);
  }

  lemma OwnExit(k: Books, id: nat, pid: int)
    requires WaitsAlone(k.list, id, pid)
    ensures Exited(k, pid).frees == k.frees + multiset{id} && pid !in Pids(Exited(k, pid).list)
  {
    var i :| 0 <= i < |k.list| && k.list[i] == Entry(id, pid)
             && forall j :: 0 <= j < |k.list| && j != i ==> k.list[j].pid != pid;
    assert Position(k.list, pid) == i;
    var less := Without(k.list, i);
    assert forall j :: 0 <= j < |less| ==> less[j] == k.list[if j < i then j else j + 1];
  }

  function Pids(list: seq<Entry>): (r: seq<int>)
    ensures |r| == |list|
    ensures forall i :: 0 <= i < |list| ==> r[i] == list[i].pid
  {
    seq(|list|, i requires 0 <= i < |list| => list[i].pid)
  }

  lemma PidsWithout(list: seq<Entry>, i: nat)
    requires i < |list|
    ensures multiset(Pids(Without(list, i))) == multiset(Pids(list)) - multiset{list[i].pid}
  {
    var p := Pids(list);
    assert Pids(Without(list, i)) == p[..i] + p[i + 1..];
    assert p == p[..i] + [p[i]] + p[i + 1..];
  }
}
