/**
 * The loader's operations (nuttx/binfmt: binfmt_exec.c, binfmt_execmodule.c,
 * binfmt_unloadmodule.c and binfmt_schedunload.c), with the unload list as the
 * linked structure it is and every release recorded.
 */
module BinfmtExec {
  import opened CStrings
  import opened BinfmtArgv
  import B = BinfmtBooks

  const ERROR := -1

  /** The load structure; its fields that matter for ownership. */
  class Binary {
    const id: nat
    var argv: Option<ArgBuffer>
    var argbuffer: Option<nat>
    var pid: int
    var flink: Binary?

    constructor (id: nat)
      ensures this.id == id && argv == None && argbuffer == None && flink == null
    {
      this.id, argv, argbuffer, pid, flink := id, None, None, 0, null;
    }
  }

  /** The nodes of a list, in order, from its head on. */
  ghost predicate Linked(head: Binary?, nodes: seq<Binary>)
    reads nodes
  {
    && (if nodes == [] then head == null else head == nodes[0] && nodes[|nodes| - 1].flink == null)
    && (forall i :: 0 <= i < |nodes| - 1 ==> nodes[i].flink == nodes[i + 1])
    && (forall i, j :: 0 <= i < j < |nodes| ==> nodes[i] != nodes[j])
  }

  ghost function Entries(nodes: seq<Binary>): (r: seq<B.Entry>)
    reads nodes
    ensures |r| == |nodes|
    ensures forall i :: 0 <= i < |nodes| ==> r[i] == B.Entry(nodes[i].id, nodes[i].pid)
  {
    if nodes == [] then [] else [B.Entry(nodes[0].id, nodes[0].pid)] + Entries(nodes[1..])
  }

  /** The allocation that a load structure still owns for its arguments. */
  function Owned(argbuffer: Option<nat>): multiset<nat> {
    if argbuffer.Some? then multiset{argbuffer.value} else multiset{}
  }

  /** What the new task gets to see of the caller's list: an empty list is not passed on. */
  function Passed(argv: Option<seq<string>>): Option<seq<string>> {
    if B.Copies(argv) then argv else None
  }

  class Loader {
    var next: nat
    var frees: multiset<nat>
    var head: Binary?
    ghost var list: seq<Binary>
    ghost var orphans: set<nat>

    ghost predicate Valid()
      reads this`head, this`list, list
    {
      Linked(head, list) && forall b :: b in list ==> b.argbuffer == None
    }

    ghost function View(): B.Books
      reads this, list
    {
      B.Books(next, frees, Entries(list), orphans)
    }

    constructor ()
      ensures Valid() && View() == B.Books(0, multiset{}, [], {})
    {
      next, frees, head, list, orphans := 0, multiset{}, null, [], {};
    }

    /** kmm_malloc: the number of a new allocation */
    method Malloc() returns (id: nat)
      modifies this`next
      ensures id == old(next) && next == id + 1
    {
      id := next;
      next := next + 1;
    }

    /** kmm_free */
    method Free(id: nat)
      modifies this`frees
      ensures frees == old(frees) + multiset{id}
    {
      frees := frees + multiset{id};
    }

    /** binfmt_freeargv: may be called any number of times */
    method FreeArgv(bin: Binary)
      modifies this`frees, bin`argbuffer, bin`argv
      ensures bin.argbuffer == None && bin.argv == None
      ensures frees == old(frees) + Owned(old(bin.argbuffer))
    {
      if bin.argbuffer.Some? {
        Free(bin.argbuffer.value);
      }
      bin.argbuffer := None;
      bin.argv := None;
    }

    method UnloadModule(bin: Binary, unload: bool) returns (ret: int)
      modifies this`frees, bin`argbuffer, bin`argv
      ensures ret == if unload then OK else ERROR
      ensures if unload then bin.argbuffer == None else bin.argbuffer == old(bin.argbuffer)
      ensures frees + Owned(bin.argbuffer) == old(frees) + Owned(old(bin.argbuffer))
    {
      if !unload {
        return ERROR;
      }
      FreeArgv(bin);
      return OK;
    }

    /** The argument list that a load structure holds, as it can be read back. */
    ghost predicate Carries(bin: Binary, argv: Option<seq<string>>)
      reads bin, if bin.argv.Some? then {bin.argv.value.table, bin.argv.value.mem} else {}
    {
      if B.Copies(argv) then bin.argv.Some?
        && ReadArgv(bin.argv.value.table[..], bin.argv.value.mem[..], 0) == argv.value
      else bin.argv == None
    }

    /** Starts the task; `seen` is the argument list that its initialisation reads. */
    method ExecModule(bin: Binary, ghost argv: Option<seq<string>>, w: B.World)
      returns (ret: int, seen: Option<seq<string>>)
      requires Carries(bin, argv)
      modifies this`frees, bin`argbuffer, bin`argv
      ensures ret == if w.fail.Some? then ERROR else w.pid
      ensures ret >= 0 ==> seen == Passed(argv)
      ensures w.fail.None? ==> bin.argbuffer == None
      ensures frees + Owned(bin.argbuffer) == old(frees) + Owned(old(bin.argbuffer))
    {
      seen := None;
      if w.fail.Some? && (w.fail.value.Tcb? || w.fail.value.Select? || w.fail.value.Stack?) {
        return ERROR, None;
      }
      if bin.argv.Some? {
        seen := Some(ReadArgv(bin.argv.value.table[..], bin.argv.value.mem[..], 0));
      }
      if w.fail.Some? && w.fail.value.Init? {
        return ERROR, seen;
      }
      FreeArgv(bin);
      if w.fail.Some? && (w.fail.value.KStack? || w.fail.value.Shm? || w.fail.value.Clone?) {
        return ERROR, seen;
      }
      if w.fail.Some? && (w.fail.value.Activate? || w.fail.value.Restore?) {
        return ERROR, seen;
      }
      return w.pid, seen;
    }

    method UnloadListAdd(pid: int, bin: Binary)
      requires Valid() && bin !in list && bin.argbuffer == None
      modifies this`head, this`list, bin`pid, bin`flink
      ensures Valid() && list == [bin] + old(list)
      ensures Entries(list) == [B.Entry(bin.id, pid)] + old(Entries(list))
    {
      hide Entries;
      ghost var was, entries := list, Entries(list);
      bin.pid := pid;
      bin.flink := head;
      head := bin;
      list := [bin] + list;
      assert forall i :: 0 < i < |list| ==> list[i] == was[i - 1];
      assert Entries(list) == [B.Entry(bin.id, pid)] + entries;
    }

    /** The first structure with that pid, and the one before it. */
    method Find(pid: int) returns (prev: Binary?, curr: Binary?)
      requires Valid()
      ensures var i := B.Position(Entries(list), pid);
              && curr == (if i < |list| then list[i] else null)
              && prev == if i == 0 then null else list[i - 1]
    {
      prev := null;
      curr := head;
      ghost var i := 0;
      while curr != null && curr.pid != pid
        invariant 0 <= i <= |list|
        invariant curr == if i < |list| then list[i] else null
        invariant prev == if i == 0 then null else list[i - 1]
        invariant forall j :: 0 <= j < i ==> list[j].pid != pid
        decreases |list| - i
      {
        prev := curr;
        curr := curr.flink;
        i := i + 1;
      }
      PositionIs(Entries(list), pid, i);
    }

    /** Takes the structure at position i out of the list. */
    method Unlink(prev: Binary?, curr: Binary, ghost i: nat)
      requires Valid() && i < |list| && curr == list[i] && prev == if i == 0 then null else list[i - 1]
      modifies this`head, this`list, list`flink
      ensures Valid() && list == B.Without(old(list), i) && curr !in list
      ensures Entries(list) == B.Without(old(Entries(list)), i) && curr.argbuffer == None
    {
      hide Entries, B.Without;
      ghost var all, entries := list, Entries(list);
      if prev != null {
        prev.flink := curr.flink;
      } else {
        head := curr.flink;
      }
      curr.flink := null;
      list := B.Without(all, i);
      Relinked(head, all, i);
      EntriesWithout(all, entries, i);
    }

    /** Unlinks the first structure with that pid, and only that one. */
    method UnloadListRemove(pid: int) returns (curr: Binary?)
      requires Valid()
      modifies this`head, this`list, list`flink
      ensures Valid()
      ensures var i := B.Position(old(Entries(list)), pid);
              if i == |old(list)| then curr == null && list == old(list) && Entries(list) == old(Entries(list))
              else curr == old(list)[i] && curr !in list && list == B.Without(old(list), i)
                   && Entries(list) == B.Without(old(Entries(list)), i) && curr.argbuffer == None
    {
      hide B.Position, B.Without, Valid, Linked, Entries;
      var prev;
      prev, curr := Find(pid);
      if curr != null {
        Unlink(prev, curr, B.Position(Entries(list), pid));
      }
    }

    /** Has the module unloaded when its task exits, if that can be arranged. */
    method ScheduleUnload(pid: int, bin: Binary, w: B.World) returns (ret: int)
      requires Valid() && bin !in list && bin.argbuffer == None
      modifies this`head, this`list, list`flink, bin`pid, bin`flink
      ensures Valid()
      ensures ret == if w.unmask && w.handler then OK else ERROR
      ensures ret == OK ==> list == [bin] + old(list)
      ensures ret == OK ==> Entries(list) == [B.Entry(bin.id, pid)] + old(Entries(list))
      ensures ret != OK ==> list == old(list) && Entries(list) == old(Entries(list))
    {
      if !w.unmask {
        return ERROR;
      }
      UnloadListAdd(pid, bin);
      if !w.handler {
        ghost var all := list;
        assert Entries(list)[0].pid == pid;
        var removed := UnloadListRemove(pid);
        assert B.Without(all, 0) == all[1..];
        assert list == old(list);
        return ERROR;
      }
      return OK;
    }

    /** The SIGCHLD handler: unloads the module of the task that exited and frees its structure. */
    method UnloadCallback(pid: int, unload: bool)
      requires Valid()
      modifies this`head, this`list, this`frees, list
      ensures Valid() && View() == B.Exited(old(View()), pid)
      ensures forall b :: b in list ==> b in old(list)
    {
      hide Linked, Entries, Valid, B.Position;
      var bin := UnloadListRemove(pid);
      if bin == null {
        return;
      }
      var ret := UnloadModule(bin, unload);
      assert bin.argbuffer == None && frees + Owned(None) == frees;
      assert frees == old(frees);
      Free(bin.id);
    }

    /** Copies the argument list into the load structure. */
    method CopyArgs(bin: Binary, argv: Option<seq<string>>, ptrsize: nat, w: B.World) returns (ret: int)
      requires argv.Some? ==> Strings(argv.value)
      requires bin.argbuffer == None && bin.argv == None
      modifies this`next, bin`argbuffer, bin`argv
      ensures ret == OK <==> !B.CopyFails(argv, w)
      ensures ret == OK ==> Carries(bin, argv)
      ensures ret == OK ==> Owned(bin.argbuffer) == if B.Copies(argv) then multiset{old(next)} else multiset{}
      ensures next == old(next) + if ret == OK && B.Copies(argv) then 1 else 0
    {
      hide Packed, ReadArgv, Strings;
      var buffer;
      ret, buffer := CopyArgv(argv, ptrsize, w.room);
      if buffer.Some? {
        var arg := Malloc();
        bin.argbuffer := Some(arg);
        bin.argv := buffer;
        ArgvRoundTrip(buffer.value.table[..], buffer.value.mem[..], argv.value, (|argv.value| + 1) * ptrsize);
      }
    }

    /** The error exit behind the copied arguments. */
    method Discard(bin: Binary)
      requires Valid() && bin !in list
      modifies this`frees, bin`argbuffer, bin`argv
      ensures Valid() && View() == old(View()).(frees := old(frees) + Owned(old(bin.argbuffer)) + multiset{bin.id})
    {
      hide Linked, Entries, Valid;
      FreeArgv(bin);
      Free(bin.id);
    }

    /** The error exit behind a failed start. */
    method Undo(bin: Binary, unload: bool)
      requires Valid() && bin !in list
      modifies this`frees, bin`argbuffer, bin`argv
      ensures Valid() && View() == old(View()).(frees := old(frees) + Owned(old(bin.argbuffer)) + multiset{bin.id})
    {
      hide Linked, Entries, Valid;
      var unloaded := UnloadModule(bin, unload);
      Discard(bin);
    }

    /** Hands a started module over to the unload list; if that fails nothing will release it. */
    method Settle(pid: int, bin: Binary, w: B.World)
      requires Valid() && bin !in list && bin.argbuffer == None
      modifies this`head, this`list, this`orphans, list`flink, bin`pid, bin`flink
      ensures Valid()
      ensures if w.unmask && w.handler then
                list == [bin] + old(list)
                && View() == old(View()).(list := [B.Entry(bin.id, pid)] + old(Entries(list)))
              else list == old(list) && View() == old(View()).(orphans := old(orphans) + {bin.id})
    {
      hide Linked, Entries, Valid;
      var scheduled := ScheduleUnload(pid, bin, w);
      if scheduled != OK {
        orphans := orphans + {bin.id};
      }
    }

    /** Starts a loaded program and has it unloaded later; on failure everything is undone. */
    method Launch(bin: Binary, ghost argv: Option<seq<string>>, w: B.World) returns (ret: int, seen: Option<seq<string>>)
      requires Valid() && bin !in list && Carries(bin, argv)
      modifies this, list`flink, bin
      ensures Valid() && View() == B.Launched(old(View()), bin.id, old(Owned(bin.argbuffer)), w)
      ensures ret == if w.load && w.fail.None? then w.pid else ERROR
      ensures ret >= 0 ==> seen == Passed(argv)
      ensures list == old(list) || list == [bin] + old(list)
    {
      hide Linked, Entries, Carries, Passed, Valid;
      if !w.load {
        Discard(bin);
        return ERROR, None;
      }
      ret, seen := ExecModule(bin, argv, w);
      if ret < 0 {
        Undo(bin, w.unload);
        return ERROR, seen;
      }
      assert frees + Owned(None) == frees;
      Settle(ret, bin, w);
    }

    /** Allocates a load structure and copies the arguments into it; on failure it is freed again. */
    method Prepare(argv: Option<seq<string>>, ptrsize: nat, w: B.World) returns (bin: Binary?)
      requires Valid() && (argv.Some? ==> Strings(argv.value))
      modifies this`next, this`frees
      ensures Valid()
      ensures bin == null <==> B.CopyFails(argv, w)
      ensures bin == null ==> View() == old(View()).(next := old(next) + 1, frees := old(frees) + multiset{old(next)})
      ensures bin != null ==> fresh(bin) && bin.id == old(next) && Carries(bin, argv)
      ensures bin != null ==> Owned(bin.argbuffer) == if B.Copies(argv) then multiset{old(next) + 1} else multiset{}
      ensures bin != null ==> View() == old(View()).(next := old(next) + if B.Copies(argv) then 2 else 1)
    {
      hide Linked, Entries, Strings, Valid, Carries, Owned, B.Copies, B.CopyFails;
      var id := Malloc();
      var b := new Binary(id);
      var copied := CopyArgs(b, argv, ptrsize, w);
      if copied != OK {
        Free(b.id);
        return null;
      }
      return b;
    }

    /** Loads and starts a program. */
    method Exec(argv: Option<seq<string>>, ptrsize: nat, w: B.World) returns (ret: int, seen: Option<seq<string>>)
      requires Valid() && (argv.Some? ==> Strings(argv.value))
      modifies this, list`flink
      ensures Valid() && View() == B.Exec(old(View()), argv, w)
      ensures ret == if w.bin && !B.CopyFails(argv, w) && w.load && w.fail.None? then w.pid else ERROR
      ensures ret >= 0 ==> seen == if argv.Some? && argv.value != [] then argv else None
      ensures list == old(list) || (|list| > 0 && fresh(list[0]) && list[1..] == old(list))
    {
      hide Linked, Entries, Strings, Valid, Carries, Owned, B.Launched, B.CopyFails;
      if !w.bin {
        return ERROR, None;
      }
      var bin := Prepare(argv, ptrsize, w);
      if bin == null {
        return ERROR, None;
      }
      ret, seen := Launch(bin, argv, w);
    }

    /** Any sequence of calls and exits; every SIGCHLD may find the format's unload operation failing or not. */
    method Serve(events: seq<B.Event>, ptrsize: nat)
      requires Valid() && B.Balanced(View())
      requires forall e :: e in events && e.Call? && e.argv.Some? ==> Strings(e.argv.value)
      modifies this, list
      ensures Valid() && View() == B.Run(old(View()), events) && B.Balanced(View())
    {
      hide B.Exec, B.Exited, B.Balanced, Valid, Linked, Entries, Strings;
      ghost var k := View();
      var i := 0;
      assert events[0..] == events;
      while i < |events|
        invariant 0 <= i <= |events| && Valid()
        invariant B.Run(View(), events[i..]) == B.Run(k, events)
        invariant forall i :: 0 <= i < |list| ==> list[i] in old(list) || fresh(list[i])
      {
        assert events[i..][1..] == events[i + 1..] && events[i] in events;
        ghost var was := list;
        match events[i] {
          case Call(argv, world) =>
            var ret, seen := Exec(argv, ptrsize, world);
            assert forall j :: 0 < j < |list| && list != was ==> list[j] == list[1..][j - 1];
          case Exit(pid) =>
            var unload := *;
            UnloadCallback(pid, unload);
        }
        assert forall j :: 0 <= j < |list| ==> list[j] in was || fresh(list[j]);
        i := i + 1;
      }
      B.RunBalanced(k, events);
    }
  }

  lemma Relinked(head: Binary?, all: seq<Binary>, i: nat)
    requires i < |all|
    requires forall a, b :: 0 <= a < b < |all| ==> all[a] != all[b]
    requires forall j :: 0 <= j < |all| - 1 && j != i && j != i - 1 ==> all[j].flink == all[j + 1]
    requires i < |all| - 1 ==> all[|all| - 1].flink == null
    requires i > 0 ==> head == all[0] && all[i - 1].flink == if i + 1 < |all| then all[i + 1] else null
    requires i == 0 ==> head == if |all| > 1 then all[1] else null
    ensures Linked(head, B.Without(all, i))
    ensures all[i] !in B.Without(all, i)
    ensures forall b :: b in B.Without(all, i) ==> b in all
  {
    var less := B.Without(all, i);
    assert forall j :: 0 <= j < |less| ==> less[j] == all[if j < i then j else j + 1];
  }

  lemma EntriesWithout(all: seq<Binary>, entries: seq<B.Entry>, i: nat)
    requires i < |all| == |entries|
    requires forall j :: 0 <= j < |all| ==> entries[j] == B.Entry(all[j].id, all[j].pid)
    ensures Entries(B.Without(all, i)) == B.Without(entries, i)
  {
    var less := B.Without(all, i);
    assert forall j :: 0 <= j < |less| ==> less[j] == all[if j < i then j else j + 1];
  }

  lemma PositionIs(list: seq<B.Entry>, pid: int, i: nat)
    requires i <= |list| && (i < |list| ==> list[i].pid == pid)
    requires forall j :: 0 <= j < i ==> list[j].pid != pid
    ensures B.Position(list, pid) == i
  {
  }
}
