/**
 * Copying an argument list into one allocation (nuttx/binfmt/binfmt_exec.c): a
 * table of pointers followed by the strings they point to.
 */
module BinfmtArgv {
  import opened CStrings
  import opened Numbers

  const MAX_EXEC_ARGS: nat := 256
  const OK := 0
  const E2BIG := 7
  const ENOMEM := 12
  const NULL := -1

  /** The allocation; pointers are offsets into it, and the table lies at its start. */
  class ArgBuffer {
    const table: array<int>
    const mem: array<char>

    constructor (entries: nat, size: nat)
      ensures fresh(table) && fresh(mem) && table.Length == entries && mem.Length == size
    {
      table := new int[entries](i => 0);
      mem := new char[size](i => NUL);
    }
  }

  /** What a C caller can pass: strings without NUL. */
  predicate Strings(args: seq<string>) {
    forall i :: 0 <= i < |args| ==> NUL !in args[i]
  }

  /** Bytes that the strings take with their terminators. */
  function Size(args: seq<string>): (n: nat)
    ensures n >= |args|
  {
    if args == [] then 0 else Size(args[..|args| - 1]) + |args[|args| - 1]| + 1
  }

  lemma {:induction false} SizeGrows(args: seq<string>, i: nat)
    requires i < |args|
    ensures Size(args[..i]) + |args[i]| + 1 == Size(args[..i + 1]) <= Size(args)
    decreases |args|
  {
    assert args[..i + 1][..i] == args[..i];
    if i == |args| - 1 {
      assert args[..i + 1] == args;
    } else {
      var most := args[..|args| - 1];
      SizeGrows(most, i);
      assert most[..i] == args[..i] && most[..i + 1] == args[..i + 1];
    }
  }

  /** The first n strings are in place, one behind the other, from `start` on. */
  ghost predicate Laid(table: seq<int>, mem: seq<char>, args: seq<string>, start: nat, n: nat) {
    && n <= |args| && n <= |table|
    && forall i :: 0 <= i < n ==> table[i] == start + Size(args[..i]) && IsStr(mem, table[i], args[i])
  }

  /** The whole list, terminated. */
  ghost predicate Packed(table: seq<int>, mem: seq<char>, args: seq<string>, start: nat) {
    && |table| == |args| + 1 && table[|args|] == NULL
    && |mem| == start + Size(args)
    && Laid(table, mem, args, start, |args|)
  }

  /** Every string lies inside the buffer behind the table, and before the next one. */
  lemma PackedApart(table: seq<int>, mem: seq<char>, args: seq<string>, start: nat, i: nat, j: nat)
    requires Packed(table, mem, args, start) && i < j <= |args|
    ensures start <= table[i] && table[i] + |args[i]| + 1 <= if j < |args| then table[j] else |mem|
  {
    SizeGrows(args, i);
    SizeUpTo(args, i + 1, j);
    if j == |args| {
      assert args[..j] == args;
    }
  }

  lemma {:induction false} SizeUpTo(args: seq<string>, i: nat, j: nat)
    requires i <= j <= |args|
    ensures Size(args[..i]) <= Size(args[..j])
  {
    if i < j {
      SizeGrows(args[..j], i);
      assert args[..j][..i] == args[..i];
    }
  }

  // -------- reading the list back --------

  /** The string at p, up to its NUL. */
  function StringAt(mem: seq<char>, p: int): string
    decreases |mem| - p
  {
    if p < 0 || p >= |mem| || mem[p] == NUL then "" else [mem[p]] + StringAt(mem, p + 1)
  }

  /** The strings from entry i of the table on, up to its NULL. */
  function ReadArgv(table: seq<int>, mem: seq<char>, i: nat): seq<string>
    decreases |table| - i
  {
    if i >= |table| || table[i] == NULL then [] else [StringAt(mem, table[i])] + ReadArgv(table, mem, i + 1)
  }

  lemma {:induction false} StringAtIs(mem: seq<char>, p: int, s: string)
    requires IsStr(mem, p, s)
    ensures StringAt(mem, p) == s
    decreases |s|
  {
    StrChar(mem, p, s, 0);
    if s != "" {
      StrTail(mem, p, s, 1);
      StringAtIs(mem, p + 1, s[1..]);
      assert mem[p] == s[0];
    }
  }

  lemma {:induction false} ReadBack(table: seq<int>, mem: seq<char>, args: seq<string>, start: nat, i: nat)
    requires Packed(table, mem, args, start) && i <= |args|
    ensures ReadArgv(table, mem, i) == args[i..]
    decreases |args| - i
  {
    if i < |args| {
      StringAtIs(mem, table[i], args[i]);
      ReadBack(table, mem, args, start, i + 1);
    }
  }

  /** A packed list reads back as the list it was made from. */
  lemma ArgvRoundTrip(table: seq<int>, mem: seq<char>, args: seq<string>, start: nat)
    requires Packed(table, mem, args, start)
    ensures ReadArgv(table, mem, 0) == args
  {
    ReadBack(table, mem, args, start, 0);
  }

  // -------- the copy --------

  /** The size and the number of the arguments; fails when there are too many. */
  method Measure(args: seq<string>) returns (ret: int, argsize: nat, nargs: nat)
    ensures ret == if |args| > MAX_EXEC_ARGS then -E2BIG else OK
    ensures ret == OK ==> argsize == Size(args) && nargs == |args|
  {
    argsize, nargs := 0, 0;
    var i := 0;
    while i < |args|
      invariant 0 <= i <= |args| && nargs == i <= MAX_EXEC_ARGS
      invariant argsize == Size(args[..i])
    {
      SizeGrows(args, i);
      argsize := argsize + |args[i]| + 1;
      nargs := nargs + 1;
      if nargs > MAX_EXEC_ARGS {
        return -E2BIG, argsize, nargs;
      }
      i := i + 1;
    }
    assert args[..|args|] == args;
    return OK, argsize, nargs;
  }

  /** memcpy of a string with its terminator */
  method CopyString(mem: array<char>, ptr: nat, s: string)
    requires NUL !in s && ptr + |s| < mem.Length
    modifies mem
    ensures IsStr(mem[..], ptr, s)
    ensures forall k :: 0 <= k < ptr ==> mem[k] == old(mem[k])
  {
    forall k | 0 <= k <= |s| {
      mem[ptr + k] := if k < |s| then s[k] else NUL;
    }
    assert forall k :: 0 <= k < |s| ==> mem[ptr + k] == s[k];
  }

  lemma StrStays(a: seq<char>, b: seq<char>, p: int, s: string, end: nat)
    requires IsStr(a, p, s) && |a| == |b| && p + |s| < end
    requires forall k :: 0 <= k < end && k < |a| ==> b[k] == a[k]
    ensures IsStr(b, p, s)
  {
  }

  method Fill(buffer: ArgBuffer, args: seq<string>, argvsize: nat)
    requires Strings(args)
    requires buffer.table.Length == |args| + 1 && buffer.mem.Length == argvsize + Size(args)
    modifies buffer.table, buffer.mem
    ensures Packed(buffer.table[..], buffer.mem[..], args, argvsize)
  {
    var ptr, i := argvsize, 0;
    while i < |args|
      invariant 0 <= i <= |args| && ptr == argvsize + Size(args[..i])
      invariant Laid(buffer.table[..], buffer.mem[..], args, argvsize, i)
    {
      SizeGrows(args, i);
      ghost var table, mem := buffer.table[..], buffer.mem[..];
      buffer.table[i] := ptr;
      CopyString(buffer.mem, ptr, args[i]);
      LaidOne(table, buffer.table[..], mem, buffer.mem[..], args, argvsize, i, ptr);
      ptr := ptr + |args[i]| + 1;
      i := i + 1;
    }
    ghost var table := buffer.table[..];
    buffer.table[i] := NULL;
    assert forall k :: 0 <= k < |args| ==> buffer.table[..][k] == table[k];
  }

  lemma LaidOne(table: seq<int>, table': seq<int>, mem: seq<char>, mem': seq<char>,
                args: seq<string>, start: nat, i: nat, ptr: nat)
    requires Laid(table, mem, args, start, i) && i < |args| && i < |table| && |mem| == |mem'|
    requires ptr == start + Size(args[..i]) && table' == table[i := ptr]
    requires IsStr(mem', ptr, args[i])
    requires forall k :: 0 <= k < ptr && k < |mem| ==> mem'[k] == mem[k]
    ensures Laid(table', mem', args, start, i + 1)
  {
    hide IsStr, Size;
    forall k | 0 <= k < i
      ensures table'[k] == start + Size(args[..k]) && IsStr(mem', table'[k], args[k])
    {
      SizeGrows(args, k);
      SizeUpTo(args, k + 1, i);
      StrStays(mem, mem', table[k], args[k], ptr);
    }
  }

  /** Copies the caller's list; `room` says whether the allocation succeeds. */
  method CopyArgv(argv: Option<seq<string>>, ptrsize: nat, room: bool) returns (ret: int, buffer: Option<ArgBuffer>)
    requires argv.Some? ==> Strings(argv.value)
    ensures ret == if argv.None? || argv.value == [] then OK
                   else if |argv.value| > MAX_EXEC_ARGS then -E2BIG
                   else if !room then -ENOMEM else OK
    ensures buffer.Some? <==> ret == OK && argv.Some? && argv.value != []
    ensures buffer.Some? ==> fresh(buffer.value) && fresh(buffer.value.table) && fresh(buffer.value.mem)
    ensures buffer.Some? ==>
      Packed(buffer.value.table[..], buffer.value.mem[..], argv.value, (|argv.value| + 1) * ptrsize)
  {
    buffer := None;
    ret := OK;
    if argv.Some? {
      var argsize, nargs;
      ret, argsize, nargs := Measure(argv.value);
      if ret != OK {
        return;
      }
      if argsize > 0 {
        var argvsize := (nargs + 1) * ptrsize;
        Scaled(0, nargs + 1, ptrsize);
        if !room {
          return -ENOMEM, None;
        }
        var b := new ArgBuffer(nargs + 1, argvsize + argsize);
        Fill(b, argv.value, argvsize);
        buffer := Some(b);
      }
    }
  }
}
