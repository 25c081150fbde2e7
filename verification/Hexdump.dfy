/**
 * The hexdump command of apps/nshlib/nsh_dbgcmds.c with its skip= and count=
 * options: which bytes it dumps, and at which addresses.
 */
module Hexdump {
  import opened Numbers
  import opened Devices

  /** One dumped block: the address in its heading and its bytes. */
  datatype Block = Block(address: int, bytes: seq<Byte>)

  function Join(blocks: seq<Block>): seq<Byte> {
    if blocks == [] then [] else Join(blocks[..|blocks| - 1]) + blocks[|blocks| - 1].bytes
  }

  /** Every heading is the offset, from `start` on, of the bytes under it. */
  predicate Placed(blocks: seq<Block>, start: int) {
    forall i :: 0 <= i < |blocks| ==> blocks[i].address == start + |Join(blocks[..i])|
  }

  /** Where the dump starts; a negative skip counts as none. */
  function Start(skip: int): nat {
    if skip < 0 then 0 else skip
  }

  /** The window of the file that is asked for, as far as the file goes. */
  function Window(data: seq<Byte>, skip: int, count: int): seq<Byte> {
    var a := Min(Start(skip), |data|);
    data[a..Min(a + if count < 0 then 0 else count, |data|)]
  }

  /** Byte by byte: it starts at skip, and ends after count bytes or with the file. */
  lemma WindowBytes(data: seq<Byte>, skip: int, count: int)
    ensures var w, from := Window(data, skip, count), if skip < 0 then 0 else skip;
            && (forall i :: 0 <= i < |w| ==> from + i < |data| && w[i] == data[from + i])
            && (count <= 0 ==> w == [])
            && (count > 0 ==> |w| == count || (|w| < count && (from + |w| == |data| || (from >= |data| && w == []))))
  {
  }

  lemma Added(blocks: seq<Block>, b: Block, start: int)
    requires Placed(blocks, start) && b.address == start + |Join(blocks)|
    ensures Join(blocks + [b]) == Join(blocks) + b.bytes
    ensures Placed(blocks + [b], start)
  {
    var more := blocks + [b];
    assert more[..|blocks|] == blocks;
    forall i | 0 <= i < |more|
      ensures more[i].address == start + |Join(more[..i])|
    {
      if i < |blocks| {
        assert more[..i] == blocks[..i];
      }
    }
  }

  lemma {:induction false} JoinAt(blocks: seq<Block>, i: nat)
    requires i < |blocks|
    ensures |Join(blocks[..i])| + |blocks[i].bytes| <= |Join(blocks)|
    ensures Join(blocks)[|Join(blocks[..i])|..][..|blocks[i].bytes|] == blocks[i].bytes
    decreases |blocks|
  {
    var n := |blocks| - 1;
    if i == n {
      assert Join(blocks)[|Join(blocks[..i])|..] == blocks[i].bytes;
    } else {
      JoinAt(blocks[..n], i);
      assert blocks[..n][..i] == blocks[..i];
      var at, m := |Join(blocks[..i])|, |blocks[i].bytes|;
      assert Join(blocks)[at..][..m] == Join(blocks[..n])[at..][..m];
    }
  }

  lemma PlacedAt(blocks: seq<Block>, start: int, i: nat)
    requires i < |blocks| && Placed(blocks, start)
    ensures blocks[i].address == start + |Join(blocks[..i])|
  {
  }

  /** What stands under a heading is what stands at that offset in the file. */
  lemma AddressIsOffset(data: seq<Byte>, blocks: seq<Block>, skip: int, count: int, i: nat)
    requires i < |blocks| && Placed(blocks, Start(skip)) && Join(blocks) <= Window(data, skip, count)
    requires blocks[i].bytes != []
    ensures var b := blocks[i];
            0 <= b.address && b.address + |b.bytes| <= |data| && b.bytes == data[b.address..b.address + |b.bytes|]
  {
    hide Join, Placed, Window;
    JoinAt(blocks, i);
    PlacedAt(blocks, Start(skip), i);
    Sliced(data, Join(blocks), skip, count, |Join(blocks[..i])|, |blocks[i].bytes|);
  }

  lemma Sliced(data: seq<Byte>, s: seq<Byte>, skip: int, count: int, at: nat, n: nat)
    requires s <= Window(data, skip, count) && 1 <= n && at + n <= |s|
    ensures Start(skip) + at + n <= |data|
    ensures s[at..][..n] == data[Start(skip) + at..Start(skip) + at + n]
  {
    var w := Window(data, skip, count);
    assert s[at..][..n] == w[..|s|][at..at + n];
    assert w[at..at + n] == data[Start(skip) + at..Start(skip) + at + n];
  }

  /** What is printed under a heading; a length that is not positive prints nothing. */
  function Dumped(buffer: seq<Byte>, from: nat, n: int): seq<Byte>
    requires from <= |buffer| && from + n <= |buffer|
  {
    if n <= 0 then [] else buffer[from..from + n]
  }

  lemma DumpedFrom(data: seq<Byte>, at: nat, buffer: seq<Byte>, length: nat, from: nat, n: int)
    requires at + length <= |data| && length <= |buffer| && buffer[..length] == data[at..at + length]
    requires from <= length && from + n <= length
    ensures Dumped(buffer, from, n) == data[at + from..at + from + if n < 0 then 0 else n]
  {
    if n > 0 {
      var s, t := buffer[from..from + n], data[at + from..at + from + n];
      forall i | 0 <= i < n
        ensures s[i] == t[i]
      {
        assert buffer[..length][from + i] == data[at..at + length][from + i];
      }
    }
  }

  /** Part way through: `position` bytes were read and `left` bytes of the window are still wanted. */
  ghost predicate Going(data: seq<Byte>, skip: int, count: int, position: int, left: int, blocks: seq<Block>) {
    && 0 <= position <= |data| && Placed(blocks, Start(skip))
    && Join(blocks) == (if position <= Start(skip) then [] else data[Start(skip)..position])
    && left == (if position <= Start(skip) then count else count - (position - Start(skip)))
    && (position > Start(skip) ==> left > 0)
  }

  lemma GoingPrefix(data: seq<Byte>, skip: int, count: int, position: int, left: int, blocks: seq<Block>)
    requires Going(data, skip, count, position, left, blocks)
    ensures Placed(blocks, Start(skip)) && Join(blocks) <= Window(data, skip, count)
    ensures position == |data| ==> Join(blocks) == Window(data, skip, count)
  {
  }

  lemma GoingSkip(data: seq<Byte>, skip: int, count: int, position: int, left: int, blocks: seq<Block>, n: nat)
    requires Going(data, skip, count, position, left, blocks) && position + n <= Min(|data|, Start(skip))
    ensures Going(data, skip, count, position + n, left, blocks)
  {
  }

  /** A block of n bytes from `from` on, either the whole of what was read or cut at the window's end. */
  lemma GoingDump(data: seq<Byte>, skip: int, count: int, position: int, left: int, blocks: seq<Block>,
                  from: int, n: nat, b: Block)
    requires Going(data, skip, count, position, left, blocks)
    requires from == (if position < Start(skip) then Start(skip) else position) && from + n <= |data|
    requires b == Block(from, data[from..from + if n < left then n else if left < 0 then 0 else left])
    ensures left > n > 0 ==> Going(data, skip, count, from + n, left - n, blocks + [b])
    ensures left <= n ==> Placed(blocks + [b], Start(skip)) && Join(blocks + [b]) == Window(data, skip, count)
  {
    hide Join, Placed;
    var start := Start(skip);
    Added(blocks, b, start);
    assert Join(blocks) == data[start..from];
    var m := if n < left then n else if left < 0 then 0 else left;
    assert data[start..from] + data[from..from + m] == data[start..from + m];
  }

  method Hexdump(source: Source, buffer: array<Byte>, skip: int, count: int) returns (ret: int, blocks: seq<Block>)
    requires source.Valid() && buffer.Length >= 1
    modifies source, buffer
    ensures ret == OK || ret == ERROR
    ensures Placed(blocks, Start(skip))
    ensures ret == OK ==> Join(blocks) == old(Window(source.Left(), skip, count))
    ensures ret == ERROR ==> Join(blocks) <= old(Window(source.Left(), skip, count))
  {
    hide Going, Placed, Join, Window, Dumped;
    ghost var data := source.Left();
    var position, left := 0, count;
    ret, blocks := OK, [];
    NothingYet(data, skip, count);
    assert data[0..] == data;
    while true
      invariant source.Valid() && ret == OK && 0 <= position <= |data|
      invariant source.Left() == data[position..]
      invariant Going(data, skip, count, position, left, blocks)
      decreases |data| - position
    {
      GoingPrefix(data, skip, count, position, left, blocks);
      var nbytesread := source.Read(buffer, 0, buffer.Length);
      if nbytesread < 0 {
        ret := ERROR;
        return;
      } else if nbytesread > 0 {
        ghost var was := position;
        assert buffer[..][..nbytesread] == data[was..was + nbytesread];
        assert source.Left() == data[was + nbytesread..];
        if position < skip {
          position := position + nbytesread;
          if position > skip {
            var dumpbytes := position - skip;
            if dumpbytes > left {
              dumpbytes := left;
            }
            var from := nbytesread - (position - skip);
            var block := Block(skip, Dumped(buffer[..], from, dumpbytes));
            DumpedFrom(data, was, buffer[..], nbytesread, from, dumpbytes);
            GoingDump(data, skip, count, was, left, blocks, skip, position - skip, block);
            blocks := blocks + [block];
            if left > dumpbytes {
              left := left - dumpbytes;
            } else {
              return;
            }
          } else {
            GoingSkip(data, skip, count, was, left, blocks, nbytesread);
          }
          continue;
        }
        ghost var n := nbytesread;
        if nbytesread > left {
          nbytesread := left;
        }
        var block := Block(position, Dumped(buffer[..], 0, nbytesread));
        DumpedFrom(data, was, buffer[..], n, 0, nbytesread);
        GoingDump(data, skip, count, was, left, blocks, was, n, block);
        blocks := blocks + [block];
        position := position + nbytesread;
        if left > nbytesread {
          left := left - nbytesread;
        } else {
          return;
        }
      } else {
        return;
      }
    }
  }

  lemma NothingYet(data: seq<Byte>, skip: int, count: int)
    ensures Going(data, skip, count, 0, count, [])
  {
  }
}
