/**
 * The dd command of apps/nshlib/nsh_ddcmd.c: its sector buffer, the reads and
 * writes of character and block devices, and the transfer loop. Every call that
 * reaches a device may transfer less than it was asked for, or fail.
 */
module DdCopy {
  import opened Numbers
  import opened DdSpec
  import opened DdDisk
  import opened Devices

  datatype Inf = CharIn(source: Source) | BlkIn(disk: Disk)
  datatype Outf = CharOut(sink: Sink) | BlkOut(disk: Disk)

  /** A device image of fixed size with w laid over its start. */
  function Overlay(w: seq<Byte>, image: seq<Byte>): seq<Byte> {
    var n := Min(|w|, |image|);
    w[..n] + image[n..]
  }

  lemma OverlayBytes(w: seq<Byte>, image: seq<Byte>)
    ensures var r := Overlay(w, image);
            |r| == |image| && forall i :: 0 <= i < |r| ==> r[i] == if i < |w| then w[i] else image[i]
  {
  }

  lemma OverlayWrite(w: seq<Byte>, image: seq<Byte>, c: seq<Byte>)
    requires |w| < |image|
    ensures var n, now := Min(|c|, |image| - |w|), Overlay(w, image);
            now[..|w|] + c[..n] + now[|w| + n..] == Overlay(w + c, image)
  {
  }

  lemma OverlayFull(w: seq<Byte>, c: seq<Byte>, image: seq<Byte>)
    requires |w| >= |image|
    ensures Overlay(w + c, image) == Overlay(w, image)
  {
  }

  class Dd {
    const inf: Inf
    const outf: Outf
    const sectsize: nat
    const buffer: array<Byte>
    const skip: nat
    var nsectors: nat
    var sector: nat
    var nbytes: nat
    var eof: bool

    ghost const From: set<object> := match inf { case CharIn(s) => {s} case BlkIn(d) => {d} }
    /** What reading changes: the position of a character device, nothing on a block device. */
    ghost const Consumed: set<object> := match inf { case CharIn(s) => {s} case BlkIn(d) => {} }
    ghost const To: set<object> := match outf { case CharOut(s) => {s} case BlkOut(d) => {d} }

    ghost predicate Valid()
      reads this, From
    {
      && 1 <= sectsize < 0x1_0000 && buffer.Length == sectsize
      && skip < WRAP && nsectors < WRAP && sector < WRAP
      && (inf.CharIn? ==> inf.source.Valid()) && From !! To
    }

    /** The input that is left when k sectors were read. */
    ghost function Left(k: nat): seq<Byte>
      requires inf.CharIn? ==> inf.source.Valid()
      reads From
    {
      match inf
      case CharIn(s) => s.Left()
      case BlkIn(d) => Behind(d.image, sectsize, k)
    }

    /** What the next read finds, when k sectors were read. */
    ghost function Seen(k: nat): seq<Byte>
      requires inf.CharIn? ==> inf.source.Valid()
      reads From
    {
      match inf
      case CharIn(s) => s.Left()
      case BlkIn(d) => Found(d.image, sectsize, k)
    }

    /** The bytes still to be written, when the next read finds `rest`. */
    ghost function Due(rest: seq<Byte>, k: nat, count: nat): seq<Byte>
      requires sectsize >= 1 && skip < WRAP
      reads From
    {
      match inf
      case CharIn(s) => Copied(rest, sectsize, k, skip, count)
      case BlkIn(d) => DiskCopied(d.image, sectsize, k, skip, count)
    }

    lemma DueStep(was: seq<Byte>, k: nat, count: nat, now: seq<Byte>)
      requires sectsize >= 1 && skip < WRAP
      requires if inf.BlkIn? then was == Found(inf.disk.image, sectsize, k) else now == Rest(was, sectsize)
      ensures was == [] || count == 0 ==> Due(was, k, count) == []
      ensures was != [] && count > 0 && k % WRAP >= skip ==>
        Due(was, k, count) == Chunk(was, sectsize) + Due(now, k + 1, count - 1)
      ensures was != [] && count > 0 && k % WRAP < skip ==> Due(was, k, count) == Due(now, k + 1, count)
    {
      hide Found;
    }

    /** The output device after w was written, when it was `before`. */
    ghost predicate Holds(w: seq<Byte>, before: seq<Byte>)
      reads To
    {
      match outf
      case CharOut(s) => s.data == before + w
      case BlkOut(d) => d.image == Overlay(w, before)
    }

    ghost function Written(): seq<Byte>
      reads To
    {
      match outf
      case CharOut(s) => s.data
      case BlkOut(d) => d.image
    }

    constructor (inf: Inf, outf: Outf, sectsize: nat, skip: nat, count: nat)
      requires 1 <= sectsize < 0x1_0000 && skip < WRAP && count < WRAP
      requires inf.CharIn? ==> inf.source.Valid()
      requires inf.BlkIn? && outf.BlkOut? ==> inf.disk != outf.disk
      ensures Valid() && fresh(buffer) && this.inf == inf && this.outf == outf
      ensures this.sectsize == sectsize && this.skip == skip && nsectors == count && !eof
    {
      this.inf, this.outf, this.sectsize, this.skip := inf, outf, sectsize, skip;
      buffer := new Byte[sectsize](i => 0);
      nsectors, sector, nbytes, eof := count, 0, 0, false;
    }

    /** Is the buffer the front of what was left? */
    ghost predicate Filled(was: seq<Byte>)
      reads this, buffer
    {
      nbytes == Min(|was|, sectsize) && nbytes <= buffer.Length && buffer[..nbytes] == was[..nbytes]
    }

    /** What a character device has left is the rest. */
    ghost predicate Advanced(was: seq<Byte>)
      requires Valid()
      reads this, From
    {
      inf.CharIn? ==> inf.source.Left() == Rest(was, sectsize)
    }

    method ReadCh() returns (ret: int)
      requires Valid() && inf.CharIn?
      modifies this`nbytes, this`eof, buffer, inf.source
      ensures Valid()
      ensures ret == OK || ret == ERROR
      ensures ret == OK ==> Filled(old(inf.source.Left())) && Advanced(old(inf.source.Left()))
      ensures ret == OK ==> eof == (old(eof) || old(inf.source.Left()) == [])
    {
      ghost var was := inf.source.Left();
      nbytes := 0;
      var n := 1;
      assert was[0..] == was && was[..0] == [];
      while nbytes < sectsize && n > 0
        invariant Valid() && eof == old(eof)
        invariant nbytes <= Min(|was|, sectsize)
        invariant inf.source.Left() == was[nbytes..]
        invariant buffer[..nbytes] == was[..nbytes]
        invariant n >= 0 && (n == 0 ==> nbytes == |was|)
        decreases sectsize - nbytes, n
      {
        n := inf.source.Read(buffer, nbytes, sectsize - nbytes);
        if n < 0 {
          return ERROR;
        }
        Extended(was, nbytes, n);
        nbytes := nbytes + n;
      }
      eof := eof || nbytes == 0;
      return OK;
    }

    method ReadBlk(ghost k: nat) returns (ret: int)
      requires Valid() && inf.BlkIn? && sector == k % WRAP
      modifies this`nbytes, this`eof, buffer
      ensures Valid()
      ensures ret == OK || ret == ERROR
      ensures ret == OK ==> Filled(Seen(k)) && eof == (Seen(k) == [])
    {
      Scaled(0, sector, sectsize);
      var offset := sector * sectsize % WRAP;
      var n := inf.disk.Read(buffer, offset, sectsize);
      if n < 0 {
        return ERROR;
      }
      nbytes := n;
      eof := n == 0;
      return OK;
    }

    method WriteCh() returns (ret: int)
      requires Valid() && outf.CharOut?
      modifies outf.sink
      ensures ret == OK || ret == ERROR
      ensures ret == OK ==> outf.sink.data == old(outf.sink.data) + buffer[..]
      ensures ret != OK ==> exists n :: 0 <= n <= sectsize && outf.sink.data == old(outf.sink.data) + buffer[..n]
    {
      var written := 0;
      assert old(outf.sink.data) + buffer[..0] == old(outf.sink.data);
      while written < sectsize
        invariant written <= sectsize
        invariant outf.sink.data == old(outf.sink.data) + buffer[..written]
      {
        var n := outf.sink.Write(buffer, written, sectsize - written);
        if n < 0 {
          return ERROR;
        }
        assert buffer[..written + n] == buffer[..written] + buffer[written..written + n];
        written := written + n;
      }
      assert buffer[..sectsize] == buffer[..];
      return OK;
    }

    method WriteBlk(ghost w: seq<Byte>, ghost before: seq<Byte>) returns (ret: int)
      requires Valid() && outf.BlkOut? && Holds(w, before)
      requires skip <= sector && (sector - skip) * sectsize == |w| < WRAP
      modifies this`eof, outf.disk
      ensures ret == OK || ret == ERROR
      ensures ret == OK ==> Holds(w + buffer[..], before)
      ensures ret == OK ==> eof == (old(eof) || |w| >= |before|)
      ensures ret != OK ==> Holds(w, before)
    {
      var offset := (sector - skip) * sectsize % WRAP;
      var n := outf.disk.Write(buffer, offset, sectsize);
      if n < 0 {
        if n == -EFBIG {
          eof := true;
          OverlayFull(w, buffer[..], before);
        } else {
          return ERROR;
        }
      } else {
        OverlayWrite(w, before, buffer[..]);
        assert buffer[..n] == buffer[..][..n];
      }
      return OK;
    }

    /** Reads the next sector from either kind of device. */
    method Read(ghost k: nat) returns (ret: int)
      requires Valid() && !eof && sector == k % WRAP
      modifies this`nbytes, this`eof, buffer, Consumed
      ensures Valid()
      ensures ret == OK || ret == ERROR
      ensures ret == OK ==> Filled(old(Seen(k))) && Advanced(old(Seen(k))) && eof == (old(Seen(k)) == [])
    {
      hide Found;
      match inf
      case CharIn(s) => ret := ReadCh();
      case BlkIn(d) => ret := ReadBlk(k);
    }

    /** Pads a sector that the end of the input cut short. */
    method Pad(ghost was: seq<Byte>)
      requires Valid() && Filled(was)
      modifies buffer
      ensures buffer[..] == Chunk(was, sectsize)
    {
      var i := nbytes;
      while i < sectsize
        invariant nbytes <= i <= sectsize
        invariant buffer[..i] == was[..nbytes] + Zeros(i - nbytes)
      {
        buffer[i] := 0;
        assert Zeros(i + 1 - nbytes) == Zeros(i - nbytes) + [0];
        i := i + 1;
      }
      assert buffer[..sectsize] == buffer[..];
    }

    /** Reads the next sector and pads it. */
    method GetSector(ghost k: nat) returns (ret: int)
      requires Valid() && !eof && sector == k % WRAP
      modifies this`nbytes, this`eof, buffer, Consumed
      ensures Valid()
      ensures ret == OK || ret == ERROR
      ensures ret == OK ==> eof == (old(Seen(k)) == []) && Advanced(old(Seen(k)))
      ensures ret == OK && !eof ==> buffer[..] == Chunk(old(Seen(k)), sectsize)
    {
      hide Found;
      ghost var was := Seen(k);
      ret := Read(k);
      if ret == OK && !eof {
        Pad(was);
      }
    }

    /** Writes the sector in the buffer to either kind of device. */
    method Write(ghost w: seq<Byte>, ghost before: seq<Byte>) returns (ret: int)
      requires Valid() && !eof && Holds(w, before)
      requires outf.BlkOut? ==> skip <= sector && (sector - skip) * sectsize == |w| < WRAP
      modifies this`eof, To
      ensures Valid()
      ensures ret == OK || ret == ERROR
      ensures ret == OK ==> Holds(w + buffer[..], before)
      ensures ret == OK ==> eof == (outf.BlkOut? && |w| >= |before|)
      ensures ret != OK ==> exists n :: 0 <= n <= sectsize && Holds(w + buffer[..n], before)
    {
      match outf {
        case CharOut(s) =>
          ret := WriteCh();
          assert forall n :: 0 <= n <= sectsize ==> before + w + buffer[..n] == before + (w + buffer[..n]);
          assert buffer[..sectsize] == buffer[..];
        case BlkOut(d) =>
          ret := WriteBlk(w, before);
          assert w + buffer[..0] == w;
      }
    }

    /** Part way through the transfer: k sectors were read and j of them written, as w. */
    ghost predicate Going(data: seq<Byte>, before: seq<Byte>, count: nat, total: seq<Byte>,
                          w: seq<Byte>, k: nat, j: nat)
      requires Valid()
      reads this, From, To
    {
      && sector == k % WRAP && nsectors + j == count
      && Holds(w, before) && w + Due(Seen(k), k, nsectors) == total
      && (outf.BlkOut? ==> Counted(data, sectsize, skip, count, Left(k), k, j, |w|))
    }

    /** Can every byte that is copied be addressed, if it goes to a block device? */
    ghost predicate Addressed(data: seq<Byte>, count: nat, total: seq<Byte>)
      requires sectsize >= 1
    {
      outf.BlkOut? ==>
        && (inf.BlkIn? ==> Reachable(Sectors(data, sectsize), sectsize, skip, count))
        && NoWrap(Sectors(data, sectsize), skip, count) && |total| < WRAP + sectsize
    }

    /** A sector was written, or one before the window was passed. */
    ghost predicate Closer(n: nat, at: nat)
      reads this
    {
      nsectors < n || (nsectors == n && at < skip && sector == at + 1)
    }

    /** Writes the sector in the buffer, which is in the window; `more` is what the copy still lacks then. */
    method WriteSector(ghost before: seq<Byte>, ghost total: seq<Byte>, ghost w: seq<Byte>, ghost more: seq<Byte>)
      returns (ret: int)
      requires Valid() && !eof && Holds(w, before) && w + (buffer[..] + more) == total
      requires outf.BlkOut? ==> skip <= sector && (sector - skip) * sectsize == |w| < WRAP
      modifies this`eof, To
      ensures Valid()
      ensures ret == OK || ret == ERROR
      ensures ret == OK ==> Holds(w + buffer[..], before) && (eof ==> Holds(total, before))
      ensures ret != OK ==> exists u :: u <= total && Holds(u, before)
    {
      hide Holds;
      assert total == w + buffer[..] + more;
      ret := Write(w, before);
      if ret < 0 {
        ghost var n :| 0 <= n <= sectsize && Holds(w + buffer[..n], before);
        Front(w, buffer[..], n, more);
      } else if eof {
        Full(w, buffer[..], more, before);
      }
    }

    /** Writes the sector in the buffer if it is in the window, and goes on to the next one. */
    method PutSector(ghost data: seq<Byte>, ghost before: seq<Byte>, ghost count: nat, ghost total: seq<Byte>,
                     ghost w: seq<Byte>, ghost k: nat, ghost j: nat, ghost was: seq<Byte>)
      returns (ret: int, ghost v: seq<Byte>, ghost i: nat)
      requires Valid() && !eof && nsectors > 0 && was != []
      requires sector == k % WRAP && nsectors + j == count && Holds(w, before)
      requires w + Due(was, k, nsectors) == total && Addressed(data, count, total)
      requires outf.BlkOut? ==>
        Counted(data, sectsize, skip, count, was, k, j, |w|) && Left(k + 1) == Rest(was, sectsize)
      requires buffer[..] == Chunk(was, sectsize) && Advanced(was) && (inf.BlkIn? ==> was == Seen(k))
      modifies this`eof, this`nsectors, this`sector, To
      ensures Valid() && Left(k + 1) == old(Left(k + 1))
      ensures ret == OK ==> Closer(old(nsectors), old(sector))
      ensures ret == OK || ret == ERROR
      ensures ret == OK && !eof ==> Going(data, before, count, total, v, k + 1, i)
      ensures ret == OK && eof ==> Holds(total, before)
      ensures ret != OK ==> exists u :: u <= total && Holds(u, before)
    {
      hide Copied, Counted, Sectors, Holds, Behind, Found, Chunk, Rest, Addressed, Due;
      ret, v, i := OK, w, j;
      DueStep(was, k, nsectors, Seen(k + 1));
      if outf.BlkOut? {
        CountedStep(data, sectsize, skip, count, was, k, j, |w|);
      }
      NextRemainder(k, WRAP);
      if sector >= skip {
        ghost var more := Due(Seen(k + 1), k + 1, nsectors - 1);
        if outf.BlkOut? {
          WriteOffset(data, sectsize, skip, count, was, k, j, w, buffer[..], more, this);
        }
        ret := WriteSector(before, total, w, more);
        if ret < 0 {
          return;
        }
        assert w + buffer[..] + more == total;
        v, i := w + buffer[..], j + 1;
        nsectors := nsectors - 1;
      }
      sector := (sector + 1) % WRAP;
    }

    /** Copies one sector, or finds the end of the input. */
    method CopySector(ghost data: seq<Byte>, ghost before: seq<Byte>, ghost count: nat, ghost total: seq<Byte>,
                      ghost w: seq<Byte>, ghost k: nat, ghost j: nat)
      returns (ret: int, ghost v: seq<Byte>, ghost i: nat)
      requires Valid() && !eof && nsectors > 0
      requires Going(data, before, count, total, w, k, j) && Addressed(data, count, total)
      modifies this, buffer, Consumed, To
      ensures Valid()
      ensures ret == OK || ret == ERROR
      ensures ret == OK && !eof ==> Going(data, before, count, total, v, k + 1, i)
      ensures ret == OK && !eof && inf.CharIn? ==> |Left(k + 1)| < |old(Left(k))|
      ensures ret == OK && !eof ==> Closer(old(nsectors), old(sector))
      ensures ret == OK && eof ==> Holds(total, before)
      ensures ret != OK ==> exists u :: u <= total && Holds(u, before)
    {
      hide Copied, DiskCopied, Counted, Sectors, Addressed, Holds, Found, Behind;
      ghost var was := Seen(k);
      v, i := w, j;
      if outf.BlkOut? {
        ReadOffset(data, sectsize, skip, count, Left(k), k, j, |w|, this, total);
        SeenIsLeft(k);
      }
      DueStep(was, k, nsectors, Rest(was, sectsize));
      ret := GetSector(k);
      if ret < 0 {
        assert w <= total && Holds(w, before);
        return;
      }
      if !eof {
        RestShorter(was, sectsize);
        ret, v, i := PutSector(data, before, count, total, w, k, j, was);
      } else {
        assert total == w;
      }
    }

    /** As long as the offsets fit, a read finds what is left. */
    lemma SeenIsLeft(k: nat)
      requires Valid() && (inf.BlkIn? ==> k * sectsize < WRAP)
      ensures Seen(k) == Left(k)
      ensures inf.BlkIn? ==> Left(k + 1) == Rest(Left(k), sectsize)
    {
      hide Found, Behind, Rest;
      if inf.BlkIn? {
        FoundIsBehind(inf.disk.image, sectsize, k);
        BehindNext(inf.disk.image, sectsize, k);
      }
    }

    /** Copies from the input to the output, a sector at a time. */
    method Transfer() returns (ret: int)
      requires Valid() && !eof
      requires Addressed(Left(0), nsectors, Due(Seen(0), 0, nsectors))
      modifies this, buffer, Consumed, To
      ensures ret == OK || ret == ERROR
      ensures var total := old(Due(Seen(0), 0, nsectors));
              && (ret == OK ==> Holds(total, old(Written())))
              && (ret != OK ==> exists w :: w <= total && Holds(w, old(Written())))
    {
      ghost var data, before, count := Left(0), Written(), nsectors;
      ghost var total := Due(Seen(0), 0, count);
      ghost var w: seq<Byte>, k: nat, j: nat := [], 0, 0;
      sector := 0;
      Start(data, before, count, total);
      hide Going, Addressed, Holds, Found, Due;
      while !eof && nsectors > 0
        invariant Valid()
        invariant if eof then Holds(total, before) else Going(data, before, count, total, w, k, j)
        decreases !eof, if inf.CharIn? then |Left(k)| else 0, nsectors, if sector < skip then skip - sector else 0
      {
        ret, w, j := CopySector(data, before, count, total, w, k, j);
        if ret < 0 {
          return;
        }
        k := k + 1;
      }
      if !eof {
        Done(data, before, count, total, w, k, j);
      }
      ret := OK;
    }

    lemma Start(data: seq<Byte>, before: seq<Byte>, count: nat, total: seq<Byte>)
      requires Valid() && sector == 0 && nsectors == count && data == Left(0) && before == Written()
      requires total == Due(Seen(0), 0, count)
      ensures Going(data, before, count, total, [], 0, 0)
    {
      hide Found, Due;
      Untouched();
      CountedStart(data, sectsize, skip, count);
      assert [] + total == total;
    }

    lemma Done(data: seq<Byte>, before: seq<Byte>, count: nat, total: seq<Byte>, w: seq<Byte>, k: nat, j: nat)
      requires Valid() && nsectors == 0 && Going(data, before, count, total, w, k, j)
      ensures Holds(total, before)
    {
      hide Found;
      DueStep(Seen(k), k, 0, Rest(Seen(k), sectsize));
      assert total == w;
    }

    lemma Full(w: seq<Byte>, c: seq<Byte>, more: seq<Byte>, before: seq<Byte>)
      requires outf.BlkOut? && |w| >= |before| && Holds(w + c, before)
      ensures Holds(w + c + more, before)
    {
      OverlayFull(w + c, more, before);
    }

    lemma Untouched()
      ensures Holds([], Written())
    {
    }
  }

  /** dd between two files: the output is the window that was asked for. */
  method CopyFile(source: Source, sink: Sink, sectsize: nat, skip: nat, count: nat) returns (ret: int)
    requires source.Valid() && 1 <= sectsize < 0x1_0000 && skip < WRAP && count < WRAP
    requires sink.data == []
    modifies source, sink
    ensures ret == OK ==> sink.data == old(Copied(source.Left(), sectsize, 0, skip, count))
    ensures ret == OK && old(NoWrap(Sectors(source.Left(), sectsize), skip, count)) ==>
      sink.data == old(Wanted(source.Left(), sectsize, skip, count))
    ensures ret != OK ==> sink.data <= old(Copied(source.Left(), sectsize, 0, skip, count))
  {
    hide Copied, Wanted, Sectors;
    ghost var data := source.Left();
    var dd := new Dd(CharIn(source), CharOut(sink), sectsize, skip, count);
    ret := dd.Transfer();
    if NoWrap(Sectors(data, sectsize), skip, count) {
      CopiedIsWanted(data, sectsize, skip, count);
    }
  }

  /** dd from a block device to a file, wherever its reads end up. */
  method CopyFromDisk(source: Disk, sink: Sink, sectsize: nat, skip: nat, count: nat) returns (ret: int)
    requires 1 <= sectsize < 0x1_0000 && skip < WRAP && count < WRAP
    requires sink.data == []
    modifies sink
    ensures ret == OK ==> sink.data == DiskCopied(source.image, sectsize, 0, skip, count)
    ensures ret == OK && Reachable(Sectors(source.image, sectsize), sectsize, skip, count) ==>
      sink.data == Wanted(source.image, sectsize, skip, count)
    ensures ret != OK ==> sink.data <= DiskCopied(source.image, sectsize, 0, skip, count)
  {
    hide DiskCopied, Wanted, Sectors, Found;
    var dd := new Dd(BlkIn(source), CharOut(sink), sectsize, skip, count);
    ret := dd.Transfer();
    if Reachable(Sectors(source.image, sectsize), sectsize, skip, count) {
      DiskIsWanted(source.image, sectsize, skip, count);
    }
  }

  /** dd between two block devices, while the offsets that are read fit in 32 bits:
      the same bytes, tiled from offset 0. */
  method CopyDisk(source: Disk, target: Disk, sectsize: nat, skip: nat, count: nat) returns (ret: int)
    requires source != target && 1 <= sectsize < 0x1_0000 && skip < WRAP && count < WRAP
    requires Reachable(Sectors(source.image, sectsize), sectsize, skip, count)
    modifies target
    ensures ret == OK ==> target.image == Overlay(old(Wanted(source.image, sectsize, skip, count)), old(target.image))
    ensures ret != OK ==>
      exists w :: w <= old(Wanted(source.image, sectsize, skip, count)) && target.image == Overlay(w, old(target.image))
  {
    ghost var data := source.image;
    var dd := new Dd(BlkIn(source), BlkOut(target), sectsize, skip, count);
    Addresses(data, sectsize, skip, count);
    BehindNothing(data, sectsize);
    hide DiskCopied, Wanted, Sectors, Found;
    assert dd.Left(0) == data;
    ret := dd.Transfer();
    if ret != OK {
      ghost var w :| w <= Wanted(data, sectsize, skip, count) && dd.Holds(w, old(target.image));
      assert target.image == Overlay(w, old(target.image));
    }
  }

  lemma Addresses(data: seq<Byte>, size: nat, skip: nat, count: nat)
    requires size >= 1 && skip < WRAP && Reachable(Sectors(data, size), size, skip, count)
    ensures NoWrap(Sectors(data, size), skip, count)
    ensures DiskCopied(data, size, 0, skip, count) == Wanted(data, size, skip, count)
    ensures |DiskCopied(data, size, 0, skip, count)| < WRAP + size
  {
    hide Sectors, Copied, DiskCopied, Window;
    var n := Sectors(data, size);
    var a := Min(skip, n);
    var b := Min(a + count, n);
    if count > 0 {
      var last := Min(n, skip + count - 1);
      Scaled(b - a, last + 1, size);
      assert (last + 1) * size == last * size + size;
    }
    ReachableNoWrap(n, size, skip, count);
    DiskIsWanted(data, size, skip, count);
    WindowLength(data, size, a, b);
  }

  /**
   * Where the copy stands: k sectors were read, j of them written as `length`
   * bytes, and the rest is still to be read.
   */
  ghost predicate Counted(data: seq<Byte>, size: nat, skip: nat, count: nat,
                          rest: seq<Byte>, k: nat, j: nat, length: nat)
    requires size >= 1
  {
    && length == j * size && k + Sectors(rest, size) == Sectors(data, size)
    && (NoWrap(Sectors(data, size), skip, count) ==>
          && (skip > 0 ==> k <= WRAP)
          && j == if k >= skip then k - skip else 0)
  }

  lemma RestShorter(rest: seq<Byte>, size: nat)
    requires size >= 1 && rest != []
    ensures |Rest(rest, size)| < |rest|
  {
  }

  lemma CountedStart(data: seq<Byte>, size: nat, skip: nat, count: nat)
    requires size >= 1
    ensures Counted(data, size, skip, count, data, 0, 0, 0)
  {
  }

  /** While sectors are wanted, the number of the next one is below the end of the window. */
  lemma InWindow(data: seq<Byte>, size: nat, skip: nat, count: nat, rest: seq<Byte>, k: nat, j: nat, length: nat)
    requires size >= 1 && Counted(data, size, skip, count, rest, k, j, length) && j < count
    requires NoWrap(Sectors(data, size), skip, count)
    ensures k <= Min(Sectors(data, size), skip + count - 1)
    ensures rest != [] ==> k < Sectors(data, size) && (skip > 0 ==> k < WRAP)
  {
    if rest != [] {
      SectorsStep(rest, size);
    }
  }

  lemma ReadOffset(data: seq<Byte>, size: nat, skip: nat, count: nat, rest: seq<Byte>, k: nat, j: nat, length: nat,
                   dd: Dd, total: seq<Byte>)
    requires size >= 1 && Counted(data, size, skip, count, rest, k, j, length) && j < count
    requires dd.sectsize == size && dd.skip == skip && dd.Addressed(data, count, total)
    ensures dd.inf.BlkIn? && dd.outf.BlkOut? ==> k * size < WRAP
  {
    hide Counted, Sectors;
    if dd.inf.BlkIn? && dd.outf.BlkOut? {
      var last := Min(Sectors(data, size), skip + count - 1);
      Scaled(1, size, last);
      InWindow(data, size, skip, count, rest, k, j, length);
      Scaled(k, last, size);
    }
  }

  lemma CountedStep(data: seq<Byte>, size: nat, skip: nat, count: nat, rest: seq<Byte>, k: nat, j: nat, length: nat)
    requires size >= 1 && Counted(data, size, skip, count, rest, k, j, length) && j < count && rest != []
    ensures var i := if k % WRAP >= skip then j + 1 else j;
            Counted(data, size, skip, count, Rest(rest, size), k + 1, i,
                    if k % WRAP >= skip then length + size else length)
  {
    SectorsStep(rest, size);
    assert (j + 1) * size == j * size + size;
    if NoWrap(Sectors(data, size), skip, count) {
      InWindow(data, size, skip, count, rest, k, j, length);
    }
  }

  lemma WriteOffset(data: seq<Byte>, size: nat, skip: nat, count: nat, rest: seq<Byte>, k: nat, j: nat,
                    w: seq<Byte>, c: seq<Byte>, more: seq<Byte>, dd: Dd)
    requires size >= 1 && Counted(data, size, skip, count, rest, k, j, |w|) && j < count && rest != []
    requires k % WRAP >= skip && |c| == size
    requires dd.sectsize == size && dd.skip == skip && dd.Addressed(data, count, w + (c + more))
    ensures dd.outf.BlkOut? ==> (k % WRAP - skip) * size == |w| < WRAP
  {
    if dd.outf.BlkOut? {
      InWindow(data, size, skip, count, rest, k, j, |w|);
      if skip == 0 {
        Scaled(1, size, k);
      }
    }
  }

  lemma Front(w: seq<Byte>, c: seq<Byte>, n: nat, more: seq<Byte>)
    requires n <= |c|
    ensures w + c[..n] <= w + c + more
  {
  }

  lemma Extended(was: seq<Byte>, at: nat, n: nat)
    requires at + n <= |was|
    ensures was[at..][..n] == was[at..at + n] && was[at..][n..] == was[at + n..]
    ensures was[..at] + was[at..at + n] == was[..at + n]
  {
  }
}
