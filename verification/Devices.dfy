/**
 * The devices that the copying commands read and write. Every call may transfer
 * less than it was asked for, or fail.
 */
module Devices {
  import opened Numbers

  const OK := 0
  const ERROR := -1
  const EFBIG := 27

  /** A character device or file that is read; a read before its end gives at least one byte. */
  class Source {
    const data: seq<Byte>
    var pos: nat

    predicate Valid()
      reads this
    {
      pos <= |data|
    }

    function Left(): seq<Byte>
      requires Valid()
      reads this
    {
      data[pos..]
    }

    constructor (data: seq<Byte>)
      ensures Valid() && Left() == data
    {
      this.data, pos := data, 0;
    }

    method Read(buffer: array<Byte>, at: nat, length: nat) returns (n: int)
      requires Valid() && at + length <= buffer.Length
      modifies this, buffer
      ensures Valid()
      ensures n < 0 ==> Left() == old(Left()) && buffer[..] == old(buffer[..])
      ensures n >= 0 ==>
        && n <= length && n <= |old(Left())|
        && (length > 0 && old(Left()) != [] ==> n > 0)
        && Left() == old(Left())[n..]
        && buffer[..] == old(buffer[..])[..at] + old(Left())[..n] + old(buffer[..])[at + n..]
    {
      if * {
        return ERROR;
      }
      var most := Min(length, |data| - pos);
      var m: int :| 0 <= m <= most && (most > 0 ==> m > 0);
      n := m;
      ghost var was := buffer[..];
      forall i | at <= i < at + n {
        buffer[i] := data[pos + i - at];
      }
      assert buffer[..] == was[..at] + data[pos..][..n] + was[at + n..];
      pos := pos + n;
    }
  }

  /** A character device or file that is written; a write takes at least one byte. */
  class Sink {
    var data: seq<Byte>

    constructor ()
      ensures data == []
    {
      data := [];
    }

    method Write(buffer: array<Byte>, at: nat, length: nat) returns (n: int)
      requires 1 <= length && at + length <= buffer.Length
      modifies this
      ensures n < 0 ==> data == old(data)
      ensures n >= 0 ==> 1 <= n <= length && data == old(data) + buffer[at..at + n]
    {
      if * {
        return ERROR;
      }
      var m: int :| 1 <= m <= length;
      n := m;
      data := data + buffer[at..at + n];
    }
  }

  /** A block device seen through the byte-oriented block-to-character library. */
  class Disk {
    var image: seq<Byte>

    constructor (image: seq<Byte>)
      ensures this.image == image
    {
      this.image := image;
    }

    method Read(buffer: array<Byte>, offset: nat, length: nat) returns (n: int)
      requires length <= buffer.Length
      modifies buffer
      ensures n < 0 ==> buffer[..] == old(buffer[..])
      ensures n >= 0 ==>
        && n == (if offset >= |image| then 0 else Min(length, |image| - offset))
        && (offset < |image| ==> buffer[..] == image[offset..offset + n] + old(buffer[..])[n..])
    {
      if * {
        return ERROR;
      }
      if offset >= |image| {
        return 0;
      }
      n := Min(length, |image| - offset);
      ghost var was := buffer[..];
      forall i | 0 <= i < n {
        buffer[i] := image[offset + i];
      }
      assert buffer[..] == image[offset..offset + n] + was[n..];
    }

    method Write(buffer: array<Byte>, offset: nat, length: nat) returns (n: int)
      requires length <= buffer.Length
      modifies this
      ensures n < 0 ==> image == old(image)
      ensures n == -EFBIG <==> offset >= |old(image)| && n < 0
      ensures n >= 0 ==>
        && offset < |old(image)| && n == Min(length, |old(image)| - offset)
        && image == old(image)[..offset] + buffer[..n] + old(image)[offset + n..]
    {
      if offset >= |image| {
        return -EFBIG;
      }
      if * {
        return ERROR;
      }
      n := Min(length, |image| - offset);
      image := image[..offset] + buffer[..n] + image[offset + n..];
    }
  }
}
