/**
 * What dd reads from a block device: each sector at an offset of its own, which
 * is a 32-bit product.
 */
module DdDisk {
  import opened Numbers
  import opened DdSpec

  /** A device image from sector number k on. */
  function Behind(image: seq<Byte>, size: nat, k: nat): seq<Byte> {
    Scaled(0, k, size);
    if k * size <= |image| then image[k * size..] else []
  }

  lemma BehindNext(image: seq<Byte>, size: nat, k: nat)
    requires size >= 1
    ensures Behind(image, size, k + 1) == Rest(Behind(image, size, k), size)
  {
    Scaled(0, k, size);
    assert (k + 1) * size == k * size + size;
  }

  /** What a read of sector number k finds: the product is reduced, and so was the number. */
  function Found(image: seq<Byte>, size: nat, k: nat): seq<Byte> {
    Scaled(0, k % WRAP, size);
    var offset := k % WRAP * size % WRAP;
    if offset < |image| then image[offset..] else []
  }

  lemma FoundIsBehind(image: seq<Byte>, size: nat, k: nat)
    requires size >= 1 && k * size < WRAP
    ensures k < WRAP && Found(image, size, k) == Behind(image, size, k)
  {
    Scaled(1, size, k);
    assert k % WRAP == k && k * size % WRAP == k * size;
  }

  /** The bytes written from here on, when k sectors were read and count are still wanted. */
  function DiskCopied(image: seq<Byte>, size: nat, k: nat, skip: nat, count: nat): seq<Byte>
    requires size >= 1 && skip < WRAP
    decreases count, if k % WRAP < skip then skip - k % WRAP else 0
  {
    NextRemainder(k, WRAP);
    var rest := Found(image, size, k);
    if rest == [] || count == 0 then []
    else if k % WRAP >= skip then Chunk(rest, size) + DiskCopied(image, size, k + 1, skip, count - 1)
    else DiskCopied(image, size, k + 1, skip, count)
  }

  // -------- while the offsets fit --------

  /** Do the offsets that are read fit in 32 bits, on a disk of n sectors? */
  predicate Reachable(n: nat, size: nat, skip: nat, count: nat) {
    count > 0 ==> Min(n, skip + count - 1) * size < WRAP
  }

  lemma BehindSectors(image: seq<Byte>, size: nat, k: nat)
    requires size >= 1
    ensures Behind(image, size, k) != [] <==> k < Sectors(image, size)
  {
    hide Padded;
    var n := |image| + size - 1;
    var q := Sectors(image, size);
    assert n == q * size + n % size;
    if k < q {
      Scaled(k + 1, q, size);
      assert (k + 1) * size == k * size + size;
    } else {
      Scaled(q, k, size);
    }
  }

  /** Then the disk is read like a file. */
  lemma {:induction false} DiskIsFile(image: seq<Byte>, size: nat, k: nat, skip: nat, count: nat)
    requires size >= 1 && skip < WRAP && k <= Sectors(image, size)
    requires Reachable(Sectors(image, size), size, Max(k, skip), count)
    ensures DiskCopied(image, size, k, skip, count) == Copied(Behind(image, size, k), size, k, skip, count)
    decreases count, Sectors(image, size) - k
  {
    hide Sectors, Chunk, Rest, Found, Behind;
    if count > 0 {
      var last := Min(Sectors(image, size), Max(k, skip) + count - 1);
      Scaled(k, last, size);
      FoundIsBehind(image, size, k);
      BehindSectors(image, size, k);
      BehindNext(image, size, k);
      if k < Sectors(image, size) {
        DiskIsFile(image, size, k + 1, skip, if k >= skip then count - 1 else count);
      }
    }
  }

  lemma BehindNothing(image: seq<Byte>, size: nat)
    ensures Behind(image, size, 0) == image
  {
    assert 0 * size == 0 && image[0..] == image;
  }

  // -------- and when not --------

  lemma FoundFar(image: seq<Byte>, size: nat, k: nat)
    requires size >= 1 && |image| >= WRAP
    ensures var rest := Found(image, size, k);
      && rest != [] && |Chunk(rest, size)| == size
      && ((forall i :: 0 <= i < WRAP ==> image[i] == 0) ==> Chunk(rest, size)[0] == 0)
  {
    Scaled(0, k % WRAP, size);
    var offset := k % WRAP * size % WRAP;
    assert image[offset..][0] == image[offset];
  }

  /** Every offset that is read is below 2^32, so that a disk with more bytes never ends,
      and the first byte of every sector that is copied is among its first 2^32. */
  lemma {:induction false} NeverEnds(image: seq<Byte>, size: nat, k: nat, skip: nat, count: nat)
    requires size >= 1 && |image| >= WRAP > skip
    ensures |DiskCopied(image, size, k, skip, count)| == count * size
    ensures (forall i :: 0 <= i < WRAP ==> image[i] == 0) && count > 0 ==>
      0 <= (count - 1) * size < count * size && DiskCopied(image, size, k, skip, count)[(count - 1) * size] == 0
    decreases count, if k % WRAP < skip then skip - k % WRAP else 0
  {
    if count > 0 {
      NextRemainder(k, WRAP);
      FoundFar(image, size, k);
      assert count * size == (count - 1) * size + size;
      Scaled(0, count - 1, size);
      hide Found, Chunk;
      if k % WRAP >= skip {
        NeverEnds(image, size, k + 1, skip, count - 1);
        LastSector(Chunk(Found(image, size, k), size), DiskCopied(image, size, k + 1, skip, count - 1), size, count);
      } else {
        NeverEnds(image, size, k + 1, skip, count);
      }
    }
  }

  lemma LastSector(c: seq<Byte>, rest: seq<Byte>, size: nat, count: nat)
    requires size >= 1 && count >= 1 && |c| == size && |rest| == (count - 1) * size
    ensures |c + rest| == count * size && 0 <= (count - 1) * size < count * size
    ensures count == 1 ==> (c + rest)[(count - 1) * size] == c[0]
    ensures count > 1 ==> 0 <= (count - 2) * size < |rest| && (c + rest)[(count - 1) * size] == rest[(count - 2) * size]
  {
    assert count * size == (count - 1) * size + size;
    if count > 1 {
      assert (count - 1) * size == (count - 2) * size + size;
      Scaled(0, count - 2, size);
    }
  }

  ghost predicate CopiesDisks(n: nat, size: nat, skip: nat, count: nat)
    requires size >= 1 && skip < WRAP
  {
    forall image: seq<Byte> :: |image| == n * size ==>
      DiskCopied(image, size, 0, skip, count) == Wanted(image, size, skip, count)
  }

  lemma WholeSectors(image: seq<Byte>, n: nat, size: nat)
    requires size >= 1 && |image| == n * size
    ensures Sectors(image, size) == n
  {
    Remainder(n * size + (size - 1), n, size, size - 1);
  }

  lemma ReachableNoWrap(n: nat, size: nat, skip: nat, count: nat)
    requires size >= 1 && skip < WRAP && Reachable(n, size, skip, count)
    ensures NoWrap(n, skip, count)
  {
    if count > 0 {
      Scaled(1, size, Min(n, skip + count - 1));
    }
  }

  lemma DiskIsWanted(image: seq<Byte>, size: nat, skip: nat, count: nat)
    requires size >= 1 && skip < WRAP && Reachable(Sectors(image, size), size, skip, count)
    ensures DiskCopied(image, size, 0, skip, count) == Copied(image, size, 0, skip, count)
    ensures Copied(image, size, 0, skip, count) == Wanted(image, size, skip, count)
  {
    hide Sectors, Copied, Wanted;
    DiskIsFile(image, size, 0, skip, count);
    BehindNothing(image, size);
    ReachableNoWrap(Sectors(image, size), size, skip, count);
    CopiedIsWanted(image, size, skip, count);
  }

  /** n sectors of zeros, but for a one at the start of sector number m. */
  function Flagged(n: nat, size: nat, m: nat): seq<Byte> {
    Scaled(0, n, size);
    seq(n * size, i => if i == m * size then 1 else 0)
  }

  /** A disk that is read beyond its end. */
  lemma ReadBeyond(image: seq<Byte>, n: nat, size: nat, skip: nat, count: nat)
    requires size >= 1 && skip < WRAP && 0 < count && |image| == n * size && n < skip + count && n * size >= WRAP
    ensures DiskCopied(image, size, 0, skip, count) != Wanted(image, size, skip, count)
  {
    WholeSectors(image, n, size);
    NeverEnds(image, size, 0, skip, count);
    hide Sectors, Window, DiskCopied;
    var a := Min(skip, n);
    WindowLength(image, size, a, n);
    assert (count - (n - a)) * size == count * size - (n - a) * size;
    Multiple(count - (n - a), size);
  }

  /** A disk of which the wrong sector is read. */
  lemma ReadWrong(n: nat, size: nat, skip: nat, count: nat)
    requires size >= 1 && skip < WRAP && 0 < count && skip + count <= n && (skip + count - 1) * size >= WRAP
    ensures var image := Flagged(n, size, skip + count - 1);
      |image| == n * size && DiskCopied(image, size, 0, skip, count) != Wanted(image, size, skip, count)
  {
    var m := skip + count - 1;
    Scaled(0, n, size);
    Scaled(m + 1, n, size);
    assert (m + 1) * size == m * size + size;
    var image := Flagged(n, size, m);
    WholeSectors(image, n, size);
    NeverEnds(image, size, 0, skip, count);
    PaddedLength(image, size);
    Scaled(skip, m, size);
    assert m * size - skip * size == (count - 1) * size;
    hide Sectors, DiskCopied;
    assert Padded(image, size)[m * size] == image[m * size] == 1;
    assert Wanted(image, size, skip, count)[(count - 1) * size] == Padded(image, size)[m * size];
  }

  /** Every disk of n whole sectors is copied as asked, exactly when the offsets that are read fit in 32 bits. */
  lemma DisksExactly(n: nat, size: nat, skip: nat, count: nat)
    requires size >= 1 && skip < WRAP
    ensures CopiesDisks(n, size, skip, count) <==> Reachable(n, size, skip, count)
  {
    hide DiskCopied, Wanted, Sectors, Flagged;
    if Reachable(n, size, skip, count) {
      forall image: seq<Byte> | |image| == n * size
        ensures DiskCopied(image, size, 0, skip, count) == Wanted(image, size, skip, count)
      {
        WholeSectors(image, n, size);
        DiskIsWanted(image, size, skip, count);
      }
    } else if n < skip + count {
      Scaled(0, n, size);
      var image := Flagged(n, size, 0);
      FlaggedLength(n, size, 0);
      ReadBeyond(image, n, size, skip, count);
    } else {
      ReadWrong(n, size, skip, count);
    }
  }

  lemma FlaggedLength(n: nat, size: nat, m: nat)
    ensures |Flagged(n, size, m)| == n * size
  {
    Scaled(0, n, size);
  }
}
