/**
 * What dd copies (apps/nshlib/nsh_ddcmd.c): the input cut into sectors, the last
 * one padded with zeros, and the window that skip= and count= select from it.
 */
module DdSpec {
  import opened Numbers

  /** Sector numbers are 32-bit. */
  const WRAP: nat := 0x1_0000_0000

  function Zeros(n: nat): seq<Byte> {
    seq(n, i => 0)
  }

  // -------- sector by sector --------

  /** The next sector of the input that is left. */
  function Chunk(rest: seq<Byte>, size: nat): (r: seq<Byte>)
    ensures |r| == size
  {
    if |rest| >= size then rest[..size] else rest + Zeros(size - |rest|)
  }

  function Rest(rest: seq<Byte>, size: nat): seq<Byte> {
    if |rest| >= size then rest[size..] else []
  }

  /** The bytes written from here on, when k sectors were read and count are still wanted. */
  function Copied(rest: seq<Byte>, size: nat, k: nat, skip: nat, count: nat): seq<Byte>
    requires size >= 1
    decreases |rest|
  {
    if rest == [] || count == 0 then []
    else if k % WRAP >= skip then Chunk(rest, size) + Copied(Rest(rest, size), size, k + 1, skip, count - 1)
    else Copied(Rest(rest, size), size, k + 1, skip, count)
  }

  // -------- the window --------

  /** Number of sectors, counting a partial one. */
  function Sectors(data: seq<Byte>, size: nat): nat
    requires size >= 1
  {
    (|data| + size - 1) / size
  }

  /** The input followed by zeros up to a whole number of sectors. */
  function Padded(data: seq<Byte>, size: nat): seq<Byte>
    requires size >= 1
  {
    data + Zeros(Fill(|data|, size))
  }

  /** How many bytes a partial last sector is short. */
  function Fill(n: nat, size: nat): nat
    requires size >= 1
  {
    (size - n % size) % size
  }

  lemma SectorsStep(data: seq<Byte>, size: nat)
    requires size >= 1 && data != []
    ensures Sectors(data, size) == 1 + Sectors(Rest(data, size), size)
  {
    var n := |data| + size - 1;
    if |data| >= size {
      var m := n - size;
      assert m == (m / size) * size + m % size;
      assert n == (m / size + 1) * size + m % size;
      Remainder(n, m / size + 1, size, m % size);
    } else {
      Remainder(n, 1, size, |data| - 1);
      Remainder(size - 1, 0, size, size - 1);
    }
  }

  lemma PaddedStep(data: seq<Byte>, size: nat)
    requires size >= 1 && data != []
    ensures Padded(data, size) == Chunk(data, size) + Padded(Rest(data, size), size)
  {
    hide Fill;
    if |data| >= size {
      FillLonger(|data|, size);
      Regroup(data, size, Zeros(Fill(|data|, size)));
    } else {
      FillShort(|data|, size);
      PaddedNothing(size);
      assert Chunk(data, size) + [] == Chunk(data, size);
    }
  }

  lemma Regroup(s: seq<Byte>, i: nat, t: seq<Byte>)
    requires i <= |s|
    ensures s + t == s[..i] + (s[i..] + t)
  {
  }

  lemma FillLonger(n: nat, size: nat)
    requires 1 <= size <= n
    ensures Fill(n, size) == Fill(n - size, size)
  {
    var m := n - size;
    assert n == (m / size + 1) * size + m % size;
    Remainder(n, m / size + 1, size, m % size);
  }

  lemma FillShort(n: nat, size: nat)
    requires 1 <= n < size
    ensures Fill(n, size) == size - n
  {
    Remainder(n, 0, size, n);
    Remainder(size - n, 0, size, size - n);
  }

  lemma PaddedNothing(size: nat)
    requires size >= 1
    ensures Padded([], size) == [] && Sectors([], size) == 0
  {
    Remainder(0, 0, size, 0);
    Remainder(size, 1, size, 0);
    Remainder(size - 1, 0, size, size - 1);
  }

  lemma {:induction false} PaddedLength(data: seq<Byte>, size: nat)
    requires size >= 1
    ensures |Padded(data, size)| == Sectors(data, size) * size
    decreases |data|
  {
    hide Sectors, Padded;
    if data == [] {
      PaddedNothing(size);
    } else {
      PaddedLength(Rest(data, size), size);
      PaddedStep(data, size);
      SectorsStep(data, size);
      assert (1 + Sectors(Rest(data, size), size)) * size == size + Sectors(Rest(data, size), size) * size;
    }
  }

  /** Sectors number a up to b of the padded input. */
  function Window(data: seq<Byte>, size: nat, a: nat, b: nat): (r: seq<Byte>)
    requires size >= 1 && a <= b <= Sectors(data, size)
  {
    PaddedLength(data, size);
    Scaled(a, b, size);
    Scaled(b, Sectors(data, size), size);
    Padded(data, size)[a * size..b * size]
  }

  lemma WindowLength(data: seq<Byte>, size: nat, a: nat, b: nat)
    requires size >= 1 && a <= b <= Sectors(data, size)
    ensures |Window(data, size, a, b)| == (b - a) * size
  {
    PaddedLength(data, size);
    Scaled(a, b, size);
    Scaled(b, Sectors(data, size), size);
  }

  lemma WindowEmpty(data: seq<Byte>, size: nat, a: nat)
    requires size >= 1 && a <= Sectors(data, size)
    ensures Window(data, size, a, a) == []
  {
    WindowLength(data, size, a, a);
  }

  /** A window that starts behind the first sector is a window of the rest. */
  lemma WindowLater(data: seq<Byte>, size: nat, a: nat, b: nat)
    requires size >= 1 && data != [] && 1 <= a <= b <= Sectors(data, size)
    ensures b - 1 <= Sectors(Rest(data, size), size)
    ensures Window(data, size, a, b) == Window(Rest(data, size), size, a - 1, b - 1)
  {
    hide Sectors, Padded, Rest, Chunk;
    SectorsStep(data, size);
    PaddedStep(data, size);
    PaddedLength(data, size);
    PaddedLength(Rest(data, size), size);
    Scaled(a, b, size);
    Scaled(b, Sectors(data, size), size);
    assert a * size == (a - 1) * size + size;
    assert b * size == (b - 1) * size + size;
    SliceBehind(Chunk(data, size), Padded(Rest(data, size), size), (a - 1) * size, (b - 1) * size);
  }

  lemma SliceBehind(s: seq<Byte>, t: seq<Byte>, i: nat, j: nat)
    requires i <= j <= |t|
    ensures (s + t)[i + |s|..j + |s|] == t[i..j]
  {
  }

  /** A window that starts at the first sector starts with its bytes. */
  lemma WindowFirst(data: seq<Byte>, size: nat, b: nat)
    requires size >= 1 && data != [] && 1 <= b <= Sectors(data, size)
    ensures b - 1 <= Sectors(Rest(data, size), size)
    ensures Window(data, size, 0, b) == Chunk(data, size) + Window(Rest(data, size), size, 0, b - 1)
  {
    hide Sectors, Padded, Rest, Chunk;
    SectorsStep(data, size);
    PaddedStep(data, size);
    PaddedLength(data, size);
    PaddedLength(Rest(data, size), size);
    Scaled(b, Sectors(data, size), size);
    assert b * size == (b - 1) * size + size;
    SliceOver(Chunk(data, size), Padded(Rest(data, size), size), (b - 1) * size);
  }

  lemma SliceOver(s: seq<Byte>, t: seq<Byte>, j: nat)
    requires j <= |t|
    ensures (s + t)[0..j + |s|] == s + t[0..j]
  {
  }

  /** Do the sector numbers that matter stay clear of the 32-bit wrap? */
  predicate NoWrap(n: nat, skip: nat, count: nat) {
    skip == 0 || Min(skip + count, n) <= WRAP
  }

  /** Bounds of the window in a rest of n sectors, when k were read already. */
  function From(n: nat, k: nat, skip: nat): nat {
    if k >= skip then 0 else Min(skip - k, n)
  }

  function To(n: nat, k: nat, skip: nat, count: nat): nat {
    Min(From(n, k, skip) + count, n)
  }

  lemma {:induction false} CopiedIsWindow(rest: seq<Byte>, size: nat, k: nat, skip: nat, count: nat)
    requires size >= 1
    requires skip == 0 || k + To(Sectors(rest, size), k, skip, count) <= WRAP
    ensures var n := Sectors(rest, size);
            Copied(rest, size, k, skip, count) == Window(rest, size, From(n, k, skip), To(n, k, skip, count))
    decreases |rest|
  {
    hide Sectors, Window;
    var n := Sectors(rest, size);
    if rest == [] {
      PaddedNothing(size);
      WindowEmpty(rest, size, 0);
    } else if count == 0 {
      WindowEmpty(rest, size, From(n, k, skip));
    } else {
      SectorsStep(rest, size);
      if k >= skip {
        WindowFirst(rest, size, To(n, k, skip, count));
        CopiedIsWindow(Rest(rest, size), size, k + 1, skip, count - 1);
      } else if n > skip - k {
        WindowLater(rest, size, From(n, k, skip), To(n, k, skip, count));
        CopiedIsWindow(Rest(rest, size), size, k + 1, skip, count);
      } else {
        WindowEmpty(rest, size, n);
        CopiedIsWindow(Rest(rest, size), size, k + 1, skip, count);
        WindowEmpty(Rest(rest, size), size, n - 1);
      }
    }
  }

  /** What dd is asked for: sectors skip up to skip + count of the padded input, as far as there are any. */
  function Wanted(data: seq<Byte>, size: nat, skip: nat, count: nat): seq<Byte>
    requires size >= 1
  {
    var n := Sectors(data, size);
    Window(data, size, Min(skip, n), Min(Min(skip, n) + count, n))
  }

  /** Byte by byte: the input from sector skip on, and zeros behind its end, in whole sectors up to count of them, as
      long as they start inside the input. */
  lemma WantedBytes(data: seq<Byte>, size: nat, skip: nat, count: nat) returns (m: nat)
    requires size >= 1
    ensures var w, from := Wanted(data, size, skip, count), skip * size;
            && |w| == m * size && m <= count
            && (m < count ==> from + |w| >= |data|) && (m > 0 ==> from + (m - 1) * size < |data|)
            && forall i :: 0 <= i < |w| ==> w[i] == if from + i < |data| then data[from + i] else 0
  {
    hide Sectors, Padded, Window;
    var n := Sectors(data, size);
    var a := Min(skip, n);
    var b := Min(a + count, n);
    m := b - a;
    WindowBytes(data, size, a, b);
    SectorEnds(data, size);
    if skip >= n {
      assert m * size == 0;
      Scaled(n, skip, size);
    } else {
      WindowEnd(|data|, size, skip, m, n, count);
    }
  }

  /** The last sector of the window starts inside the input, and a window that is short reaches its end. */
  lemma WindowEnd(length: nat, size: nat, skip: nat, m: nat, n: nat, count: nat)
    requires size >= 1 && skip < n && m == Min(count, n - skip) && n * size >= length > (n - 1) * size
    ensures m < count ==> skip * size + m * size >= length
    ensures m > 0 ==> skip * size + (m - 1) * size < length
  {
    assert skip * size + m * size == (skip + m) * size;
    if m > 0 {
      assert skip * size + (m - 1) * size == (skip + m - 1) * size;
      Scaled(skip + m - 1, n - 1, size);
    }
  }

  lemma WindowBytes(data: seq<Byte>, size: nat, a: nat, b: nat)
    requires size >= 1 && a <= b <= Sectors(data, size)
    ensures var w := Window(data, size, a, b);
            && |w| == (b - a) * size
            && forall i :: 0 <= i < |w| ==> w[i] == if a * size + i < |data| then data[a * size + i] else 0
  {
    WindowLength(data, size, a, b);
    PaddedBytes(data, size);
    PaddedLength(data, size);
    Scaled(a, b, size);
    Scaled(b, Sectors(data, size), size);
    hide Sectors, Padded;
  }

  lemma SectorEnds(data: seq<Byte>, size: nat)
    requires size >= 1
    ensures var n := Sectors(data, size); n * size >= |data| && (n > 0 ==> (n - 1) * size < |data|)
  {
    var k := |data| + size - 1;
    var n := k / size;
    assert k == n * size + k % size;
    assert (n - 1) * size == n * size - size;
  }

  lemma PaddedBytes(data: seq<Byte>, size: nat)
    requires size >= 1
    ensures forall i :: 0 <= i < |Padded(data, size)| ==>
      Padded(data, size)[i] == if i < |data| then data[i] else 0
  {
  }

  lemma CopiedIsWanted(data: seq<Byte>, size: nat, skip: nat, count: nat)
    requires size >= 1 && NoWrap(Sectors(data, size), skip, count)
    ensures Copied(data, size, 0, skip, count) == Wanted(data, size, skip, count)
  {
    CopiedIsWindow(data, size, 0, skip, count);
  }

  // -------- exactly when --------

  /** n sectors of zeros, but for a one at the start of sector number WRAP. */
  function Marked(n: nat, size: nat): seq<Byte> {
    Scaled(0, n, size);
    seq(n * size, i => if i == WRAP * size then 1 else 0)
  }

  /** A mark at the start of sector number WRAP is all that rest has, if it has any. */
  predicate OnlyMark(rest: seq<Byte>, size: nat, k: nat) {
    forall i :: 0 <= i < |rest| && rest[i] == 1 ==> k * size + i == WRAP * size
  }

  lemma OnlyMarkRest(rest: seq<Byte>, size: nat, k: nat)
    requires OnlyMark(rest, size, k)
    ensures OnlyMark(Rest(rest, size), size, k + 1)
  {
    assert (k + 1) * size == k * size + size;
    var t := Rest(rest, size);
    forall i | 0 <= i < |t| && t[i] == 1
      ensures (k + 1) * size + i == WRAP * size
    {
      assert rest[size + i] == 1;
    }
  }

  lemma OnlyMarkChunk(rest: seq<Byte>, size: nat, k: nat)
    requires size >= 1 && OnlyMark(rest, size, k) && k != WRAP
    ensures 1 !in Chunk(rest, size)
  {
    if 1 in Chunk(rest, size) {
      var i :| 0 <= i < size && Chunk(rest, size)[i] == 1;
      assert rest[i] == 1;
      assert (WRAP - k) * size == i;
      Multiple(WRAP - k, size);
    }
  }

  lemma {:induction false} CopiedMisses(rest: seq<Byte>, size: nat, k: nat, skip: nat, count: nat)
    requires size >= 1 && skip >= 1 && OnlyMark(rest, size, k)
    ensures 1 !in Copied(rest, size, k, skip, count)
    decreases |rest|
  {
    hide OnlyMark;
    if rest != [] && count > 0 {
      OnlyMarkRest(rest, size, k);
      if k % WRAP >= skip {
        OnlyMarkChunk(rest, size, k);
        CopiedMisses(Rest(rest, size), size, k + 1, skip, count - 1);
      } else {
        CopiedMisses(Rest(rest, size), size, k + 1, skip, count);
      }
    }
  }

  lemma MarkedSectors(n: nat, size: nat)
    requires size >= 1
    ensures |Marked(n, size)| == n * size
    ensures Sectors(Marked(n, size), size) == n && OnlyMark(Marked(n, size), size, 0)
  {
    Remainder(n * size + (size - 1), n, size, size - 1);
  }

  lemma WantedMark(n: nat, size: nat, skip: nat, count: nat)
    requires size >= 1 && skip < WRAP < Min(skip + count, n)
    ensures 1 in Wanted(Marked(n, size), size, skip, count)
  {
    var data := Marked(n, size);
    MarkedSectors(n, size);
    var b := Min(skip + count, n);
    Scaled(skip, WRAP, size);
    Scaled(WRAP + 1, b, size);
    assert (WRAP + 1) * size == WRAP * size + size;
    Scaled(b, n, size);
    WindowAt(data, size, skip, b, WRAP * size);
    assert data[WRAP * size] == 1;
  }

  lemma WindowAt(data: seq<Byte>, size: nat, a: nat, b: nat, i: nat)
    requires size >= 1 && a <= b <= Sectors(data, size)
    requires i < |data| && a * size <= i < b * size
    ensures data[i] in Window(data, size, a, b)
  {
    PaddedLength(data, size);
    Scaled(b, Sectors(data, size), size);
    assert Window(data, size, a, b)[i - a * size] == Padded(data, size)[i];
  }

  ghost predicate CopiesWindow(n: nat, size: nat, skip: nat, count: nat)
    requires size >= 1
  {
    forall data :: Sectors(data, size) == n ==>
      Copied(data, size, 0, skip, count) == Wanted(data, size, skip, count)
  }

  /** Every input of n sectors is copied as asked, exactly when no sector number that matters wraps. */
  lemma CopiesExactly(n: nat, size: nat, skip: nat, count: nat)
    requires size >= 1 && skip < WRAP
    ensures CopiesWindow(n, size, skip, count) <==> NoWrap(n, skip, count)
  {
    if NoWrap(n, skip, count) {
      forall data | Sectors(data, size) == n
        ensures Copied(data, size, 0, skip, count) == Wanted(data, size, skip, count)
      {
        CopiedIsWanted(data, size, skip, count);
      }
    } else {
      var data := Marked(n, size);
      MarkedSectors(n, size);
      CopiedMisses(data, size, 0, skip, count);
      WantedMark(n, size, skip, count);
      assert Copied(data, size, 0, skip, count) != Wanted(data, size, skip, count);
    }
  }
}
