/**
 * Fast forwarding of a PCM stream: the sub-sampler of nuttx/audio/pcm_decode.c
 * as a byte-at-a-time machine, and what its output is for every stream.
 */
module PcmStream {
  import opened Numbers

  const SUBSAMPLE_NONE: nat := 0

  /** What is carried from one buffer to the next. */
  datatype Phase = Phase(skip: nat, npartial: nat)

  const FRESH := Phase(0, 0)

  /** Bytes between two kept frames. */
  function SkipSize(align: nat, rate: nat): nat
    requires rate >= 1
  {
    align * (rate - 1)
  }

  /** The same, as they fit in the 8-bit `skip` field. */
  function Gap(align: nat, rate: nat): (gap: nat)
    requires rate >= 1
    ensures gap <= 255
  {
    SkipSize(align, rate) % 256
  }

  /** Is the next byte kept? */
  predicate Keeps(p: Phase) {
    p.npartial > 0 || p.skip == 0
  }

  /** The phase after one more byte. */
  function Advance(align: nat, gap: nat, p: Phase): Phase {
    if !Keeps(p) then Phase(p.skip - 1, 0)
    else if p.npartial + 1 == align then Phase(gap, 0)
    else Phase(p.skip, p.npartial + 1)
  }

  /** The phase after n more bytes. */
  function After(align: nat, gap: nat, p: Phase, n: nat): Phase
    decreases n
  {
    if n == 0 then p else After(align, gap, Advance(align, gap, p), n - 1)
  }

  /** The bytes of s that are kept when the first one is met in phase p. */
  function Kept<T>(align: nat, gap: nat, p: Phase, s: seq<T>): seq<T>
    decreases |s|
  {
    if s == [] then []
    else (if Keeps(p) then [s[0]] else []) + Kept(align, gap, Advance(align, gap, p), s[1..])
  }

  // -------- streams are cut anywhere --------

  lemma {:induction false} AfterAdd(align: nat, gap: nat, p: Phase, m: nat, n: nat)
    ensures After(align, gap, p, m + n) == After(align, gap, After(align, gap, p, m), n)
    decreases m
  {
    if m > 0 {
      AfterAdd(align, gap, Advance(align, gap, p), m - 1, n);
    }
  }

  lemma {:induction false} KeptAdd<T>(align: nat, gap: nat, p: Phase, s: seq<T>, t: seq<T>)
    ensures Kept(align, gap, p, s + t) == Kept(align, gap, p, s) + Kept(align, gap, After(align, gap, p, |s|), t)
    decreases |s|
  {
    if s == [] {
      assert s + t == t;
    } else {
      assert (s + t)[1..] == s[1..] + t;
      KeptAdd(align, gap, Advance(align, gap, p), s[1..], t);
    }
  }

  lemma {:induction false} KeptAtMost<T>(align: nat, gap: nat, p: Phase, s: seq<T>)
    ensures |Kept(align, gap, p, s)| <= |s|
    decreases |s|
  {
    if s != [] {
      KeptAtMost(align, gap, Advance(align, gap, p), s[1..]);
    }
  }

  /** A run of kept bytes inside one frame. */
  lemma {:induction false} KeepRun<T>(align: nat, gap: nat, p: Phase, s: seq<T>)
    requires Keeps(p) && 1 <= |s| && p.npartial + |s| <= align
    ensures Kept(align, gap, p, s) == s
    ensures After(align, gap, p, |s|)
         == if p.npartial + |s| == align then Phase(gap, 0) else Phase(p.skip, p.npartial + |s|)
    decreases |s|
  {
    if |s| == 1 {
      assert s[1..] == [];
    } else {
      KeepRun(align, gap, Advance(align, gap, p), s[1..]);
      assert s == [s[0]] + s[1..];
    }
  }

  /** A run of skipped bytes. */
  lemma {:induction false} SkipRun<T>(align: nat, gap: nat, p: Phase, s: seq<T>)
    requires p.npartial == 0 && |s| <= p.skip
    ensures Kept(align, gap, p, s) == []
    ensures After(align, gap, p, |s|) == Phase(p.skip - |s|, 0)
    decreases |s|
  {
    if s != [] {
      SkipRun(align, gap, Advance(align, gap, p), s[1..]);
    }
  }

  // -------- the closed form --------

  /** The phase at stream position n, counted from a fresh phase. */
  function PhaseAt(align: nat, gap: nat, n: nat): Phase
    requires align >= 1
  {
    var r := n % (align + gap);
    if r < align then Phase(0, r) else Phase(align + gap - r, 0)
  }

  lemma AdvanceAt(align: nat, gap: nat, n: nat)
    requires align >= 1
    ensures Advance(align, gap, PhaseAt(align, gap, n)) == PhaseAt(align, gap, n + 1)
  {
    NextRemainder(n, align + gap);
  }

  lemma {:induction false} AfterIsPhaseAt(align: nat, gap: nat, m: nat, n: nat)
    requires align >= 1
    ensures After(align, gap, PhaseAt(align, gap, m), n) == PhaseAt(align, gap, m + n)
    decreases n
  {
    if n > 0 {
      AdvanceAt(align, gap, m);
      AfterIsPhaseAt(align, gap, m + 1, n - 1);
    }
  }

  /** After n bytes the carried pair is a function of n modulo the period alone. */
  lemma PhaseClosedForm(align: nat, gap: nat, n: nat)
    requires align >= 1
    ensures After(align, gap, FRESH, n) == PhaseAt(align, gap, n)
  {
    Remainder(0, 0, align + gap, 0);
    AfterIsPhaseAt(align, gap, 0, n);
  }

  /** The bytes of s whose stream position is wanted; s[0] stands at position `from`. */
  function Filter<T>(s: seq<T>, from: nat, wanted: nat -> bool): seq<T>
    decreases |s|
  {
    if s == [] then []
    else (if wanted(from) then [s[0]] else []) + Filter(s[1..], from + 1, wanted)
  }

  lemma {:induction false} KeptIsFilter<T>(align: nat, gap: nat, from: nat, s: seq<T>, wanted: nat -> bool)
    requires align >= 1
    requires forall i :: from <= i < from + |s| ==> wanted(i) == (i % (align + gap) < align)
    ensures Kept(align, gap, PhaseAt(align, gap, from), s) == Filter(s, from, wanted)
    decreases |s|
  {
    if s != [] {
      AdvanceAt(align, gap, from);
      KeptIsFilter(align, gap, from + 1, s[1..], wanted);
      assert wanted(from) == (from % (align + gap) < align);
    }
  }

  /** Position i belongs to a frame whose number is a multiple of the rate. */
  predicate InSample(align: nat, rate: nat, i: nat)
    requires align >= 1 && rate >= 1
  {
    i / align % rate == 0
  }

  lemma FrameRemainder(align: nat, rate: nat, i: nat)
    requires align >= 1 && rate >= 1
    ensures align * rate >= 1
    ensures i % (align * rate) == (i / align % rate) * align + i % align
    ensures InSample(align, rate, i) <==> i % (align * rate) < align
  {
    var f, b := i / align, i % align;
    var q, k := f / rate, f % rate;
    assert i == f * align + b;
    assert f == q * rate + k;
    assert f * align == q * (align * rate) + k * align by {
      assert (q * rate + k) * align == q * rate * align + k * align;
      assert q * rate * align == q * (align * rate) by {
        assert rate * align == align * rate;
        assert q * rate * align == q * (rate * align);
      }
    }
    Spread(align, rate, k, b);
    Remainder(i, q, align * rate, k * align + b);
    if k >= 1 {
      assert k * align >= align;
    }
  }

  lemma Spread(align: nat, rate: nat, k: nat, b: nat)
    requires k < rate && b < align
    ensures 0 <= k * align + b < align * rate
  {
    assert k * align <= (rate - 1) * align;
    assert (rate - 1) * align == align * rate - align;
  }

  /** Does the skip count fit in its 8-bit field? */
  predicate Fits(align: nat, rate: nat)
    requires rate >= 1
  {
    SkipSize(align, rate) <= 255
  }

  ghost function Sample(align: nat, rate: nat): nat -> bool
    requires align >= 1 && rate >= 1
  {
    (i: nat) => InSample(align, rate, i)
  }

  /** Every stream is cut down to the frames whose number is a multiple of the rate. */
  lemma SubsampleIsFilter<T>(align: nat, rate: nat, s: seq<T>)
    requires align >= 1 && rate >= 1 && Fits(align, rate)
    ensures Kept(align, Gap(align, rate), FRESH, s) == Filter(s, 0, Sample(align, rate))
  {
    var gap := Gap(align, rate);
    Remainder(align * (rate - 1), 0, 256, align * (rate - 1));
    assert gap == align * (rate - 1);
    assert align + gap == align * rate;
    forall i: nat | 0 <= i < |s|
      ensures Sample(align, rate)(i) == (i % (align + gap) < align)
    {
      FrameRemainder(align, rate, i);
    }
    Remainder(0, 0, align + gap, 0);
    KeptIsFilter(align, gap, 0, s, Sample(align, rate));
  }

  lemma FilterFirst<T>(s: seq<T>, from: nat, wanted: nat -> bool)
    requires s != []
    ensures Filter(s, from, wanted) == (if wanted(from) then [s[0]] else []) + Filter(s[1..], from + 1, wanted)
  {
  }

  lemma {:induction false} FilterAdd<T>(s: seq<T>, t: seq<T>, from: nat, wanted: nat -> bool)
    ensures Filter(s + t, from, wanted) == Filter(s, from, wanted) + Filter(t, from + |s|, wanted)
    decreases |s|
  {
    if s == [] {
      assert s + t == t;
    } else {
      assert (s + t)[0] == s[0] && (s + t)[1..] == s[1..] + t;
      FilterAdd(s[1..], t, from + 1, wanted);
      FilterFirst(s, from, wanted);
      FilterFirst(s + t, from, wanted);
      hide Filter;
    }
  }

  lemma {:induction false} FilterNone<T>(s: seq<T>, from: nat, wanted: nat -> bool)
    requires forall i :: from <= i < from + |s| ==> !wanted(i)
    ensures Filter(s, from, wanted) == []
    decreases |s|
  {
    if s != [] {
      FilterNone(s[1..], from + 1, wanted);
    }
  }

  lemma {:induction false} FilterAtMost<T>(s: seq<T>, from: nat, wanted: nat -> bool)
    ensures |Filter(s, from, wanted)| <= |s|
    decreases |s|
  {
    if s != [] {
      FilterAtMost(s[1..], from + 1, wanted);
    }
  }

  /** When the skip count wraps, the machine keeps a byte too many straight after its first gap. */
  lemma WrappedGap(align: nat, rate: nat, s: seq<Byte>)
    requires align >= 1 && rate >= 1 && !Fits(align, rate)
    requires |s| == align + Gap(align, rate) + 1
    ensures |Kept(align, Gap(align, rate), FRESH, s)| == align + 1
    ensures |Filter(s, 0, Sample(align, rate))| <= align
  {
    var gap := Gap(align, rate);
    var a, b, c := s[..align], s[align..align + gap], s[align + gap..];
    assert s == a + (b + c);
    assert |c| == 1;
    KeptAdd(align, gap, FRESH, a, b + c);
    KeepRun(align, gap, FRESH, a);
    KeptAdd(align, gap, Phase(gap, 0), b, c);
    SkipRun(align, gap, Phase(gap, 0), b);
    assert Kept(align, gap, FRESH, c) == c by {
      assert c[1..] == [];
      assert c == [c[0]];
    }
    var wanted := Sample(align, rate);
    assert gap < align * (rate - 1);
    assert align * (rate - 1) == align * rate - align;
    forall i: nat | align <= i < align + |b + c|
      ensures !wanted(i)
    {
      FrameRemainder(align, rate, i);
      Remainder(i, 0, align * rate, i);
    }
    FilterAdd(a, b + c, 0, wanted);
    FilterNone(b + c, align, wanted);
    FilterAtMost(a, 0, wanted);
  }

  ghost predicate SamplesFrames(align: nat, rate: nat)
    requires align >= 1 && rate >= 1
  {
    forall s: seq<Byte> :: Kept(align, Gap(align, rate), FRESH, s) == Filter(s, 0, Sample(align, rate))
  }

  /** The sub-sampler is the frame filter on every stream exactly when the skip count fits. */
  lemma SubsampleExactly(align: nat, rate: nat)
    requires align >= 1 && rate >= 1
    ensures SamplesFrames(align, rate) <==> Fits(align, rate)
  {
    if Fits(align, rate) {
      forall s: seq<Byte>
        ensures Kept(align, Gap(align, rate), FRESH, s) == Filter(s, 0, Sample(align, rate))
      {
        SubsampleIsFilter(align, rate, s);
      }
    } else {
      var s: seq<Byte> := seq(align + Gap(align, rate) + 1, i => 0);
      WrappedGap(align, rate, s);
      assert Kept(align, Gap(align, rate), FRESH, s) != Filter(s, 0, Sample(align, rate));
    }
  }
}
