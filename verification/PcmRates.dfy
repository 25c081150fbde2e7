/**
 * What comes out after the rate was changed: at the start, in the middle of a
 * frame or of a gap, and back to normal play. The stream behind the change may be
 * cut into buffers in any way.
 */
module PcmRates {
  import opened Numbers
  import opened PcmStream
  import opened PcmPlayer

  function Buffers(bs: seq<seq<Byte>>): seq<Event> {
    if bs == [] then [] else [Buffer(bs[0])] + Buffers(bs[1..])
  }

  lemma {:induction false} OutputIsPlay(p: Player, bs: seq<seq<Byte>>, es: seq<Event>)
    ensures Output(p, Buffers(bs) + es) == Play(p, bs) + Output(Consume(p, |Flatten(bs)|), es)
    decreases |bs|
  {
    hide Reduce, Consume;
    var all := Buffers(bs) + es;
    if bs == [] {
      assert all == es && [] + Output(p, es) == Output(p, es);
      ConsumeNothing(p);
    } else {
      var q := Consume(p, |bs[0]|);
      assert all[0] == Buffer(bs[0]) && all[1..] == Buffers(bs[1..]) + es;
      OutputIsPlay(q, bs[1..], es);
      ReduceAdd(p, bs[0], Flatten(bs[1..]));
      var rest := Output(Consume(p, |Flatten(bs)|), es);
      assert Reduce(p, bs[0]) + (Play(q, bs[1..]) + rest) == Reduce(p, bs[0]) + Play(q, bs[1..]) + rest;
    }
  }

  lemma ConsumeNothing(p: Player)
    ensures Consume(p, 0) == p
  {
  }

  /** The output behind a change of the rate, when p is the player that the change leaves. */
  lemma Changed(p: Player, q: Player, rate: nat, bs: seq<seq<Byte>>, es: seq<Event>)
    requires q == Handle(p, Rate(rate))
    ensures Output(p, [Rate(rate)] + Buffers(bs) + es)
         == Reduce(q, Flatten(bs)) + Output(Consume(q, |Flatten(bs)|), es)
  {
    hide Reduce, Consume, Configure;
    var all := [Rate(rate)] + Buffers(bs) + es;
    assert all[0] == Rate(rate) && all[1..] == Buffers(bs) + es;
    OutputIsPlay(q, bs, es);
    ChunkIndependence(q, bs);
    var tail := Output(q, Buffers(bs) + es);
    assert [] + tail == tail;
  }

  /** From a fresh phase, or from normal play, the output is the frames whose number is a multiple of the new rate. */
  lemma StartExactly(p: Player, rate: nat, bs: seq<seq<Byte>>)
    requires p.align >= 1 && rate != SUBSAMPLE_NONE && Fits(p.align, rate)
    requires p.subsample == SUBSAMPLE_NONE || p.phase == FRESH
    ensures Output(p, [Rate(rate)] + Buffers(bs)) == Filter(Flatten(bs), 0, Sample(p.align, rate))
  {
    var all := [Rate(rate)] + Buffers(bs);
    assert all + [] == all;
    var q := Handle(p, Rate(rate));
    Changed(p, q, rate, bs, []);
    SubsampleIsFilter(p.align, rate, Flatten(bs));
    var out := Reduce(q, Flatten(bs));
    assert out + [] == out;
  }

  /** Back in normal play, the output is the input; and fast forwarding from there starts afresh. */
  lemma NormalExactly(p: Player, rate: nat, bs: seq<seq<Byte>>, cs: seq<seq<Byte>>)
    requires p.align >= 1 && rate != SUBSAMPLE_NONE && Fits(p.align, rate)
    ensures Output(p, [Rate(SUBSAMPLE_NONE)] + Buffers(bs) + ([Rate(rate)] + Buffers(cs)))
         == Flatten(bs) + Filter(Flatten(cs), 0, Sample(p.align, rate))
  {
    var q := Handle(p, Rate(SUBSAMPLE_NONE));
    Changed(p, q, SUBSAMPLE_NONE, bs, [Rate(rate)] + Buffers(cs));
    StartExactly(Consume(q, |Flatten(bs)|), rate, cs);
  }

  /** Where the first whole frame at the new rate starts, after a change in the phase p, and how much is kept before. */
  function Head(align: nat, rate: nat, p: Phase): (nat, nat)
    requires rate >= 1 && p.npartial < align
  {
    if p.npartial == 0 then (0, p.skip)
    else (align - p.npartial, align - p.npartial + SkipSize(align, rate))
  }

  /** Between two fast rates: the frame or the gap that the stream is in is finished first, and then every gap is that
      of the new rate. */
  lemma MidstreamExactly(p: Player, rate: nat, bs: seq<seq<Byte>>)
    requires p.Valid() && p.subsample != SUBSAMPLE_NONE && rate != SUBSAMPLE_NONE && Fits(p.align, rate)
    ensures var (keep, next) := Head(p.align, rate, p.phase);
            var s := Flatten(bs);
            && keep <= next
            && Output(p, [Rate(rate)] + Buffers(bs))
               == s[..Min(keep, |s|)] + Filter(s[Min(next, |s|)..], 0, Sample(p.align, rate))
  {
    var all := [Rate(rate)] + Buffers(bs);
    assert all + [] == all;
    var q := Handle(p, Rate(rate));
    Changed(p, q, rate, bs, []);
    var s := Flatten(bs);
    var out := Reduce(q, s);
    assert out + [] == out;
    Resumed(p.align, rate, p.phase, s);
  }

  lemma GapFits(align: nat, rate: nat)
    requires align >= 1 && rate >= 1 && Fits(align, rate)
    ensures Gap(align, rate) == SkipSize(align, rate)
  {
    Remainder(align * (rate - 1), 0, 256, align * (rate - 1));
  }

  /** The rest of a gap, and then whole periods. */
  lemma AfterGap(align: nat, rate: nat, skip: nat, s: seq<Byte>)
    requires align >= 1 && rate >= 1 && Fits(align, rate)
    ensures Kept(align, Gap(align, rate), Phase(skip, 0), s) == Filter(s[Min(skip, |s|)..], 0, Sample(align, rate))
  {
    hide Kept, After, Filter, Gap, Fits, SkipSize;
    var gap, n := Gap(align, rate), Min(skip, |s|);
    var a, b := s[..n], s[n..];
    assert s == a + b;
    KeptAdd(align, gap, Phase(skip, 0), a, b);
    SkipRun(align, gap, Phase(skip, 0), a);
    if |s| < skip {
      KeptNothing(align, gap, Phase(skip - n, 0), b);
      FilterNothing(b, Sample(align, rate));
    } else {
      SubsampleIsFilter(align, rate, b);
    }
    assert [] + Kept(align, gap, Phase(skip - n, 0), b) == Kept(align, gap, Phase(skip - n, 0), b);
  }

  lemma KeptNothing(align: nat, gap: nat, p: Phase, s: seq<Byte>)
    requires s == []
    ensures Kept(align, gap, p, s) == []
  {
  }

  lemma FilterNothing(s: seq<Byte>, wanted: nat -> bool)
    requires s == []
    ensures Filter(s, 0, wanted) == []
  {
  }

  lemma Resumed(align: nat, rate: nat, p: Phase, s: seq<Byte>)
    requires p.npartial < align && rate >= 1 && Fits(align, rate)
    ensures var (keep, next) := Head(align, rate, p);
            && keep <= next
            && Kept(align, Gap(align, rate), p, s)
               == s[..Min(keep, |s|)] + Filter(s[Min(next, |s|)..], 0, Sample(align, rate))
  {
    hide Kept, After, Filter, Gap, Fits, SkipSize, Sample;
    GapFits(align, rate);
    if p.npartial == 0 {
      AfterGap(align, rate, p.skip, s);
      Nothing(s, Filter(s[Min(p.skip, |s|)..], 0, Sample(align, rate)));
    } else {
      AfterFrame(align, rate, p, s);
    }
  }

  lemma Nothing(s: seq<Byte>, t: seq<Byte>)
    ensures s[..0] + t == t
  {
  }

  /** The rest of a frame, the gap behind it, and then whole periods. */
  lemma AfterFrame(align: nat, rate: nat, p: Phase, s: seq<Byte>)
    requires 0 < p.npartial < align && rate >= 1 && Fits(align, rate)
    ensures var keep, gap := align - p.npartial, Gap(align, rate);
            Kept(align, gap, p, s) == s[..Min(keep, |s|)] + Filter(s[Min(keep + gap, |s|)..], 0, Sample(align, rate))
  {
    hide Kept, Filter, Gap, Fits, SkipSize, Sample, Min;
    var keep, gap := align - p.npartial, Gap(align, rate);
    Bounds(keep, gap, |s|);
    var a, b, c := s[..Min(keep, |s|)], s[Min(keep, |s|)..], s[Min(keep + gap, |s|)..];
    FrameRest(align, gap, p, s);
    AfterGap(align, rate, gap, b);
    Tail(s, keep, gap);
    assert Kept(align, gap, Phase(gap, 0), b) == Filter(c, 0, Sample(align, rate));
    assert Kept(align, gap, p, s) == a + Filter(c, 0, Sample(align, rate));
  }

  lemma Bounds(m: nat, n: nat, length: nat)
    ensures 0 <= Min(m, length) <= length && 0 <= Min(m + n, length) <= length
    ensures 0 <= Min(n, length - Min(m, length)) <= length - Min(m, length)
  {
  }

  lemma Tail(s: seq<Byte>, m: nat, n: nat)
    ensures var b := s[Min(m, |s|)..]; b[Min(n, |b|)..] == s[Min(m + n, |s|)..]
  {
  }

  lemma FrameRest(align: nat, gap: nat, p: Phase, s: seq<Byte>)
    requires 0 < p.npartial < align
    ensures var n := Min(align - p.npartial, |s|);
            Kept(align, gap, p, s) == s[..n] + Kept(align, gap, Phase(gap, 0), s[n..])
  {
    hide Kept, After;
    var n := Min(align - p.npartial, |s|);
    var a, b := s[..n], s[n..];
    assert s == a + b;
    KeptAdd(align, gap, p, a, b);
    if n == 0 {
      KeptNothing(align, gap, p, a);
    } else {
      KeepRun(align, gap, p, a);
    }
    if n == |s| {
      KeptNothing(align, gap, After(align, gap, p, n), b);
      KeptNothing(align, gap, Phase(gap, 0), b);
    }
  }
}
