/**
 * The sub-sampler as it is used: buffers of any size interleaved with rate
 * changes, and the first buffer carrying a WAV header.
 */
module PcmPlayer {
  import opened Numbers
  import opened PcmStream

  datatype Player = Player(align: nat, subsample: nat, phase: Phase) {
    predicate Valid() {
      align >= 1 && phase.npartial < align
    }

    function Gap(): nat
      requires subsample != SUBSAMPLE_NONE
    {
      PcmStream.Gap(align, subsample)
    }
  }

  /** A request to change the rate, which takes effect on the next buffer. */
  function Configure(p: Player, rate: nat): Player {
    if p.subsample == SUBSAMPLE_NONE then
      if rate != SUBSAMPLE_NONE then p.(phase := FRESH, subsample := rate) else p
    else if rate == SUBSAMPLE_NONE then p.(phase := FRESH, subsample := SUBSAMPLE_NONE)
    else p.(subsample := rate)
  }

  /** What one buffer is reduced to. */
  function Reduce(p: Player, bytes: seq<Byte>): seq<Byte> {
    if p.subsample == SUBSAMPLE_NONE then bytes else Kept(p.align, p.Gap(), p.phase, bytes)
  }

  /** The player after a buffer of n bytes. */
  function Consume(p: Player, n: nat): Player {
    if p.subsample == SUBSAMPLE_NONE then p else p.(phase := After(p.align, p.Gap(), p.phase, n))
  }

  lemma {:induction false} AfterValid(align: nat, gap: nat, p: Phase, n: nat)
    requires align >= 1 && p.npartial < align
    ensures After(align, gap, p, n).npartial < align
    decreases n
  {
    if n > 0 {
      AfterValid(align, gap, Advance(align, gap, p), n - 1);
    }
  }

  /** A buffer that was cut in two at any byte is reduced to the same bytes. */
  lemma ReduceAdd(p: Player, s: seq<Byte>, t: seq<Byte>)
    ensures Reduce(p, s + t) == Reduce(p, s) + Reduce(Consume(p, |s|), t)
    ensures Consume(p, |s| + |t|) == Consume(Consume(p, |s|), |t|)
  {
    if p.subsample != SUBSAMPLE_NONE {
      KeptAdd(p.align, p.Gap(), p.phase, s, t);
      AfterAdd(p.align, p.Gap(), p.phase, |s|, |t|);
    }
  }

  // -------- chunk independence --------

  function Flatten(buffers: seq<seq<Byte>>): seq<Byte> {
    if buffers == [] then [] else buffers[0] + Flatten(buffers[1..])
  }

  /** The concatenated output of a run of buffers at a fixed rate. */
  function Play(p: Player, buffers: seq<seq<Byte>>): seq<Byte>
    decreases |buffers|
  {
    if buffers == [] then []
    else Reduce(p, buffers[0]) + Play(Consume(p, |buffers[0]|), buffers[1..])
  }

  lemma {:induction false} ChunkIndependence(p: Player, buffers: seq<seq<Byte>>)
    ensures Play(p, buffers) == Reduce(p, Flatten(buffers))
    decreases |buffers|
  {
    if buffers != [] {
      ReduceAdd(p, buffers[0], Flatten(buffers[1..]));
      ChunkIndependence(Consume(p, |buffers[0]|), buffers[1..]);
    }
  }

  /** However the stream is cut, the output is the frames whose number is a multiple of the rate. */
  lemma PlayIsFilter(p: Player, buffers: seq<seq<Byte>>)
    requires p.Valid() && p.subsample != SUBSAMPLE_NONE && p.phase == FRESH
    requires Fits(p.align, p.subsample)
    ensures Play(p, buffers) == Filter(Flatten(buffers), 0, Sample(p.align, p.subsample))
    ensures Consume(p, |Flatten(buffers)|).phase
         == PhaseAt(p.align, p.align * (p.subsample - 1), |Flatten(buffers)|)
  {
    ChunkIndependence(p, buffers);
    SubsampleIsFilter(p.align, p.subsample, Flatten(buffers));
    PhaseClosedForm(p.align, p.Gap(), |Flatten(buffers)|);
    Remainder(p.align * (p.subsample - 1), 0, 256, p.align * (p.subsample - 1));
  }

  // -------- frames survive rate changes --------

  predicate InStream(align: nat, length: nat, fs: seq<nat>) {
    forall i :: 0 <= i < |fs| ==> (fs[i] + 1) * align <= length
  }

  predicate Increasing(fs: seq<nat>) {
    forall i, j :: 0 <= i < j < |fs| ==> fs[i] < fs[j]
  }

  lemma FrameBounds(align: nat, f: nat)
    ensures 0 <= f * align && (f + 1) * align == f * align + align
  {
  }

  /** Frame number f of the stream t. */
  function Frame(align: nat, t: seq<Byte>, f: nat): (r: seq<Byte>)
    requires (f + 1) * align <= |t|
    ensures |r| == align
  {
    FrameBounds(align, f);
    t[f * align..f * align + align]
  }

  function Frames(align: nat, t: seq<Byte>, fs: seq<nat>): (r: seq<Byte>)
    requires InStream(align, |t|, fs)
  {
    if fs == [] then []
    else Frames(align, t, fs[..|fs| - 1]) + Frame(align, t, fs[|fs| - 1])
  }

  lemma {:induction false} FramesLonger(align: nat, t: seq<Byte>, u: seq<Byte>, fs: seq<nat>)
    requires InStream(align, |t|, fs)
    ensures InStream(align, |t + u|, fs)
    ensures Frames(align, t + u, fs) == Frames(align, t, fs)
    decreases |fs|
  {
    if fs != [] {
      var f := fs[|fs| - 1];
      FramesLonger(align, t, u, fs[..|fs| - 1]);
      FrameBounds(align, f);
      assert (f + 1) * align <= |t|;
      assert Frame(align, t + u, f) == Frame(align, t, f);
    }
  }

  /** Where the phase stands relative to the frames of the stream. */
  predicate OnBoundary(align: nat, n: nat, p: Phase)
    requires align >= 1
  {
    if p.npartial > 0 then p.skip == 0 && n % align == p.npartial
    else (n + p.skip) % align == 0
  }

  /**
   * The output o made from the stream t: the whole frames fs, in stream order,
   * and then the first npartial bytes of the frame that t ends in.
   */
  predicate Framed(align: nat, t: seq<Byte>, o: seq<Byte>, p: Phase, fs: seq<nat>) {
    && 1 <= align && p.npartial < align && p.npartial <= |t|
    && OnBoundary(align, |t|, p)
    && InStream(align, |t|, fs) && Increasing(fs)
    && o == Frames(align, t, fs) + t[|t| - p.npartial..]
  }

  lemma LastFrame(align: nat, n: nat, fs: seq<nat>)
    requires align >= 1 && (n + 1) % align == 0
    requires InStream(align, n, fs) && Increasing(fs)
    ensures (n / align + 1) * align == n + 1
    ensures InStream(align, n + 1, fs + [n / align]) && Increasing(fs + [n / align])
  {
    var g := n / align;
    var q := (n + 1) / align;
    assert n + 1 == q * align;
    assert n == (q - 1) * align + (align - 1);
    Remainder(n, q - 1, align, align - 1);
    assert g == q - 1;
    forall i | 0 <= i < |fs|
      ensures fs[i] < g
    {
      Below(align, n, fs[i]);
    }
  }

  lemma Below(align: nat, n: nat, f: nat)
    requires align >= 1 && (n + 1) % align == 0 && (f + 1) * align <= n
    ensures f < n / align
  {
    var g := n / align;
    assert n == g * align + n % align;
    Scaled(g + 1, f + 1, align);
    FrameBounds(align, g);
  }

  lemma FramedSkip(align: nat, gap: nat, t: seq<Byte>, o: seq<Byte>, p: Phase, fs: seq<nat>, b: Byte)
    requires Framed(align, t, o, p, fs) && !Keeps(p)
    ensures Framed(align, t + [b], o, Advance(align, gap, p), fs)
  {
    FramesLonger(align, t, [b], fs);
    assert t[|t|..] == [] && (t + [b])[|t| + 1..] == [];
  }

  lemma FramedInside(align: nat, gap: nat, t: seq<Byte>, o: seq<Byte>, p: Phase, fs: seq<nat>, b: Byte)
    requires Framed(align, t, o, p, fs) && Keeps(p) && p.npartial + 1 < align
    ensures Framed(align, t + [b], o + [b], Advance(align, gap, p), fs)
  {
    FramesLonger(align, t, [b], fs);
    NextRemainder(|t|, align);
    assert (t + [b])[|t| - p.npartial..] == t[|t| - p.npartial..] + [b];
  }

  lemma FramedWhole(align: nat, gap: nat, t: seq<Byte>, o: seq<Byte>, p: Phase, fs: seq<nat>, b: Byte)
    returns (g: nat)
    requires Framed(align, t, o, p, fs) && Keeps(p) && p.npartial + 1 == align
    requires gap % align == 0
    ensures Framed(align, t + [b], o + [b], Advance(align, gap, p), fs + [g])
  {
    hide InStream, Increasing, Frames;
    g := |t| / align;
    NextRemainder(|t|, align);
    LastFrame(align, |t|, fs);
    SumRemainder(|t| + 1, gap, align);
    FramesWhole(align, t, o, fs, g, b);
    assert (t + [b])[|t| + 1..] == [];
  }

  lemma FramesWhole(align: nat, t: seq<Byte>, o: seq<Byte>, fs: seq<nat>, g: nat, b: Byte)
    requires 1 <= align <= |t| + 1 && InStream(align, |t|, fs)
    requires (g + 1) * align == |t| + 1
    requires InStream(align, |t| + 1, fs + [g])
    requires o == Frames(align, t, fs) + t[|t| + 1 - align..]
    ensures Frames(align, t + [b], fs + [g]) == o + [b]
  {
    hide Frame;
    FramesLonger(align, t, [b], fs);
    assert (fs + [g])[..|fs|] == fs;
    FrameAtEnd(align, t, g, b);
  }

  lemma FrameAtEnd(align: nat, t: seq<Byte>, g: nat, b: Byte)
    requires 1 <= align <= |t| + 1 && (g + 1) * align == |t| + 1
    ensures Frame(align, t + [b], g) == t[|t| + 1 - align..] + [b]
  {
    FrameBounds(align, g);
    var at := g * align;
    assert at == |t| + 1 - align;
    assert (t + [b])[at..at + align] == t[at..] + [b];
  }

  lemma {:induction false} FramedKept(align: nat, gap: nat, t: seq<Byte>, o: seq<Byte>, p: Phase, fs: seq<nat>, s: seq<Byte>)
    returns (gs: seq<nat>)
    requires Framed(align, t, o, p, fs) && gap % align == 0
    ensures Framed(align, t + s, o + Kept(align, gap, p, s), After(align, gap, p, |s|), gs)
    decreases |s|
  {
    hide Framed;
    if s == [] {
      assert t + s == t && o + Kept(align, gap, p, s) == o;
      gs := fs;
    } else {
      var more := if Keeps(p) then [s[0]] else [];
      var hs := FramedNext(align, gap, t, o, p, fs, s[0]);
      gs := FramedKept(align, gap, t + [s[0]], o + more, Advance(align, gap, p), hs, s[1..]);
      assert t + [s[0]] + s[1..] == t + s;
      assert o + more + Kept(align, gap, Advance(align, gap, p), s[1..]) == o + Kept(align, gap, p, s);
    }
  }

  lemma FramedValid(align: nat, t: seq<Byte>, o: seq<Byte>, p: Phase, fs: seq<nat>)
    requires Framed(align, t, o, p, fs)
    ensures 1 <= align && p.npartial < align
  {
  }

  lemma FramedNext(align: nat, gap: nat, t: seq<Byte>, o: seq<Byte>, p: Phase, fs: seq<nat>, b: Byte)
    returns (gs: seq<nat>)
    requires Framed(align, t, o, p, fs) && gap % align == 0
    ensures Framed(align, t + [b], o + (if Keeps(p) then [b] else []), Advance(align, gap, p), gs)
  {
    hide Framed;
    FramedValid(align, t, o, p, fs);
    gs := fs;
    if !Keeps(p) {
      FramedSkip(align, gap, t, o, p, fs, b);
      assert o + [] == o;
    } else if p.npartial + 1 < align {
      FramedInside(align, gap, t, o, p, fs, b);
    } else {
      var g := FramedWhole(align, gap, t, o, p, fs, b);
      gs := fs + [g];
    }
  }

  datatype Event = Buffer(bytes: seq<Byte>) | Rate(rate: nat)

  function Input(es: seq<Event>): seq<Byte> {
    if es == [] then []
    else (if es[0].Buffer? then es[0].bytes else []) + Input(es[1..])
  }

  function Handle(p: Player, e: Event): Player {
    match e
    case Buffer(bytes) => Consume(p, |bytes|)
    case Rate(rate) => Configure(p, rate)
  }

  function Output(p: Player, es: seq<Event>): seq<Byte>
    decreases |es|
  {
    if es == [] then []
    else (if es[0].Buffer? then Reduce(p, es[0].bytes) else []) + Output(Handle(p, es[0]), es[1..])
  }

  function Final(p: Player, es: seq<Event>): Player
    decreases |es|
  {
    if es == [] then p else Final(Handle(p, es[0]), es[1..])
  }

  /** Does the gap at this rate, as it fits in 8 bits, hold whole frames? */
  predicate WholeGap(align: nat, rate: nat) {
    align >= 1 && rate != SUBSAMPLE_NONE && Gap(align, rate) % align == 0
  }

  predicate WholeRates(align: nat, es: seq<Event>) {
    forall i :: 0 <= i < |es| && es[i].Rate? ==> WholeGap(align, es[i].rate)
  }

  lemma {:induction false} RunKeepsFrames(p: Player, es: seq<Event>, t: seq<Byte>, o: seq<Byte>, fs: seq<nat>)
    returns (gs: seq<nat>)
    requires WholeGap(p.align, p.subsample) && WholeRates(p.align, es)
    requires Framed(p.align, t, o, p.phase, fs)
    ensures Framed(p.align, t + Input(es), o + Output(p, es), Final(p, es).phase, gs)
    decreases |es|
  {
    hide Framed;
    if es == [] {
      gs := fs;
      assert t + Input(es) == t && o + Output(p, es) == o;
    } else {
      var more := if es[0].Buffer? then es[0].bytes else [];
      var kept := if es[0].Buffer? then Reduce(p, es[0].bytes) else [];
      var hs := fs;
      if es[0].Buffer? {
        hs := FramedKept(p.align, p.Gap(), t, o, p.phase, fs, es[0].bytes);
      } else {
        assert t + more == t && o + kept == o;
        assert WholeGap(p.align, es[0].rate);
      }
      assert WholeRates(p.align, es[1..]);
      gs := RunKeepsFrames(Handle(p, es[0]), es[1..], t + more, o + kept, hs);
      assert t + more + Input(es[1..]) == t + Input(es);
      assert o + kept + Output(Handle(p, es[0]), es[1..]) == o + Output(p, es);
    }
  }

  ghost predicate MadeOfFrames(align: nat, t: seq<Byte>, o: seq<Byte>, p: Phase) {
    exists fs :: Framed(align, t, o, p, fs)
  }

  /** Over every interleaving of buffers and changes between fast rates, only whole frames come out. */
  lemma FrameIntegrity(p: Player, es: seq<Event>)
    requires p.phase == FRESH && WholeGap(p.align, p.subsample) && WholeRates(p.align, es)
    ensures MadeOfFrames(p.align, Input(es), Output(p, es), Final(p, es).phase)
  {
    Remainder(0, 0, p.align, 0);
    assert Framed(p.align, [], [], FRESH, []);
    var fs := RunKeepsFrames(p, es, [], [], []);
    assert [] + Input(es) == Input(es) && [] + Output(p, es) == Output(p, es);
  }

  /** A frame size that divides 256, or a gap that fits in 8 bits, is always whole. */
  lemma WholeGapWhen(align: nat, rate: nat)
    requires align >= 1 && rate != SUBSAMPLE_NONE
    requires 256 % align == 0 || Fits(align, rate)
    ensures WholeGap(align, rate)
  {
    var k := rate - 1;
    if Fits(align, rate) {
      Remainder(align * k, 0, 256, align * k);
      Remainder(align * k, k, align, 0);
    } else {
      var q, d := align * k / 256, 256 / align;
      assert 256 == d * align;
      assert Gap(align, rate) == align * k - q * 256;
      assert q * 256 == q * d * align;
      assert Gap(align, rate) == (k - q * d) * align;
      Remainder(Gap(align, rate), k - q * d, align, 0);
    }
  }

  /** A stream that is zero but for one mark. */
  function Marked(n: nat, at: nat): seq<Byte> {
    seq(n, i => if i == at then 1 else 0)
  }

  /** With a gap that is not whole, the second frame that comes out is not a frame of the stream. */
  lemma TornFrame(align: nat, gap: nat)
    requires align >= 1 && gap % align != 0
    ensures var t := Marked(2 * align + gap, align + gap);
            !MadeOfFrames(align, t, Kept(align, gap, FRESH, t), After(align, gap, FRESH, |t|))
  {
    var t := Marked(2 * align + gap, align + gap);
    var o, p := Kept(align, gap, FRESH, t), After(align, gap, FRESH, |t|);
    TornOutput(align, gap, t);
    forall fs | Framed(align, t, o, p, fs)
      ensures false
    {
      assert t[|t|..] == [];
      assert o == Frames(align, t, fs);
      SecondFrame(align, t, fs);
      var f := fs[1];
      FrameBounds(align, f);
      assert t[f * align] == 1;
      assert align + gap == f * align;
      assert gap == (f - 1) * align;
      Remainder(gap, f - 1, align, 0);
    }
  }

  lemma TornOutput(align: nat, gap: nat, t: seq<Byte>)
    requires align >= 1 && t == Marked(2 * align + gap, align + gap)
    ensures |Kept(align, gap, FRESH, t)| == 2 * align
    ensures Kept(align, gap, FRESH, t)[align] == 1
    ensures After(align, gap, FRESH, |t|) == Phase(gap, 0)
  {
    var a, b, c := t[..align], t[align..align + gap], t[align + gap..];
    assert t == a + (b + c);
    KeptAdd(align, gap, FRESH, a, b + c);
    KeepRun(align, gap, FRESH, a);
    AfterAdd(align, gap, FRESH, |a|, |b + c|);
    KeptAdd(align, gap, Phase(gap, 0), b, c);
    SkipRun(align, gap, Phase(gap, 0), b);
    AfterAdd(align, gap, Phase(gap, 0), |b|, |c|);
    KeepRun(align, gap, FRESH, c);
    assert Kept(align, gap, FRESH, t) == a + c;
    assert c[0] == 1;
  }

  lemma SecondFrame(align: nat, t: seq<Byte>, fs: seq<nat>)
    requires align >= 1 && InStream(align, |t|, fs)
    requires |Frames(align, t, fs)| == 2 * align
    ensures |fs| == 2
    ensures Frames(align, t, fs)[align] == Frame(align, t, fs[1])[0]
  {
    FramesLength(align, t, fs);
    Scaled(|fs|, 1, align);
    Scaled(3, |fs|, align);
    FramesLength(align, t, fs[..1]);
    assert |fs[..1]| == 1;
  }

  lemma {:induction false} FramesLength(align: nat, t: seq<Byte>, fs: seq<nat>)
    requires InStream(align, |t|, fs)
    ensures |Frames(align, t, fs)| == |fs| * align
    decreases |fs|
  {
    if fs != [] {
      FramesLength(align, t, fs[..|fs| - 1]);
      assert |fs| * align == (|fs| - 1) * align + align;
    }
  }

  ghost predicate KeepsFrames(align: nat, rate: nat)
    requires rate != SUBSAMPLE_NONE
  {
    forall t: seq<Byte> ::
      MadeOfFrames(align, t, Kept(align, Gap(align, rate), FRESH, t), After(align, Gap(align, rate), FRESH, |t|))
  }

  /** A fixed rate keeps frames whole on every stream exactly when its gap is whole. */
  lemma FrameIntegrityExactly(align: nat, rate: nat)
    requires align >= 1 && rate != SUBSAMPLE_NONE
    ensures KeepsFrames(align, rate) <==> WholeGap(align, rate)
  {
    var gap := Gap(align, rate);
    if WholeGap(align, rate) {
      forall t: seq<Byte>
        ensures MadeOfFrames(align, t, Kept(align, gap, FRESH, t), After(align, gap, FRESH, |t|))
      {
        var p := Player(align, rate, FRESH);
        FrameIntegrity(p, [Buffer(t)]);
        OneBuffer(p, t);
      }
    } else {
      TornFrame(align, gap);
      var t := Marked(2 * align + gap, align + gap);
      assert !MadeOfFrames(align, t, Kept(align, gap, FRESH, t), After(align, gap, FRESH, |t|));
    }
  }

  lemma OneBuffer(p: Player, t: seq<Byte>)
    ensures Input([Buffer(t)]) == t
    ensures Output(p, [Buffer(t)]) == Reduce(p, t)
    ensures Final(p, [Buffer(t)]) == Consume(p, |t|)
  {
    var es := [Buffer(t)];
    assert es[1..] == [];
  }
}
