/**
 * The decoder object of nuttx/audio/pcm_decode.c: sub-sampling in place in the
 * audio buffer, and the enqueue operation that hands buffers to the lower half.
 */
module PcmDecoder {
  import opened Numbers
  import opened PcmStream
  import opened PcmPlayer

  const HEADER: nat := 44
  const OK := 0
  const EINVAL := 22

  // -------- what the operations compute --------

  /** The decoder; `lower` lists the payloads handed to the lower half, in order. */
  datatype Device = Device(player: Player, streaming: bool, lower: seq<seq<Byte>>, completions: nat)

  /** What is found at the front of the first buffer. */
  datatype Header = NotWav | Wav(align: Byte)

  /** The answers of the header parser and of the lower half. */
  datatype World = World(header: Header, configured: int, accepted: int)

  function Hand(d: Device, p: Player, payload: seq<Byte>): Device {
    d.(player := Consume(p, |payload|), lower := d.lower + [Reduce(p, payload)])
  }

  /** The device and the returned code after a buffer is enqueued. */
  function Enqueued(d: Device, bytes: seq<Byte>, last: bool, w: World): (Device, int) {
    if d.streaming then (Hand(d, d.player, bytes).(streaming := !last), w.accepted)
    else if |bytes| < HEADER then (d, -EINVAL)
    else if w.header.NotWav? then (d.(completions := d.completions + 1), -EINVAL)
    else
      var p := d.player.(align := w.header.align);
      if w.configured < 0 then (d.(player := p), w.configured)
      else
        var e := Hand(d, p, bytes[HEADER..]);
        if w.accepted == OK then (e.(streaming := !last), OK)
        else (e.(completions := d.completions + 1), -EINVAL)
  }

  // -------- a whole stream --------

  datatype Request = Request(bytes: seq<Byte>, last: bool, world: World)

  function Serve(d: Device, rs: seq<Request>): Device
    decreases |rs|
  {
    if rs == [] then d else Serve(Enqueued(d, rs[0].bytes, rs[0].last, rs[0].world).0, rs[1..])
  }

  function Bytes(rs: seq<Request>): seq<Byte> {
    if rs == [] then [] else rs[0].bytes + Bytes(rs[1..])
  }

  /** Only the last buffer of the stream is marked as the final one. */
  predicate OneStream(rs: seq<Request>) {
    forall i :: 0 <= i < |rs| - 1 ==> !rs[i].last
  }

  lemma {:induction false} FlattenAdd(a: seq<seq<Byte>>, b: seq<seq<Byte>>)
    ensures Flatten(a + b) == Flatten(a) + Flatten(b)
    decreases |a|
  {
    if a == [] {
      assert a + b == b;
    } else {
      assert (a + b)[1..] == a[1..] + b;
      FlattenAdd(a[1..], b);
    }
  }

  lemma FlattenOne(s: seq<Byte>)
    ensures Flatten([s]) == s
  {
    assert [s][1..] == [];
  }

  lemma ReduceNothing(p: Player)
    ensures Reduce(p, []) == [] && Consume(p, 0) == p
  {
  }

  lemma {:induction false} Streaming(d: Device, rs: seq<Request>)
    requires rs != [] ==> d.streaming && OneStream(rs)
    ensures var e := Serve(d, rs);
            && Flatten(e.lower) == Flatten(d.lower) + Reduce(d.player, Bytes(rs))
            && e.player == Consume(d.player, |Bytes(rs)|)
            && e.completions == d.completions
            && e.streaming == if rs == [] then d.streaming else !rs[|rs| - 1].last
    decreases |rs|
  {
    hide Reduce, Consume, Flatten;
    if rs == [] {
      ReduceNothing(d.player);
      assert Flatten(d.lower) + [] == Flatten(d.lower);
    } else {
      var r := rs[0];
      var e := Enqueued(d, r.bytes, r.last, r.world).0;
      assert |rs| > 1 ==> !rs[0].last;
      Streaming(e, rs[1..]);
      FlattenAdd(d.lower, [Reduce(d.player, r.bytes)]);
      FlattenOne(Reduce(d.player, r.bytes));
      ReduceAdd(d.player, r.bytes, Bytes(rs[1..]));
    }
  }

  /**
   * A stream with a valid header, a fresh phase and a lower half that takes the
   * first buffer: the lower half receives the reduced payload after the header,
   * however the stream is cut into buffers.
   */
  lemma EndToEnd(d: Device, rs: seq<Request>)
    requires !d.streaming && rs != [] && OneStream(rs)
    requires |rs[0].bytes| >= HEADER && rs[0].world.header.Wav?
    requires rs[0].world.configured >= 0 && rs[0].world.accepted == OK
    ensures var e, p := Serve(d, rs), d.player.(align := rs[0].world.header.align);
            && |Bytes(rs)| >= HEADER
            && Flatten(e.lower) == Flatten(d.lower) + Reduce(p, Bytes(rs)[HEADER..])
            && e.player == Consume(p, |Bytes(rs)| - HEADER)
            && e.completions == d.completions
            && e.streaming == !rs[|rs| - 1].last
  {
    hide Reduce, Consume, Flatten;
    var r, p := rs[0], d.player.(align := rs[0].world.header.align);
    var payload := r.bytes[HEADER..];
    var e := Enqueued(d, r.bytes, r.last, r.world).0;
    assert |rs| > 1 ==> !rs[0].last;
    Streaming(e, rs[1..]);
    FlattenAdd(d.lower, [Reduce(p, payload)]);
    FlattenOne(Reduce(p, payload));
    ReduceAdd(p, payload, Bytes(rs[1..]));
    assert Bytes(rs)[HEADER..] == payload + Bytes(rs[1..]);
  }

  /** The same from a fresh phase: the frames whose number is a multiple of the rate. */
  lemma EndToEndFrames(d: Device, rs: seq<Request>)
    requires !d.streaming && rs != [] && OneStream(rs)
    requires |rs[0].bytes| >= HEADER && rs[0].world.header.Wav?
    requires rs[0].world.configured >= 0 && rs[0].world.accepted == OK
    requires d.player.phase == FRESH && d.player.subsample != SUBSAMPLE_NONE
    requires 1 <= rs[0].world.header.align && Fits(rs[0].world.header.align, d.player.subsample)
    ensures |Bytes(rs)| >= HEADER
    ensures Flatten(Serve(d, rs).lower)
         == Flatten(d.lower)
          + Filter(Bytes(rs)[HEADER..], 0, Sample(rs[0].world.header.align, d.player.subsample))
  {
    EndToEnd(d, rs);
    SubsampleIsFilter(rs[0].world.header.align, d.player.subsample, Bytes(rs)[HEADER..]);
  }

  // -------- buffers that are turned away --------

  /** A first buffer that the stream cannot start with: too short, no WAV header, or a format that is refused. */
  predicate Rejected(r: Request) {
    |r.bytes| < 44 || r.world.header.NotWav? || r.world.configured < 0
  }

  /** How many of them are long enough and have no header. */
  function Headless(rs: seq<Request>): nat {
    if rs == [] then 0
    else (if |rs[0].bytes| >= 44 && rs[0].world.header.NotWav? then 1 else 0) + Headless(rs[1..])
  }

  /** They hand nothing to the lower half, start nothing, and each one without a header is reported complete. */
  lemma {:induction false} RejectedRun(d: Device, rs: seq<Request>)
    requires !d.streaming && forall i :: 0 <= i < |rs| ==> Rejected(rs[i])
    ensures var e := Serve(d, rs);
            && e.lower == d.lower && !e.streaming && e.completions == d.completions + Headless(rs)
            && e.player == d.player.(align := e.player.align)
    decreases |rs|
  {
    if rs != [] {
      assert Rejected(rs[0]);
      RejectedRun(Enqueued(d, rs[0].bytes, rs[0].last, rs[0].world).0, rs[1..]);
    }
  }

  lemma {:induction false} ServeAdd(d: Device, rs: seq<Request>, ss: seq<Request>)
    ensures Serve(d, rs + ss) == Serve(Serve(d, rs), ss)
    decreases |rs|
  {
    hide Enqueued;
    if rs == [] {
      assert rs + ss == ss;
    } else {
      assert (rs + ss)[1..] == rs[1..] + ss;
      ServeAdd(Enqueued(d, rs[0].bytes, rs[0].last, rs[0].world).0, rs[1..], ss);
    }
  }

  /** Nor do they disturb the stream that comes after them. */
  lemma RejectedThenPlays(d: Device, rs: seq<Request>, ss: seq<Request>)
    requires !d.streaming && forall i :: 0 <= i < |rs| ==> Rejected(rs[i])
    requires ss != [] && OneStream(ss) && !Rejected(ss[0]) && ss[0].world.accepted == OK
    ensures |Bytes(ss)| >= 44
    ensures Flatten(Serve(d, rs + ss).lower)
         == Flatten(d.lower) + Reduce(d.player.(align := ss[0].world.header.align), Bytes(ss)[44..])
  {
    hide Reduce, Consume, Flatten;
    RejectedRun(d, rs);
    ServeAdd(d, rs, ss);
    EndToEnd(Serve(d, rs), ss);
  }

  /** The header is taken over, and the format offered to the lower half. */
  predicate Offered(r: Request) {
    |r.bytes| >= 44 && r.world.header.Wav?
  }

  /** Its answer settles the matter: it refuses the format, or takes the buffer. */
  predicate Settled(r: Request) {
    Offered(r) && (r.world.configured < 0 || r.world.accepted == 0)
  }

  /** What the caller is told: in mid-stream the answer of the lower half; at the start zero if the stream has started,
      and otherwise the lower half's refusal of the format or -EINVAL. */
  lemma Answers(d: Device, r: Request)
    ensures var ret := Enqueued(d, r.bytes, r.last, r.world).1;
            if d.streaming then ret == r.world.accepted
            else if Offered(r) && r.world.configured < 0 then ret == r.world.configured
            else if !Rejected(r) && r.world.accepted == 0 then ret == 0
            else ret == -22
  {
    hide Reduce, Consume;
  }

  /** What is left behind: streaming goes on until the last buffer, completion is reported for a first buffer that is
      long enough and fails other than by its format, and the frame size is taken from every header. */
  lemma Leaves(d: Device, r: Request)
    ensures var e := Enqueued(d, r.bytes, r.last, r.world).0;
            && e.streaming == (!r.last && (d.streaming || (!Rejected(r) && r.world.accepted == 0)))
            && |e.lower| == |d.lower| + (if d.streaming || !Rejected(r) then 1 else 0)
            && e.completions == d.completions + (if !d.streaming && |r.bytes| >= 44 && !Settled(r) then 1 else 0)
            && e.player.align == (if !d.streaming && Offered(r) then r.world.header.align else d.player.align)
            && e.player.subsample == d.player.subsample
  {
    hide Reduce, After;
  }

  // -------- the buffer and the decoder --------

  class ApBuffer {
    const samp: array<Byte>
    const nmaxbytes: nat
    var nbytes: nat
    var curbyte: nat
    var last: bool

    predicate Valid()
      reads this
    {
      curbyte <= nbytes <= nmaxbytes == samp.Length
    }

    function Data(): seq<Byte>
      requires Valid()
      reads this, samp
    {
      samp[curbyte..nbytes]
    }

    constructor (bytes: seq<Byte>, room: nat, last: bool)
      ensures Valid() && fresh(samp) && Data() == bytes && this.last == last
      ensures curbyte == 0 && nmaxbytes == |bytes| + room
    {
      nmaxbytes, nbytes, curbyte, this.last := |bytes| + room, |bytes|, 0, last;
      samp := new Byte[|bytes| + room](i => if 0 <= i < |bytes| then bytes[i] else 0);
      new;
      assert samp[0..nbytes] == bytes;
    }
  }

  /** b is a with n bytes copied down from src to dest and the rest of [dest, src + n) arbitrary. */
  predicate Moved(a: seq<Byte>, b: seq<Byte>, dest: nat, src: nat, n: nat) {
    && dest <= src && src + n <= |a| == |b|
    && b[..dest] == a[..dest]
    && b[dest..dest + n] == a[src..src + n]
    && b[src + n..] == a[src + n..]
  }

  /** Copies n bytes down the buffer; the two ranges may overlap. */
  method CopyDown(samp: array<Byte>, dest: nat, src: nat, n: nat)
    requires dest <= src && src + n <= samp.Length
    modifies samp
    ensures Moved(old(samp[..]), samp[..], dest, src, n)
  {
    ghost var was := samp[..];
    var i := 0;
    while i < n
      invariant 0 <= i <= n
      invariant Moved(was, samp[..], dest, src, i)
    {
      ghost var a := samp[..];
      samp[dest + i] := samp[src + i];
      MovedOne(was, a, samp[..], dest, src, i);
      i := i + 1;
    }
  }

  lemma MovedOne(was: seq<Byte>, a: seq<Byte>, b: seq<Byte>, dest: nat, src: nat, i: nat)
    requires Moved(was, a, dest, src, i) && src + i < |a|
    requires b == a[dest + i := a[src + i]]
    ensures Moved(was, b, dest, src, i + 1)
  {
    assert a[src + i..][0] == was[src + i..][0];
    assert b[dest..dest + i + 1] == a[dest..dest + i] + [was[src + i]];
    assert b[src + i + 1..] == a[src + i..][1..];
    assert was[src + i + 1..] == was[src + i..][1..];
  }

  /**
   * Part way through a buffer: of the input, `done` bytes are consumed, what they
   * are reduced to lies below dest, and the rest is still to be read at src.
   */
  ghost predicate Reduced(align: nat, gap: nat, p: Phase, input: seq<Byte>, done: nat,
                          a: seq<Byte>, dest: nat, src: nat, end: nat, now: Phase)
  {
    && done <= |input| && dest <= src <= end <= |a| && end - src == |input| - done
    && a[src..end] == input[done..]
    && a[..dest] == Kept(align, gap, p, input[..done])
    && now == After(align, gap, p, done)
  }

  lemma ReducedStart(align: nat, gap: nat, p: Phase, a: seq<Byte>, src: nat, end: nat)
    requires src <= end <= |a|
    ensures Reduced(align, gap, p, a[src..end], 0, a, 0, src, end, p)
  {
  }

  lemma ReducedOrder(align: nat, gap: nat, p: Phase, input: seq<Byte>, done: nat,
                     a: seq<Byte>, dest: nat, src: nat, end: nat, now: Phase)
    requires Reduced(align, gap, p, input, done, a, dest, src, end, now)
    ensures dest <= src
  {
  }

  lemma ReducedSkip(align: nat, gap: nat, p: Phase, input: seq<Byte>, done: nat,
                    a: seq<Byte>, dest: nat, src: nat, end: nat, now: Phase, n: nat)
    requires Reduced(align, gap, p, input, done, a, dest, src, end, now)
    requires now.npartial == 0 && n <= now.skip && src + n <= end
    ensures Reduced(align, gap, p, input, done + n, a, dest, src + n, end, Phase(now.skip - n, 0))
  {
    var s, t := input[..done], input[done..done + n];
    assert input[..done + n] == s + t;
    KeptAdd(align, gap, p, s, t);
    AfterAdd(align, gap, p, done, n);
    SkipRun(align, gap, now, t);
    assert a[src + n..end] == a[src..end][n..];
  }

  lemma ReducedCopy(align: nat, gap: nat, p: Phase, input: seq<Byte>, done: nat,
                    a: seq<Byte>, b: seq<Byte>, dest: nat, src: nat, end: nat, now: Phase, n: nat)
    requires Reduced(align, gap, p, input, done, a, dest, src, end, now)
    requires Keeps(now) && 1 <= n && now.npartial + n <= align && src + n <= end
    requires Moved(a, b, dest, src, n)
    ensures Reduced(align, gap, p, input, done + n, b, dest + n, src + n, end,
                    if now.npartial + n == align then Phase(gap, 0) else Phase(now.skip, now.npartial + n))
  {
    var s, t := input[..done], input[done..done + n];
    assert input[..done + n] == s + t;
    KeptAdd(align, gap, p, s, t);
    AfterAdd(align, gap, p, done, n);
    KeepRun(align, gap, now, t);
    ReducedBytes(input, done, a, b, dest, src, end, n);
  }

  lemma ReducedBytes(input: seq<Byte>, done: nat, a: seq<Byte>, b: seq<Byte>, dest: nat, src: nat, end: nat, n: nat)
    requires done + n <= |input| && dest <= src <= src + n <= end <= |a|
    requires end - src == |input| - done && a[src..end] == input[done..]
    requires Moved(a, b, dest, src, n)
    ensures b[..dest + n] == a[..dest] + input[done..done + n]
    ensures b[src + n..end] == input[done + n..]
  {
    assert b[..dest + n] == b[..dest] + b[dest..dest + n];
    assert a[src..src + n] == a[src..end][..n];
    assert b[src + n..end] == b[src + n..][..end - src - n];
    assert b[src + n..end] == a[src..end][n..];
  }

  lemma ReducedInPlace(a: seq<Byte>, n: nat)
    requires n <= |a|
    ensures Moved(a, a, 0, 0, n)
  {
  }

  class Decoder {
    var align: Byte
    var subsample: Byte
    var skip: Byte
    var npartial: Byte
    var streaming: bool
    var lower: seq<seq<Byte>>
    var completions: nat

    function View(): Player
      reads this
    {
      Player(align, subsample, Phase(skip, npartial))
    }

    function State(): Device
      reads this
    {
      Device(View(), streaming, lower, completions)
    }

    constructor ()
      ensures State() == Device(Player(0, SUBSAMPLE_NONE, FRESH), false, [], 0)
    {
      align, subsample, skip, npartial := 0, 0, 0, 0;
      streaming, lower, completions := false, [], 0;
    }

    method Configure(rate: Byte)
      modifies this`subsample, this`skip, this`npartial
      ensures View() == PcmPlayer.Configure(old(View()), rate)
    {
      if subsample == SUBSAMPLE_NONE {
        if rate != SUBSAMPLE_NONE {
          npartial := 0;
          skip := 0;
          subsample := rate;
        }
      } else if rate == SUBSAMPLE_NONE {
        npartial := 0;
        skip := 0;
        subsample := SUBSAMPLE_NONE;
      } else if subsample != rate {
        subsample := rate;
      }
    }

    /** Reduces the buffer in place and carries the phase over to the next one. */
    method Subsample(apb: ApBuffer)
      requires apb.Valid()
      requires subsample != SUBSAMPLE_NONE ==> View().Valid()
      modifies this`skip, this`npartial, apb.samp, apb`curbyte, apb`nbytes
      ensures apb.Valid() && apb.Data() == Reduce(old(View()), old(apb.Data()))
      ensures View() == Consume(old(View()), |old(apb.Data())|)
    {
      if subsample == SUBSAMPLE_NONE {
        return;
      }
      hide Reduced, Moved, Kept, After, SkipSize;
      ghost var input, p, gap := apb.Data(), View().phase, View().Gap();
      ghost var done: nat := 0;
      var src, dest := apb.curbyte, 0;
      var srcsize, destsize := apb.nbytes - apb.curbyte, apb.nmaxbytes;
      var skipsize := SkipSize(align, subsample);
      ReducedStart(align, gap, p, apb.samp[..], src, apb.nbytes);
      if npartial > 0 {
        if npartial + srcsize < align {
          Partial(align, gap, p, input);
          npartial := npartial + srcsize;
          return;
        }
        var copysize := align - npartial;
        ghost var a := apb.samp[..];
        if apb.curbyte > 0 {
          CopyDown(apb.samp, dest, src, copysize);
        } else {
          ReducedInPlace(a, copysize);
        }
        ReducedCopy(align, gap, p, input, done, a, apb.samp[..], dest, src, apb.nbytes, p, copysize);
        src, dest := src + copysize, dest + copysize;
        npartial := 0;
        srcsize, destsize := srcsize - copysize, destsize - copysize;
        skip := skipsize % 256;
        done := done + copysize;
      }
      destsize := SubsampleFrames(apb, src, dest, srcsize, destsize, skipsize, input, p, done);
      apb.curbyte := 0;
      apb.nbytes := apb.nmaxbytes - destsize;
      assert apb.Data() == apb.samp[..][..apb.nbytes];
    }

    /** The loop of Subsample over the rest of the buffer. */
    method SubsampleFrames(apb: ApBuffer, src0: nat, dest0: nat, srcsize0: nat, destsize0: nat, skipsize: nat,
                           ghost input: seq<Byte>, ghost p: Phase, ghost done0: nat)
      returns (destsize: nat)
      requires apb.Valid() && align >= 1 && npartial == 0
      requires src0 + srcsize0 == apb.nbytes && dest0 + destsize0 == apb.nmaxbytes
      requires Reduced(align, skipsize % 256, p, input, done0, apb.samp[..], dest0, src0, apb.nbytes, Phase(skip, 0))
      modifies this`skip, this`npartial, apb.samp
      ensures destsize <= apb.nmaxbytes
      ensures apb.samp[..][..apb.nmaxbytes - destsize] == Kept(align, skipsize % 256, p, input)
      ensures Phase(skip, npartial) == After(align, skipsize % 256, p, |input|)
    {
      hide Reduced, Moved, Kept, After;
      ghost var gap := skipsize % 256;
      ghost var done: nat := done0;
      var src, dest, srcsize := src0, dest0, srcsize0;
      destsize := destsize0;
      ReducedOrder(align, gap, p, input, done, apb.samp[..], dest, src, apb.nbytes, Phase(skip, npartial));
      while srcsize > 0
        invariant 0 <= srcsize && 0 <= dest <= src
        invariant src + srcsize == apb.nbytes && dest + destsize == apb.nmaxbytes
        invariant npartial > 0 ==> srcsize == 0
        invariant Reduced(align, gap, p, input, done, apb.samp[..], dest, src, apb.nbytes, Phase(skip, npartial))
      {
        ghost var now := Phase(skip, npartial);
        if skip > 0 {
          var copysize := if skip < srcsize then skip else srcsize;
          ReducedSkip(align, gap, p, input, done, apb.samp[..], dest, src, apb.nbytes, now, copysize);
          skip := skip - copysize;
          src, srcsize := src + copysize, srcsize - copysize;
          done := done + copysize;
        } else {
          var copysize;
          if srcsize < align {
            copysize := srcsize;
            npartial := srcsize;
          } else {
            copysize := align;
            skip := skipsize % 256;
          }
          ghost var a := apb.samp[..];
          CopyDown(apb.samp, dest, src, copysize);
          ReducedCopy(align, gap, p, input, done, a, apb.samp[..], dest, src, apb.nbytes, now, copysize);
          src, dest := src + copysize, dest + copysize;
          srcsize, destsize := srcsize - copysize, destsize - copysize;
          done := done + copysize;
        }
      }
      ReducedEnd(align, gap, p, input, done, apb.samp[..], dest, src, apb.nbytes, Phase(skip, npartial));
    }

    /** Hands a buffer, reduced, to the lower half; the first one must start with a header. */
    method EnqueueBuffer(apb: ApBuffer, w: World) returns (ret: int)
      requires apb.Valid()
      requires subsample != SUBSAMPLE_NONE ==>
        if streaming then View().Valid()
        else w.header.Wav? ==> View().(align := w.header.align).Valid()
      modifies this, apb.samp, apb`curbyte, apb`nbytes
      ensures (State(), ret) == Enqueued(old(State()), old(apb.Data()), apb.last, w)
      ensures subsample == old(subsample) && apb.Valid()
      ensures |lower| > |old(lower)| ==> apb.Data() == lower[|old(lower)|]
    {
      if streaming {
        if apb.last {
          streaming := false;
        }
        Subsample(apb);
        lower := lower + [apb.Data()];
        return w.accepted;
      }
      var bytesleft := apb.nbytes - apb.curbyte;
      if bytesleft >= HEADER {
        if w.header.Wav? {
          align := w.header.align;
          if w.configured < 0 {
            return w.configured;
          }
          apb.curbyte := apb.curbyte + HEADER;
          assert apb.Data() == old(apb.Data())[HEADER..];
          Subsample(apb);
          lower := lower + [apb.Data()];
          if w.accepted == OK {
            streaming := !apb.last;
            return OK;
          }
        }
        completions := completions + 1;
      }
      return -EINVAL;
    }
  }

  lemma Partial(align: nat, gap: nat, p: Phase, input: seq<Byte>)
    requires p.npartial > 0 && p.npartial + |input| < align
    ensures Kept(align, gap, p, input) == input
    ensures After(align, gap, p, |input|) == Phase(p.skip, p.npartial + |input|)
  {
    if input != [] {
      KeepRun(align, gap, p, input);
    }
  }

  lemma ReducedEnd(align: nat, gap: nat, p: Phase, input: seq<Byte>, done: nat,
                   a: seq<Byte>, dest: nat, src: nat, end: nat, now: Phase)
    requires Reduced(align, gap, p, input, done, a, dest, src, end, now) && src == end
    ensures dest <= |a| && a[..dest] == Kept(align, gap, p, input)
    ensures now == After(align, gap, p, |input|)
  {
    assert input[..done] == input;
  }
}
