/**
 * The bitmap converter of NxWidgets/tools/bitmap_converter.py: choosing palette
 * indices, and run-length encoding of a row with 8-bit repeat counts.
 */
module RleBitmap {

  const MAX_REPEATS: nat := 255

  datatype Color = Color(red: int, green: int, blue: int)
  datatype Result<T> = Value(value: T) | ValueError

  // -------- quantisation --------

  function Square(x: int): int {
    x * x
  }

  function Distance(a: Color, b: Color): int {
    Square(a.red - b.red) + Square(a.green - b.green) + Square(a.blue - b.blue)
  }

  /** Position of the first occurrence. */
  function Index(palette: seq<Color>, c: Color): (r: Result<nat>)
    ensures r.Value? ==> r.value < |palette| && palette[r.value] == c
    ensures r.Value? ==> forall i :: 0 <= i < r.value ==> palette[i] != c
    ensures r.ValueError? ==> c !in palette
  {
    if palette == [] then ValueError
    else if palette[0] == c then Value(0)
    else
      var r := Index(palette[1..], c);
      if r.Value? then Value(r.value + 1) else ValueError
  }

  /** The first of the palette's colors that are nearest to c. */
  function Nearest(palette: seq<Color>, c: Color): (r: Color)
    requires palette != []
    ensures exists i ::
      && 0 <= i < |palette| && palette[i] == r
      && (forall j :: 0 <= j < |palette| ==> Distance(c, r) <= Distance(c, palette[j]))
      && (forall j :: 0 <= j < i ==> Distance(c, r) < Distance(c, palette[j]))
  {
    var n := |palette| - 1;
    if n == 0 then palette[0]
    else
      var best := Nearest(palette[..n], c);
      if Distance(c, palette[n]) < Distance(c, best) then palette[n] else best
  }

  /** The index that stands for color c. */
  function Quantize(c: Color, palette: seq<Color>): Result<nat> {
    var exact := Index(palette, c);
    if exact.Value? then exact
    else if palette == [] then ValueError
    else Index(palette, Nearest(palette, c))
  }

  lemma NoDistance(a: Color, b: Color)
    ensures Distance(a, b) >= 0
    ensures Distance(a, b) == 0 <==> a == b
  {
    SquareSign(a.red - b.red);
    SquareSign(a.green - b.green);
    SquareSign(a.blue - b.blue);
  }

  lemma SquareSign(x: int)
    ensures Square(x) >= 0
    ensures Square(x) == 0 <==> x == 0
  {
  }

  /** Distance is Euclidean: along each channel it is the square of the difference, and the channels add up. */
  lemma DistanceAxes(a: Color, b: Color)
    ensures a.green == b.green && a.blue == b.blue ==> Distance(a, b) == (a.red - b.red) * (a.red - b.red)
    ensures a.red == b.red && a.blue == b.blue ==> Distance(a, b) == (a.green - b.green) * (a.green - b.green)
    ensures a.red == b.red && a.green == b.green ==> Distance(a, b) == (a.blue - b.blue) * (a.blue - b.blue)
    ensures var c := Color(b.red, a.green, a.blue); Distance(a, b) == Distance(a, c) + Distance(c, b)
    ensures var c := Color(a.red, b.green, a.blue); Distance(a, b) == Distance(a, c) + Distance(c, b)
  {
  }

  /** Both branches give the lowest index whose color is nearest; only an empty palette has none. */
  lemma QuantizeIsNearest(c: Color, palette: seq<Color>)
    ensures Quantize(c, palette).ValueError? <==> palette == []
    ensures Quantize(c, palette).Value? ==>
      var i := Quantize(c, palette).value;
      && i < |palette|
      && (forall j :: 0 <= j < |palette| ==> Distance(c, palette[i]) <= Distance(c, palette[j]))
      && (forall j :: 0 <= j < i ==> Distance(c, palette[i]) < Distance(c, palette[j]))
  {
    forall j | 0 <= j < |palette|
      ensures Distance(c, palette[j]) >= 0 && (Distance(c, palette[j]) == 0 <==> c == palette[j])
    {
      NoDistance(c, palette[j]);
    }
    NoDistance(c, c);
  }

  // -------- run lengths --------

  datatype Entry = Entry(repeats: nat, color: nat)

  function Repeat(color: nat, n: nat): seq<nat> {
    seq(n, i => color)
  }

  /** The row that a list of entries stands for. */
  function Decode(entries: seq<Entry>): seq<nat> {
    if entries == [] then [] else Repeat(entries[0].color, entries[0].repeats) + Decode(entries[1..])
  }

  /** Every repeat count can be stored in a byte. */
  predicate Storable(entries: seq<Entry>) {
    forall e :: e in entries ==> e.repeats <= MAX_REPEATS
  }

  /** How many of the first `room` elements, without a break, are c. */
  function Run(c: nat, row: seq<nat>, room: nat): (n: nat)
    ensures n <= room && n <= |row|
    ensures row[..n] == Repeat(c, n)
    ensures n < room && n < |row| ==> row[n] != c
    decreases |row|
  {
    if row == [] || room == 0 || row[0] != c then 0 else 1 + Run(c, row[1..], room - 1)
  }

  /** Each entry takes in as much of the row as it can. */
  function Greedy(row: seq<nat>): seq<Entry>
    decreases |row|
  {
    if row == [] then []
    else
      var n := 1 + Run(row[0], row[1..], MAX_REPEATS - 1);
      [Entry(n, row[0])] + Greedy(row[n..])
  }

  lemma {:induction false} RunIsLongest(c: nat, row: seq<nat>, room: nat, n: nat)
    requires n <= room && n <= |row| && row[..n] == Repeat(c, n)
    ensures n <= Run(c, row, room)
  {
    AllSame(c, row, n);
  }

  lemma AllSame(c: nat, row: seq<nat>, n: nat)
    requires n <= |row| && row[..n] == Repeat(c, n)
    ensures forall i :: 0 <= i < n ==> row[i] == c
  {
    forall i | 0 <= i < n
      ensures row[i] == c
    {
      assert row[..n][i] == Repeat(c, n)[i];
    }
  }

  lemma {:induction false} GreedyDecodes(row: seq<nat>)
    ensures Decode(Greedy(row)) == row
    ensures forall e :: e in Greedy(row) ==> 1 <= e.repeats <= MAX_REPEATS
    decreases |row|
  {
    if row != [] {
      var n := 1 + Run(row[0], row[1..], MAX_REPEATS - 1);
      GreedyDecodes(row[n..]);
      assert row[..n] == [row[0]] + row[1..][..n - 1];
      assert row[..n] == Repeat(row[0], n);
      assert row == row[..n] + row[n..];
    }
  }

  /** Dropping the first pixel never makes the encoding longer. */
  lemma {:induction false} GreedyTail(row: seq<nat>)
    requires row != []
    ensures |Greedy(row[1..])| <= |Greedy(row)|
    decreases |row|
  {
    var c, n := row[0], 1 + Run(row[0], row[1..], MAX_REPEATS - 1);
    var rest := row[1..];
    assert row[n..] == rest[n - 1..];
    if n > 1 {
      assert rest[0] == rest[..n - 1][0] == c;
      var m := 1 + Run(c, rest[1..], MAX_REPEATS - 1);
      SameRun(c, rest, n - 1, m);
      if m == n - 1 {
        assert rest[m..] == row[n..];
      } else {
        assert rest[m..] == row[n..][1..];
        GreedyTail(row[n..]);
      }
    }
  }

  /** A run that was cut at the limit may be one longer when counted from its second pixel. */
  lemma SameRun(c: nat, rest: seq<nat>, n: nat, m: nat)
    requires n == Run(c, rest, MAX_REPEATS - 1) && n >= 1
    requires m == 1 + Run(c, rest[1..], MAX_REPEATS - 1)
    ensures m == n || (m == n + 1 && n + 1 <= |rest|)
  {
    assert rest[..n][0] == c;
    assert rest[1..][..n - 1] == rest[..n][1..];
    RunIsLongest(c, rest[1..], MAX_REPEATS - 1, n - 1);
    AllSame(c, rest[1..], m - 1);
  }

  lemma {:induction false} GreedySuffix(row: seq<nat>, k: nat)
    requires k <= |row|
    ensures |Greedy(row[k..])| <= |Greedy(row)|
    decreases k
  {
    if k == 0 {
      assert row[0..] == row;
    } else {
      GreedySuffix(row, k - 1);
      GreedyTail(row[k - 1..]);
      assert row[k - 1..][1..] == row[k..];
    }
  }

  /** No list of storable entries for the same row is shorter. */
  lemma {:induction false} GreedyIsShortest(row: seq<nat>, other: seq<Entry>)
    requires Decode(other) == row && Storable(other)
    ensures |Greedy(row)| <= |other|
    decreases |other|
  {
    if other != [] {
      var e, rest := other[0], Decode(other[1..]);
      assert other[0] in other;
      assert Storable(other[1..]);
      assert row[e.repeats..] == rest;
      GreedyIsShortest(rest, other[1..]);
      if e.repeats > 0 {
        FirstEntry(row, e.color, e.repeats);
      } else {
        assert row == rest;
      }
    }
  }

  lemma FirstEntry(row: seq<nat>, c: nat, m: nat)
    requires 1 <= m <= MAX_REPEATS && m <= |row| && row[..m] == Repeat(c, m)
    ensures |Greedy(row)| <= 1 + |Greedy(row[m..])|
  {
    assert row[0] == row[..m][0] == c;
    assert row[1..][..m - 1] == row[..m][1..];
    RunIsLongest(c, row[1..], MAX_REPEATS - 1, m - 1);
    var n := 1 + Run(c, row[1..], MAX_REPEATS - 1);
    GreedySuffix(row[m..], n - m);
    assert row[m..][n - m..] == row[n..];
  }

  /** A row of one color takes one entry for every 255 pixels or part of them. */
  lemma {:induction false} OneColor(c: nat, n: nat)
    ensures |Greedy(Repeat(c, n))| == (n + 254) / 255
    decreases n
  {
    var row := Repeat(c, n);
    if n > 0 {
      var k := 1 + Run(c, row[1..], MAX_REPEATS - 1);
      assert row[1..] == Repeat(c, n - 1);
      RunOfOne(c, n - 1, MAX_REPEATS - 1);
      assert k == if n < 255 then n else 255;
      assert row[k..] == Repeat(c, n - k);
      OneColor(c, n - k);
    }
  }

  lemma {:induction false} RunOfOne(c: nat, n: nat, room: nat)
    ensures Run(c, Repeat(c, n), room) == if n < room then n else room
    decreases n
  {
    if n > 0 && room > 0 {
      assert Repeat(c, n)[1..] == Repeat(c, n - 1);
      RunOfOne(c, n - 1, room - 1);
    }
  }

  // -------- the encoder --------

  /** What is still to come out when `repeats` of `color` are pending. */
  function Pending(color: nat, repeats: nat, row: seq<nat>): seq<Entry>
    decreases |row|
  {
    if row == [] then [Entry(repeats, color)]
    else if row[0] == color && repeats < MAX_REPEATS then Pending(color, repeats + 1, row[1..])
    else [Entry(repeats, color)] + Pending(row[0], 1, row[1..])
  }

  lemma PendingStep(color: nat, repeats: nat, row: seq<nat>)
    requires row != []
    ensures row[0] == color && repeats < MAX_REPEATS ==>
      Pending(color, repeats, row) == Pending(color, repeats + 1, row[1..])
    ensures !(row[0] == color && repeats < MAX_REPEATS) ==>
      Pending(color, repeats, row) == [Entry(repeats, color)] + Pending(row[0], 1, row[1..])
  {
  }

  lemma PendingLast(color: nat, repeats: nat)
    ensures Pending(color, repeats, []) == [Entry(repeats, color)]
  {
  }

  lemma GreedyNothing()
    ensures Greedy([]) == []
  {
  }

  lemma GreedyStep(row: seq<nat>)
    requires row != []
    ensures var n := 1 + Run(row[0], row[1..], MAX_REPEATS - 1);
            Greedy(row) == [Entry(n, row[0])] + Greedy(row[n..])
  {
  }

  lemma RunStep(c: nat, row: seq<nat>, room: nat)
    ensures Run(c, row, room)
         == if row == [] || room == 0 || row[0] != c then 0 else 1 + Run(c, row[1..], room - 1)
  {
  }

  lemma {:induction false} PendingIsGreedy(color: nat, repeats: nat, row: seq<nat>)
    requires 1 <= repeats <= MAX_REPEATS
    ensures var n := Run(color, row, MAX_REPEATS - repeats);
            Pending(color, repeats, row) == [Entry(repeats + n, color)] + Greedy(row[n..])
    decreases |row|
  {
    hide Pending, Greedy, Run, Repeat;
    RunStep(color, row, MAX_REPEATS - repeats);
    if row == [] {
      PendingLast(color, repeats);
      GreedyNothing();
    } else {
      PendingStep(color, repeats, row);
      if row[0] == color && repeats < MAX_REPEATS {
        PendingIsGreedy(color, repeats + 1, row[1..]);
        var n := Run(color, row[1..], MAX_REPEATS - repeats - 1);
        assert row[1..][n..] == row[n + 1..];
      } else {
        PendingIsGreedy(row[0], 1, row[1..]);
        var n := Run(row[0], row[1..], MAX_REPEATS - 1);
        assert row[1..][n..] == row[n + 1..];
        GreedyStep(row);
        assert row[0..] == row;
      }
    }
  }

  lemma PendingFirst(row: seq<nat>)
    requires row != []
    ensures Pending(row[0], 1, row[1..]) == Greedy(row)
  {
    hide Pending, Greedy, Run;
    PendingIsGreedy(row[0], 1, row[1..]);
    var n := Run(row[0], row[1..], MAX_REPEATS - 1);
    assert row[1..][n..] == row[n + 1..];
    GreedyStep(row);
  }

  /** The palette indices of a row of pixels. */
  function Indices(pixels: seq<Color>, palette: seq<Color>): (r: seq<nat>)
    requires palette != []
    ensures |r| == |pixels|
    ensures forall x :: 0 <= x < |r| ==> Quantize(pixels[x], palette) == Value(r[x])
  {
    if pixels == [] then []
    else
      QuantizeIsNearest(pixels[|pixels| - 1], palette);
      Indices(pixels[..|pixels| - 1], palette) + [Quantize(pixels[|pixels| - 1], palette).value]
  }

  /** What is known of the entries for a row: they decode to it, fit, and no fewer would do. */
  ghost predicate Encodes(entries: seq<Entry>, row: seq<nat>) {
    && Decode(entries) == row
    && (forall e :: e in entries ==> 1 <= e.repeats <= MAX_REPEATS)
    && (forall other :: Decode(other) == row && Storable(other) ==> |entries| <= |other|)
  }

  lemma GreedyEncodes(row: seq<nat>)
    ensures Encodes(Greedy(row), row)
  {
    GreedyDecodes(row);
    forall other | Decode(other) == row && Storable(other)
      ensures |Greedy(row)| <= |other|
    {
      GreedyIsShortest(row, other);
    }
  }

  /** Encodes one row of pixels; an empty palette raises an error unless the row is empty too. */
  method EncodeRow(pixels: seq<Color>, palette: seq<Color>) returns (r: Result<seq<Entry>>)
    ensures r.ValueError? <==> palette == [] && pixels != []
    ensures r.Value? ==> Encodes(r.value, if palette == [] then [] else Indices(pixels, palette))
  {
    hide Pending, Greedy, Encodes, Quantize, Indices;
    var entries: seq<Entry> := [];
    var color: Result<nat> := ValueError;
    var repeats := 0;
    ghost var row := if palette == [] then [] else Indices(pixels, palette);
    for x := 0 to |pixels|
      invariant x > 0 ==> palette != []
      invariant color.ValueError? <==> x == 0
      invariant x == 0 ==> entries == []
      invariant x > 0 ==> 1 <= repeats <= MAX_REPEATS
      invariant x > 0 ==> entries + Pending(color.value, repeats, row[x..]) == Greedy(row)
    {
      QuantizeIsNearest(pixels[x], palette);
      var c := Quantize(pixels[x], palette);
      if c.ValueError? {
        return ValueError;
      }
      assert row[x..][1..] == row[x + 1..] && row[x] == c.value;
      if x > 0 {
        PendingStep(color.value, repeats, row[x..]);
      }
      if c == color && repeats < MAX_REPEATS {
        repeats := repeats + 1;
      } else {
        if color != ValueError {
          entries := entries + [Entry(repeats, color.value)];
        } else {
          PendingFirst(row);
        }
        repeats := 1;
        color := c;
      }
    }
    if color != ValueError {
      PendingLast(color.value, repeats);
      assert row[|pixels|..] == [];
      entries := entries + [Entry(repeats, color.value)];
    } else {
      GreedyNothing();
    }
    GreedyEncodes(row);
    return Value(entries);
  }
}
