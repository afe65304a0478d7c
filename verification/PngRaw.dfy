/** From inflated PNG data to the pixels of one image or interlace pass: size checks, unfiltering
    of all rows, expansion of samples narrower than a byte, and the byte order of wider ones. */
module PngRaw {
  import opened Bits
  import opened PngFilter
  import opened PngRow
  import opened PngImage
  import opened PngExpand

  const INT_MAX: nat := 0x7FFF_FFFF

  datatype Status = Decoded | TooLarge | NotEnoughPixels | InvalidWidth | InvalidFilter

  predicate Format(img_n: nat, out_n: nat, depth: nat) {
    && 1 <= img_n <= 4 && depth in {1, 2, 4, 8, 16}
    && (out_n == img_n || (out_n == img_n + 1 && img_n in {1, 3}))
  }

  /** Bytes of one stored scanline. */
  function WidthBytes(x: nat, img_n: nat, depth: nat): nat {
    (img_n * x * depth + 7) / 8
  }

  /** Bytes of one sample in the output. */
  function SampleBytes(depth: nat): nat {
    if depth == 16 then 2 else 1
  }

  /** Distance to the byte that filters call left. */
  function FilterBytes(img_n: nat, depth: nat): nat {
    if depth < 8 then 1 else img_n * SampleBytes(depth)
  }

  /** It is the size of a pixel in bytes, rounded up to one. */
  lemma FilterBytesIs(img_n: nat, out_n: nat, depth: nat)
    requires Format(img_n, out_n, depth)
    ensures FilterBytes(img_n, depth) == if depth < 8 then 1 else img_n * depth / 8
  {
  }

  function Scale(depth: nat, color: nat): nat
    requires depth <= 8
  {
    if color == 0 then DEPTH_SCALE[depth] else 1
  }

  /** The bytes of each pair exchanged: big-endian samples of 16 bits as a little-endian machine
      holds them. */
  function Native(s: seq<Byte>): (r: seq<Byte>)
    ensures |r| == |s|
  {
    seq(|s|, k requires 0 <= k < |s| => if k % 2 == 1 then s[k - 1] else if k + 1 < |s| then s[k + 1] else s[k])
  }

  /** The output row that a scanline stands for. */
  function OutputRow(row: seq<Byte>, x: nat, img_n: nat, out_n: nat, depth: nat, color: nat): seq<Byte>
    requires Format(img_n, out_n, depth)
    requires depth < 8 ==> |row| == Packed(x * img_n, 8 / depth)
  {
    if depth < 8 then
      var samples := Samples(row, x * img_n, depth, 8 / depth, Scale(depth, color));
      if out_n == img_n then samples else Spread(samples, img_n, 1)
    else
      var spread := Spread(row, img_n * SampleBytes(depth), (out_n - img_n) * SampleBytes(depth));
      if depth == 16 then Native(spread) else spread
  }

  // ----- sizes

  lemma {:induction false} EnoughIs(raw: seq<Byte>, h: nat, width: nat)
    ensures Enough(raw, h, width) <==> h * (width + 1) <= |raw|
    decreases h
  {
    if h > 0 {
      assert h * (width + 1) == (h - 1) * (width + 1) + (width + 1);
      if |raw| >= 1 + width {
        EnoughIs(raw[1 + width..], h - 1, width);
      }
    }
  }

  /** A row of x pixels is whole pixels, and takes x output pixels. */
  lemma {:induction false} RowOfPixels(x: nat, fb: nat, ob: nat)
    requires fb > 0
    ensures PixelStart(x * fb, fb) && Place(x * fb, fb, ob) == x * ob
  {
    if x > 0 {
      RowOfPixels(x - 1, fb, ob);
      assert x * fb == (x - 1) * fb + fb;
      assert x * ob == (x - 1) * ob + ob;
    }
  }

  lemma {:induction false} PackedIs(n: nat, depth: nat)
    requires depth in {1, 2, 4}
    ensures (n * depth + 7) / 8 == Packed(n, 8 / depth)
  {
    if depth == 1 {
      if n > 8 {
        PackedIs(n - 8, 1);
      }
    } else if depth == 2 {
      if n > 4 {
        PackedIs(n - 4, 2);
      }
    } else if n > 2 {
      PackedIs(n - 2, 4);
    }
  }

  lemma {:induction false} EachByteStarts(k: nat)
    ensures PixelStart(k, 1)
  {
    if k > 0 {
      EachByteStarts(k - 1);
    }
  }

  // ----- rows as slices of the buffer

  ghost predicate SliceIs(s: seq<Byte>, a: int, row: seq<Byte>) {
    0 <= a && a + |row| <= |s| && s[a..a + |row|] == row
  }

  lemma SliceKept(s: seq<Byte>, s': seq<Byte>, a: int, row: seq<Byte>, b: int, c: int)
    requires SliceIs(s, a, row) && Within(s, s', b, c) && (a + |row| <= b || c <= a)
    ensures SliceIs(s', a, row)
  {
  }

  lemma StartsBehind(d: nat, fb: nat)
    requires fb > 0
    ensures PixelStart(d, fb) ==> PixelStart(d + fb, fb)
    ensures d >= fb && PixelStart(d, fb) ==> PixelStart(d - fb, fb)
  {
    if d == 0 {
      StartZero(fb);
    }
  }

  /** A finished row without its first pixel. */
  lemma RowTail(s: seq<Byte>, o: int, row: seq<Byte>, fb: nat, ob: nat)
    requires 0 < fb <= ob && fb <= |row| && RowDone(s, o, row, fb, ob)
    ensures RowDone(s, o + ob, row[fb..], fb, ob)
  {
    hide Place, PixelStart;
    var rest, o' := row[fb..], o + ob;
    forall t: nat | t < |rest|
      ensures 0 <= o' + Place(t, fb, ob) < |s| && s[o' + Place(t, fb, ob)] == rest[t]
    {
      PlaceBack(t + fb, fb, ob);
    }
    forall x: nat | x < ob - fb
      ensures AlphaAt(s, o', |rest|, fb, ob, x)
    {
      assert AlphaAt(s, o, |row|, fb, ob, x);
      forall d: nat | d < |rest| && PixelStart(d, fb)
        ensures 0 <= o' + Place(d, fb, ob) + fb + x < |s| && s[o' + Place(d, fb, ob) + fb + x] == 255
      {
        StartsBehind(d, fb);
        PlaceBack(d + fb, fb, ob);
      }
    }
  }

  /** The first pixel of a finished row and its alpha. */
  lemma RowHead(s: seq<Byte>, o: int, row: seq<Byte>, fb: nat, ob: nat)
    requires 0 < fb <= ob && fb <= |row| && RowDone(s, o, row, fb, ob) && 0 <= o && o + ob <= |s|
    ensures s[o..o + ob] == row[..fb] + seq(ob - fb, _ => 255)
  {
    hide Place, PixelStart;
    StartZero(fb);
    PlaceStart(0, fb, ob);
    var want := row[..fb] + seq(ob - fb, _ => 255);
    forall t: nat | t < ob
      ensures s[o..o + ob][t] == want[t]
    {
      if t < fb {
        PlaceStart(t, fb, ob);
      } else {
        assert AlphaAt(s, o, |row|, fb, ob, t - fb);
      }
    }
  }

  /** A finished row is the scanline with its pixels spread. */
  lemma {:induction false} RowIsSpread(s: seq<Byte>, o: int, row: seq<Byte>, fb: nat, ob: nat)
    requires 0 < fb <= ob && PixelStart(|row|, fb) && RowDone(s, o, row, fb, ob)
    requires 0 <= o && o + Place(|row|, fb, ob) <= |s|
    ensures SliceIs(s, o, Spread(row, fb, ob - fb)) && |Spread(row, fb, ob - fb)| == Place(|row|, fb, ob)
    decreases |row|
  {
    hide RowDone;
    if |row| > 0 {
      StartZero(fb);
      StartStep(0, |row|, fb);
      PlaceBack(|row|, fb, ob);
      RowTail(s, o, row, fb, ob);
      RowHead(s, o, row, fb, ob);
      RowIsSpread(s, o + ob, row[fb..], fb, ob);
      var rest := Spread(row[fb..], fb, ob - fb);
      assert Spread(row, fb, ob - fb) == s[o..o + ob] + rest;
      assert s[o..o + ob + |rest|] == s[o..o + ob] + s[o + ob..o + ob + |rest|];
    }
  }

  // ----- expanding

  lemma RowSizes(x: nat, img_n: nat, out_n: nat)
    requires out_n == img_n || out_n == img_n + 1
    ensures x * out_n == if out_n == img_n then x * img_n else x * img_n + x
    ensures img_n == 1 ==> x * img_n == x
    ensures img_n == 3 ==> x * img_n == 3 * x
  {
  }

  /** Expands one row whose packed bytes end at the end of its space, and inserts alpha. */
  method ExpandOne(out: array<Byte>, start: nat, x: nat, img_n: nat, out_n: nat, depth: nat, color: nat,
                   ghost row: seq<Byte>)
    requires Format(img_n, out_n, depth) && depth < 8 && |row| == Packed(x * img_n, 8 / depth)
    requires start + x * out_n <= out.Length && |row| <= x * out_n
    requires SliceIs(out[..], start + x * out_n - |row|, row)
    modifies out
    ensures |OutputRow(row, x, img_n, out_n, depth, color)| == x * out_n
    ensures SliceIs(out[..], start, OutputRow(row, x, img_n, out_n, depth, color))
    ensures Within(old(out[..]), out[..], start, start + x * out_n)
  {
    hide Samples, Packed, Spread;
    RowSizes(x, img_n, out_n);
    var n := x * img_n;
    var end := start + x * out_n;
    ghost var samples := Samples(row, n, depth, 8 / depth, Scale(depth, color));
    ExpandRow(out, start, end, n, depth, 8 / depth, Scale(depth, color), row);
    ghost var before := out[..];
    if img_n != out_n {
      if img_n == 1 {
        InsertAlpha1(out, start, x);
      } else {
        InsertAlpha3(out, start, x);
      }
      assert before[start..start + n] == samples;
      assert out[start..end] == Spread(samples, img_n, 1);
    }
  }

  /** A row that has been expanded, or is still packed at the right of its space. */
  ghost predicate RowState(s: seq<Byte>, start: nat, row: seq<Byte>, wide: seq<Byte>, expanded: bool) {
    if expanded then SliceIs(s, start, wide) else SliceIs(s, start + |wide| - |row|, row)
  }

  ghost predicate HalfExpanded(s: seq<Byte>, rows: seq<seq<Byte>>, wide: seq<seq<Byte>>, j: nat, stride: nat)
    requires |wide| == |rows|
  {
    forall i: nat :: i < |rows| ==> RowState(s, Times(i, stride), rows[i], wide[i], i < j)
  }

  lemma StateKept(s: seq<Byte>, s': seq<Byte>, start: nat, row: seq<Byte>, wide: seq<Byte>, expanded: bool, a: int, b: int)
    requires RowState(s, start, row, wide, expanded) && |row| <= |wide| && Within(s, s', a, b)
    requires start + |wide| <= a || b <= start
    ensures RowState(s', start, row, wide, expanded)
  {
    hide SliceIs, Within;
    if expanded {
      SliceKept(s, s', start, wide, a, b);
    } else {
      SliceKept(s, s', start + |wide| - |row|, row, a, b);
    }
  }

  lemma OneMoreExpanded(s: seq<Byte>, s': seq<Byte>, rows: seq<seq<Byte>>, wide: seq<seq<Byte>>, j: nat, stride: nat)
    requires |wide| == |rows| && j < |rows| && HalfExpanded(s, rows, wide, j, stride)
    requires forall i: nat :: i < |rows| ==> |wide[i]| == stride && |rows[i]| <= stride
    requires Within(s, s', Times(j, stride), Times(j, stride) + stride)
    requires SliceIs(s', Times(j, stride), wide[j])
    ensures HalfExpanded(s', rows, wide, j + 1, stride)
  {
    hide SliceIs, Within, Times;
    var a := Times(j, stride);
    forall i: nat | i < |rows|
      ensures RowState(s', Times(i, stride), rows[i], wide[i], i < j + 1)
    {
      if i != j {
        hide RowState;
        if i < j {
          RowsApart(i, j, stride);
        } else {
          RowsApart(j, i, stride);
        }
        StateKept(s, s', Times(i, stride), rows[i], wide[i], i < j, a, a + stride);
      }
    }
  }

  method ExpandImage(out: array<Byte>, x: nat, y: nat, img_n: nat, out_n: nat, depth: nat, color: nat,
                     ghost rows: seq<seq<Byte>>, ghost wide: seq<seq<Byte>>)
    requires Format(img_n, out_n, depth) && depth < 8 && |rows| == y == |wide|
    requires forall i: nat :: i < y ==> |rows[i]| == Packed(x * img_n, 8 / depth) <= x * out_n
    requires forall i: nat :: i < y ==> wide[i] == OutputRow(rows[i], x, img_n, out_n, depth, color)
    requires forall i: nat :: i < y ==> |wide[i]| == x * out_n
    requires Times(y, x * out_n) <= out.Length
    requires HalfExpanded(out[..], rows, wide, 0, x * out_n)
    modifies out
    ensures forall i: nat :: i < y ==> SliceIs(out[..], Times(i, x * out_n), wide[i])
  {
    hide OutputRow, SliceIs, Times, Packed, Within;
    var stride := x * out_n;
    var start := 0;
    TimesStep(0, stride);
    for j := 0 to y
      invariant start == Times(j, stride)
      invariant HalfExpanded(out[..], rows, wide, j, stride)
    {
      RowsApart(j, y, stride);
      ghost var before := out[..];
      ExpandOne(out, start, x, img_n, out_n, depth, color, rows[j]);
      OneMoreExpanded(before, out[..], rows, wide, j, stride);
      TimesStep(j, stride);
      start := start + stride;
    }
  }

  // ----- the whole image

  /** Output rows and the scanlines they stand for. */
  ghost predicate Outputs(rows: seq<seq<Byte>>, wide: seq<seq<Byte>>, x: nat, img_n: nat, out_n: nat, depth: nat, color: nat)
    requires Format(img_n, out_n, depth)
  {
    && |wide| == |rows|
    && forall j: nat :: j < |rows| ==>
      && (depth < 8 ==> |rows[j]| == Packed(x * img_n, 8 / depth))
      && wide[j] == OutputRow(rows[j], x, img_n, out_n, depth, color)
  }

  /** The buffer holds these rows of stride bytes, one after the other. */
  ghost predicate Shows(s: seq<Byte>, wide: seq<seq<Byte>>, stride: nat) {
    && Times(|wide|, stride) <= |s|
    && forall j: nat :: j < |wide| ==> |wide[j]| == stride && SliceIs(s, Times(j, stride), wide[j])
  }

  lemma {:induction false} SpreadNone(s: seq<Byte>, n: nat)
    requires n > 0 && PixelStart(|s|, n)
    ensures Spread(s, n, 0) == s
  {
    if |s| > 0 {
      SpreadNone(s[n..], n);
      assert s[..n] + seq(0, _ => 255) + s[n..] == s;
    }
  }

  /** Packed rows in place are ready to be expanded. */
  lemma ReadyToExpand(s: seq<Byte>, rows: seq<seq<Byte>>, wide: seq<seq<Byte>>, width: nat, stride: nat)
    requires |wide| == |rows| && width <= stride && Times(|rows|, stride) <= |s|
    requires forall i: nat :: i < |rows| ==> |rows[i]| == width && |wide[i]| == stride
    requires RowsDone(s, stride - width, stride, rows, 1, 1)
    ensures HalfExpanded(s, rows, wide, 0, stride)
  {
    hide RowDone, Times, SliceIs, Spread;
    forall i: nat | i < |rows|
      ensures RowState(s, Times(i, stride), rows[i], wide[i], i < 0)
    {
      RowsApart(i, |rows|, stride);
      var o := stride - width + Times(i, stride);
      assert RowDone(s, o, rows[i], 1, 1);
      EachByteStarts(width);
      PlaceSame(width, 1);
      RowIsSpread(s, o, rows[i], 1, 1);
      SpreadNone(rows[i], 1);
    }
  }

  /** Fewer than 8 bits per sample. */
  method CreateNarrow(out: array<Byte>, raw: seq<Byte>, x: nat, y: nat, img_n: nat, out_n: nat, depth: nat, color: nat)
    returns (ok: bool, ghost rows: seq<seq<Byte>>, ghost wide: seq<seq<Byte>>)
    requires Format(img_n, out_n, depth) && depth < 8 && x >= 1
    requires var width := WidthBytes(x, img_n, depth); width <= x && Enough(raw, y, width)
    requires Times(y, x * out_n) <= out.Length
    modifies out
    ensures var rest := Unfilter(raw, y, Zeros(WidthBytes(x, img_n, depth)), 1);
            if ok then rest == Rows(rows) && Outputs(rows, wide, x, img_n, out_n, depth, color) else rest == BadFilter
    ensures ok ==> Shows(out[..], wide, x * out_n)
  {
    hide Unfilter, RowsDone, HalfExpanded, SliceIs, Times, Packed, Enough, Place, PixelStart, WidthBytes, Samples, Spread, Zeros;
    var width := WidthBytes(x, img_n, depth);
    NarrowSizes(x, img_n, out_n, depth);
    EachByteStarts(width);
    PlaceSame(width, 1);
    ok, rows := UnfilterImage(out, raw, y, width, 1, 1, x * out_n - width, x * out_n);
    wide := [];
    if !ok {
      return;
    }
    ghost var given := rows;
    wide := seq(y, i requires 0 <= i < y => OutputRow(given[i], x, img_n, out_n, depth, color));
    forall i: nat | i < y
      ensures |wide[i]| == x * out_n
    {
      OutputRowSize(rows[i], x, img_n, out_n, depth, color);
    }
    ReadyToExpand(out[..], rows, wide, width, x * out_n);
    ExpandImage(out, x, y, img_n, out_n, depth, color, rows, wide);
  }

  lemma NarrowSizes(x: nat, img_n: nat, out_n: nat, depth: nat)
    requires Format(img_n, out_n, depth) && depth < 8 && x >= 1
    ensures WidthBytes(x, img_n, depth) == Packed(x * img_n, 8 / depth) >= 1
    ensures x <= x * out_n && x * out_n * SampleBytes(depth) == x * out_n
  {
    hide Packed;
    Product(x, img_n);
    Product(x, out_n);
    PackedIs(x * img_n, depth);
  }

  lemma Product(x: nat, n: nat)
    requires n >= 1
    ensures n * x == x * n >= x
  {
    assert x * n == x * (n - 1) + x;
  }

  lemma OutputRowSize(row: seq<Byte>, x: nat, img_n: nat, out_n: nat, depth: nat, color: nat)
    requires Format(img_n, out_n, depth) && depth < 8 && |row| == Packed(x * img_n, 8 / depth)
    ensures |OutputRow(row, x, img_n, out_n, depth, color)| == x * out_n
  {
    hide Samples, Packed, Spread;
    RowSizes(x, img_n, out_n);
    var samples := Samples(row, x * img_n, depth, 8 / depth, Scale(depth, color));
    if out_n != img_n {
      SpreadSize(samples, x, img_n);
    }
  }

  lemma {:induction false} SpreadSize(s: seq<Byte>, x: nat, n: nat)
    requires n in {1, 3} && |s| == x * n
    ensures |Spread(s, n, 1)| == x * (n + 1)
  {
    if x > 0 {
      SpreadSize(s[n..], x - 1, n);
    }
  }

  lemma WideSizes(x: nat, img_n: nat, out_n: nat, depth: nat)
    requires Format(img_n, out_n, depth) && depth >= 8 && x >= 1
    ensures var fb, ob := img_n * SampleBytes(depth), out_n * SampleBytes(depth);
            && WidthBytes(x, img_n, depth) == x * fb >= fb && x * out_n * SampleBytes(depth) == x * ob
            && ob - fb == (out_n - img_n) * SampleBytes(depth) <= 2 && fb >= 1
  {
    var b := SampleBytes(depth);
    Product(x, img_n);
    Associate(x, img_n, b);
    Associate(x, out_n, b);
    Bits8(img_n * x, depth, b);
    Product(img_n * b, x);
  }

  lemma Associate(x: nat, n: nat, b: nat)
    requires b in {1, 2}
    ensures x * n * b == x * (n * b)
  {
  }

  lemma Bits8(n: nat, depth: nat, b: nat)
    requires depth == 8 * b && b in {1, 2}
    ensures (n * depth + 7) / 8 == n * b
  {
  }

  /** The rows of the buffer are the spread scanlines. */
  lemma WideShown(s: seq<Byte>, rows: seq<seq<Byte>>, x: nat, fb: nat, ob: nat) returns (wide: seq<seq<Byte>>)
    requires 0 < fb <= ob && (forall j: nat :: j < |rows| ==> |rows[j]| == x * fb)
    requires RowsDone(s, 0, x * ob, rows, fb, ob) && Times(|rows|, x * ob) <= |s|
    ensures |wide| == |rows| && forall j: nat :: j < |rows| ==> wide[j] == Spread(rows[j], fb, ob - fb)
    ensures Shows(s, wide, x * ob)
  {
    hide RowDone, Times, SliceIs, Spread;
    wide := seq(|rows|, j requires 0 <= j < |rows| => Spread(rows[j], fb, ob - fb));
    forall j: nat | j < |rows|
      ensures SliceIs(s, Times(j, x * ob), Spread(rows[j], fb, ob - fb)) && |Spread(rows[j], fb, ob - fb)| == x * ob
    {
      RowsApart(j, |rows|, x * ob);
      assert RowDone(s, 0 + Times(j, x * ob), rows[j], fb, ob);
      RowOfPixels(x, fb, ob);
      RowIsSpread(s, Times(j, x * ob), rows[j], fb, ob);
    }
  }

  // ----- byte order

  /** Puts all samples of 16 bits into the byte order of a little-endian machine. */
  method NativeOrder(out: array<Byte>)
    requires out.Length % 2 == 0
    modifies out
    ensures out[..] == Native(old(out[..]))
  {
    var cur := 0;
    while cur < out.Length
      invariant cur % 2 == 0 && cur <= out.Length
      invariant forall k :: 0 <= k < cur ==> out[k] == Native(old(out[..]))[k]
      invariant forall k :: cur <= k < out.Length ==> out[k] == old(out[k])
    {
      var high: nat, low: nat := out[cur], out[cur + 1];
      var sample := 256 * high + low;
      out[cur], out[cur + 1] := sample % 256, sample / 256;
      cur := cur + 2;
    }
  }

  /** A whole number of samples that starts at a sample. */
  lemma NativeSlice(s: seq<Byte>, a: int, row: seq<Byte>)
    requires SliceIs(s, a, row) && a % 2 == 0 && |row| % 2 == 0
    ensures SliceIs(Native(s), a, Native(row))
  {
    forall k | 0 <= k < |row|
      ensures Native(s)[a + k] == Native(row)[k]
    {
      assert s[a..a + |row|][k] == s[a + k];
      if k % 2 == 1 {
        assert s[a..a + |row|][k - 1] == s[a + k - 1];
      } else {
        assert s[a..a + |row|][k + 1] == s[a + k + 1];
      }
    }
  }

  lemma {:induction false} EvenTimes(j: nat, n: nat)
    requires n % 2 == 0
    ensures Times(j, n) % 2 == 0
  {
    if j > 0 {
      EvenTimes(j - 1, n);
    }
  }

  /** Each row by itself in native order, if rows are whole samples. */
  lemma NativeShown(s: seq<Byte>, wide: seq<seq<Byte>>, stride: nat) returns (native: seq<seq<Byte>>)
    requires Shows(s, wide, stride) && stride % 2 == 0
    ensures |native| == |wide| && forall j: nat :: j < |wide| ==> native[j] == Native(wide[j])
    ensures Shows(Native(s), native, stride)
  {
    hide Times, SliceIs, Native;
    native := seq(|wide|, j requires 0 <= j < |wide| => Native(wide[j]));
    forall j: nat | j < |wide|
      ensures SliceIs(Native(s), Times(j, stride), Native(wide[j]))
    {
      EvenTimes(j, stride);
      NativeSlice(s, Times(j, stride), wide[j]);
    }
  }

  lemma WideOutputs(rows: seq<seq<Byte>>, wide: seq<seq<Byte>>, x: nat, img_n: nat, out_n: nat, depth: nat, color: nat)
    requires Format(img_n, out_n, depth) && depth >= 8 && |wide| == |rows|
    requires var fb, extra := img_n * SampleBytes(depth), (out_n - img_n) * SampleBytes(depth);
             fb > 0 && forall j: nat :: j < |rows| ==>
               wide[j] == if depth == 16 then Native(Spread(rows[j], fb, extra)) else Spread(rows[j], fb, extra)
    ensures Outputs(rows, wide, x, img_n, out_n, depth, color)
  {
    hide Spread, Native;
  }

  /** 8 or 16 bits per sample. */
  method CreateWide(out: array<Byte>, raw: seq<Byte>, x: nat, y: nat, img_n: nat, out_n: nat, depth: nat, ghost color: nat)
    returns (ok: bool, ghost rows: seq<seq<Byte>>, ghost wide: seq<seq<Byte>>)
    requires Format(img_n, out_n, depth) && depth >= 8 && x >= 1
    requires Enough(raw, y, WidthBytes(x, img_n, depth))
    requires Times(y, x * (out_n * SampleBytes(depth))) == out.Length
    modifies out
    ensures var rest := Unfilter(raw, y, Zeros(WidthBytes(x, img_n, depth)), img_n * SampleBytes(depth));
            if ok then rest == Rows(rows) && Outputs(rows, wide, x, img_n, out_n, depth, color) else rest == BadFilter
    ensures ok ==> Shows(out[..], wide, x * (out_n * SampleBytes(depth)))
  {
    hide Unfilter, RowsDone, SliceIs, Times, Enough, Place, PixelStart, WidthBytes, Spread, Zeros, Shows, Outputs, Native, SampleBytes;
    var fb, ob, width := img_n * SampleBytes(depth), out_n * SampleBytes(depth), WidthBytes(x, img_n, depth);
    WideSizes(x, img_n, out_n, depth);
    RowOfPixels(x, fb, ob);
    ok, rows := UnfilterImage(out, raw, y, width, fb, ob, 0, x * ob);
    wide := [];
    if ok {
      wide := WideShown(out[..], rows, x, fb, ob);
      if depth == 16 {
        WholeSamples(x, y, out_n);
        ghost var before := out[..];
        NativeOrder(out);
        wide := NativeShown(before, wide, x * ob);
      }
      WideOutputs(rows, wide, x, img_n, out_n, depth, color);
    }
  }

  lemma WholeSamples(x: nat, y: nat, n: nat)
    ensures SampleBytes(16) == 2 && x * (n * 2) % 2 == 0 && Times(y, x * (n * 2)) % 2 == 0
  {
    hide Times;
    assert x * (n * 2) == 2 * (x * n);
    EvenTimes(y, x * (n * 2));
  }

  // ----- size checks

  /** Checks for a sum and a product that do not themselves overflow. */
  predicate AddValid(a: nat, b: nat) {
    a <= INT_MAX - b
  }

  predicate Mul2Valid(a: nat, b: nat) {
    b == 0 || a <= INT_MAX / b
  }

  predicate Mad3Valid(a: nat, b: nat, c: nat, add: nat) {
    Mul2Valid(a, b) && Mul2Valid(a * b, c) && AddValid(a * b * c, add)
  }

  lemma Mul2Exact(a: nat, b: nat)
    ensures Mul2Valid(a, b) <==> a * b < Pow2(31)
  {
    IntMax();
    if b > 0 {
      DivBracket(INT_MAX, b);
      if a <= INT_MAX / b {
        MulMono(a, INT_MAX / b, b);
      } else {
        MulMono(INT_MAX / b + 1, a, b);
      }
    }
  }

  lemma IntMax()
    ensures INT_MAX + 1 == Pow2(31)
  {
    Pow2Values();
    hide Pow2;
    ShlPow2(16, 15);
    ShlMul(Pow2(16), 15);
  }

  /** They accept exactly what fits a signed 32-bit integer, if the last factor is not zero. */
  lemma Mad3Exact(a: nat, b: nat, c: nat, add: nat)
    requires c > 0 && add <= INT_MAX
    ensures Mad3Valid(a, b, c, add) <==> a * b * c + add < Pow2(31)
    ensures Mad3Valid(a, b, c, add) <==> a * b * c + add <= INT_MAX
  {
    hide Pow2, Mul2Valid;
    IntMax();
    Mul2Exact(a, b);
    Mul2Exact(a * b, c);
    MulMono(1, c, a * b);
    assert c * (a * b) == a * b * c;
  }

  /** The length of the data, computed in 32 bits, does not wrap for sizes that are accepted. */
  lemma LengthDoesNotWrap(x: nat, y: nat, img_n: nat, out_n: nat, depth: nat)
    requires Format(img_n, out_n, depth) && x >= 1 && y >= 1 && SizesValid(x, y, img_n, out_n, depth)
    ensures y * (WidthBytes(x, img_n, depth) + 1) <= 2 * INT_MAX
  {
    hide WidthBytes;
    var ob, width := out_n * SampleBytes(depth), WidthBytes(x, img_n, depth);
    WidthAtMost(x, img_n, out_n, depth);
    MulMono(width, x * ob, y);
    assert x * ob * y == x * y * ob;
    assert y * (width + 1) == width * y + y;
    MulMono(1, x * ob, y);
  }

  lemma WidthAtMost(x: nat, img_n: nat, out_n: nat, depth: nat)
    requires Format(img_n, out_n, depth) && x >= 1
    ensures 1 <= x * (out_n * SampleBytes(depth)) && WidthBytes(x, img_n, depth) <= x * (out_n * SampleBytes(depth))
  {
    hide WidthBytes;
    if depth < 8 {
      hide Packed;
      NarrowSizes(x, img_n, out_n, depth);
      MulMono(img_n, out_n, x);
      assert img_n * x == x * img_n && out_n * x == x * out_n;
    } else {
      WideSizes(x, img_n, out_n, depth);
      MulMono(img_n * SampleBytes(depth), out_n * SampleBytes(depth), x);
    }
  }

  /** Nothing overflows a signed 32-bit integer. */
  predicate SizesValid(x: nat, y: nat, img_n: nat, out_n: nat, depth: nat) {
    x * y * (out_n * SampleBytes(depth)) <= INT_MAX && img_n * x * depth + 7 <= INT_MAX
  }

  lemma SizesChecked(x: nat, y: nat, img_n: nat, out_n: nat, depth: nat)
    requires Format(img_n, out_n, depth)
    ensures SizesValid(x, y, img_n, out_n, depth) <==>
      Mad3Valid(x, y, out_n * SampleBytes(depth), 0) && Mad3Valid(img_n, x, depth, 7)
  {
    hide Mad3Valid;
    Mad3Exact(x, y, out_n * SampleBytes(depth), 0);
    Mad3Exact(img_n, x, depth, 7);
  }

  lemma BufferSize(x: nat, y: nat, ob: nat)
    ensures Times(y, x * ob) == x * y * ob
  {
    TimesIs(y, x * ob);
    assert y * (x * ob) == x * y * ob;
  }

  /** What the scanlines at the start of raw stand for. */
  ghost predicate Decodes(raw: seq<Byte>, x: nat, y: nat, img_n: nat, out_n: nat, depth: nat, color: nat,
                          rows: seq<seq<Byte>>, wide: seq<seq<Byte>>)
    requires Format(img_n, out_n, depth)
  {
    var width := WidthBytes(x, img_n, depth);
    && Enough(raw, y, width)
    && Unfilter(raw, y, Zeros(width), FilterBytes(img_n, depth)) == Rows(rows)
    && Outputs(rows, wide, x, img_n, out_n, depth, color)
  }

  /** What is wrong with them. */
  ghost predicate Faulty(why: Status, raw: seq<Byte>, x: nat, y: nat, img_n: nat, out_n: nat, depth: nat)
    requires Format(img_n, out_n, depth)
  {
    var width := WidthBytes(x, img_n, depth);
    match why
    case TooLarge => !SizesValid(x, y, img_n, out_n, depth)
    case NotEnoughPixels => !Enough(raw, y, width)
    case InvalidWidth => depth < 8 && width > x
    case InvalidFilter => Enough(raw, y, width) && Unfilter(raw, y, Zeros(width), FilterBytes(img_n, depth)) == BadFilter
    case Decoded => false
  }

  /** Decodes the scanlines at the start of raw. The buffer then shows exactly the rows those
      bytes stand for, and each way to fail says what is wrong with them. */
  method CreateRaw(raw: seq<Byte>, x: nat, y: nat, img_n: nat, out_n: nat, depth: nat, color: nat)
    returns (r: Status, out: array<Byte>, ghost rows: seq<seq<Byte>>, ghost wide: seq<seq<Byte>>)
    requires Format(img_n, out_n, depth) && x >= 1 && y >= 1
    ensures fresh(out)
    ensures r == Decoded ==> Decodes(raw, x, y, img_n, out_n, depth, color, rows, wide)
    ensures r == Decoded ==> Shows(out[..], wide, x * (out_n * SampleBytes(depth)))
    ensures r != Decoded ==> Faulty(r, raw, x, y, img_n, out_n, depth)
    ensures r == Decoded ==> forall why: Status :: why != InvalidFilter ==> !Faulty(why, raw, x, y, img_n, out_n, depth)
  {
    hide Unfilter, RowsDone, HalfExpanded, SliceIs, Times, Packed, Enough, Place, PixelStart, WidthBytes, Samples, Spread, Zeros,
      Shows, Outputs, Mad3Valid, SizesValid;
    rows, wide := [], [];
    SizesChecked(x, y, img_n, out_n, depth);
    if !Mad3Valid(x, y, out_n * SampleBytes(depth), 0) || !Mad3Valid(img_n, x, depth, 7) {
      out := new Byte[0];
      return TooLarge, out, rows, wide;
    }
    var ob := out_n * SampleBytes(depth);
    out := new Byte[x * y * ob];
    var width := WidthBytes(x, img_n, depth);
    EnoughIs(raw, y, width);
    if |raw| < y * (width + 1) {
      return NotEnoughPixels, out, rows, wide;
    }
    BufferSize(x, y, ob);
    var ok;
    if depth < 8 {
      if width > x {
        FirstType(raw, y, width);
        return if raw[0] > 4 then InvalidFilter else InvalidWidth, out, rows, wide;
      }
      ok, rows, wide := CreateNarrow(out, raw, x, y, img_n, out_n, depth, color);
    } else {
      ok, rows, wide := CreateWide(out, raw, x, y, img_n, out_n, depth, color);
    }
    r := if ok then Decoded else InvalidFilter;
  }

  lemma FirstType(raw: seq<Byte>, y: nat, width: nat)
    requires y >= 1 && Enough(raw, y, width)
    ensures |raw| > 0 && (raw[0] > 4 ==> Unfilter(raw, y, Zeros(width), 1) == BadFilter)
  {
  }
}
