/** Images of every depth stored and decoded again, plain and interlaced, with any choice of filter
    types. */
module PngRoundTrip {
  import opened Bits
  import opened PngFilter
  import opened PngExpand
  import opened PngRaw
  import opened Adam7
  import opened PngInterlace

  lemma SomeFilterBytes(img_n: nat, out_n: nat, depth: nat)
    requires Format(img_n, out_n, depth)
    ensures FilterBytes(img_n, depth) > 0
  {
  }

  /** Scanlines stored with any filter types, and anything after them, are decoded to exactly what
      they stand for. */
  method DecodeStoredRows(rows: seq<seq<Byte>>, types: seq<nat>, extra: seq<Byte>, x: nat, img_n: nat, out_n: nat, depth: nat, color: nat)
    returns (out: array<Byte>, ghost wide: seq<seq<Byte>>)
    requires Format(img_n, out_n, depth) && x >= 1 && |rows| >= 1 && SizesValid(x, |rows|, img_n, out_n, depth)
    requires depth < 8 ==> WidthBytes(x, img_n, depth) <= x
    requires TypesFor(types, |rows|) && forall j :: 0 <= j < |rows| ==> |rows[j]| == WidthBytes(x, img_n, depth)
    ensures Outputs(rows, wide, x, img_n, out_n, depth, color)
    ensures Shows(out[..], wide, x * (out_n * SampleBytes(depth)))
  {
    hide WidthBytes, SizesValid, Unfilter, Enough, Stored, Outputs, Shows, FilterBytes, Zeros;
    var width, fb := WidthBytes(x, img_n, depth), FilterBytes(img_n, depth);
    SomeFilterBytes(img_n, out_n, depth);
    var raw := Stored(rows, types, Zeros(width), fb) + extra;
    UnfilterStored(rows, types, Zeros(width), fb, extra);
    var r;
    ghost var rows';
    r, out, rows', wide := CreateRaw(raw, x, |rows|, img_n, out_n, depth, color);
    if r != Decoded {
      assert false;
    }
  }

  // ----- rows of pixels

  /** The bytes of a row of pixels. */
  function Flat(px: seq<seq<Byte>>): seq<Byte> {
    if px == [] then [] else px[0] + Flat(px[1..])
  }

  predicate Sized(px: seq<seq<Byte>>, n: nat) {
    forall i :: 0 <= i < |px| ==> |px[i]| == n
  }

  lemma {:induction false} FlatSize(px: seq<seq<Byte>>, n: nat)
    requires Sized(px, n)
    ensures |Flat(px)| == Times(|px|, n)
    decreases |px|
  {
    if px != [] {
      FlatSize(px[1..], n);
    }
  }

  /** Each pixel with full alpha after it. */
  function WithAlpha(px: seq<Byte>, extra: nat): (r: seq<Byte>)
    ensures |r| == |px| + extra
  {
    px + seq(extra, _ => 255)
  }

  function AllWithAlpha(px: seq<seq<Byte>>, extra: nat): (r: seq<seq<Byte>>)
    ensures |r| == |px|
  {
    seq(|px|, i requires 0 <= i < |px| => WithAlpha(px[i], extra))
  }

  lemma {:induction false} SpreadFlat(px: seq<seq<Byte>>, n: nat, extra: nat)
    requires Sized(px, n) && n > 0
    ensures Spread(Flat(px), n, extra) == Flat(AllWithAlpha(px, extra))
    decreases |px|
  {
    hide Spread, WithAlpha;
    if px == [] {
      SpreadEmpty(n, extra);
    } else {
      var rest := px[1..];
      SpreadFlat(rest, n, extra);
      SpreadOne(px[0], Flat(rest), n, extra);
      assert AllWithAlpha(px, extra)[1..] == AllWithAlpha(rest, extra);
    }
  }

  lemma SpreadEmpty(n: nat, extra: nat)
    requires n > 0
    ensures Spread([], n, extra) == []
  {
  }

  lemma SpreadOne(px: seq<Byte>, rest: seq<Byte>, n: nat, extra: nat)
    requires |px| == n > 0
    ensures Spread(px + rest, n, extra) == WithAlpha(px, extra) + Spread(rest, n, extra)
  {
    assert (px + rest)[..n] == px && (px + rest)[n..] == rest;
  }

  lemma FlatSkip(a: seq<Byte>, b: seq<Byte>, k: nat, n: nat)
    requires k + n <= |b|
    ensures (a + b)[|a| + k..|a| + k + n] == b[k..k + n]
  {
  }

  lemma {:induction false} PixelOfFlat(px: seq<seq<Byte>>, n: nat, i: nat)
    requires Sized(px, n) && i < |px|
    ensures PixelOf(Flat(px), i, n) == px[i]
    decreases |px|
  {
    hide Times;
    var rest := Flat(px[1..]);
    FlatSize(px[1..], n);
    TimesStep(i, n);
    TimesMono(i, |px| - 1, n);
    if i == 0 {
      assert (px[0] + rest)[..n] == px[0];
    } else {
      PixelOfFlat(px[1..], n, i - 1);
      TimesStep(i - 1, n);
      FlatSkip(px[0], rest, Times(i - 1, n), n);
    }
  }

  function AllScaled(px: seq<seq<Byte>>, scale: nat): (r: seq<seq<Byte>>)
    ensures |r| == |px|
  {
    seq(|px|, i requires 0 <= i < |px| => Scaled(px[i], scale))
  }

  lemma {:induction false} ScaledFlat(px: seq<seq<Byte>>, scale: nat)
    ensures Scaled(Flat(px), scale) == Flat(AllScaled(px, scale))
    decreases |px|
  {
    if px != [] {
      ScaledFlat(px[1..], scale);
      assert AllScaled(px, scale)[1..] == AllScaled(px[1..], scale);
      assert Scaled(px[0] + Flat(px[1..]), scale) == Scaled(px[0], scale) + Scaled(Flat(px[1..]), scale);
    }
  }

  function AllNative(px: seq<seq<Byte>>): (r: seq<seq<Byte>>)
    ensures |r| == |px|
  {
    seq(|px|, i requires 0 <= i < |px| => Native(px[i]))
  }

  lemma NativeJoin(a: seq<Byte>, b: seq<Byte>)
    requires |a| % 2 == 0
    ensures Native(a + b) == Native(a) + Native(b)
  {
  }

  lemma {:induction false} NativeFlat(px: seq<seq<Byte>>, n: nat)
    requires Sized(px, n) && n % 2 == 0
    ensures Native(Flat(px)) == Flat(AllNative(px))
    decreases |px|
  {
    hide Native;
    if px != [] {
      NativeFlat(px[1..], n);
      assert AllNative(px)[1..] == AllNative(px[1..]);
      NativeJoin(px[0], Flat(px[1..]));
    } else {
      NativeJoin([], []);
    }
  }

  lemma {:induction false} FlatInDepth(px: seq<seq<Byte>>, depth: nat)
    requires forall i :: 0 <= i < |px| ==> InDepth(px[i], depth)
    ensures InDepth(Flat(px), depth)
    decreases |px|
  {
    if px != [] {
      FlatInDepth(px[1..], depth);
    }
  }

  // ----- what is stored and what is shown

  /** The scanline of a row of samples. */
  function Scanline(v: seq<Byte>, depth: nat): (r: seq<Byte>)
    requires depth in {1, 2, 4, 8, 16}
  {
    if depth < 8 then Pack(v, depth, 8 / depth) else v
  }

  /** A pixel as it is shown: narrow samples scaled, full alpha where the output has room for it,
      wide samples in the machine's byte order. */
  function ShownPixel(px: seq<Byte>, f: Params): (r: seq<Byte>)
    requires Format(f.img_n, f.out_n, f.depth)
  {
    var extra := (f.out_n - f.img_n) * SampleBytes(f.depth);
    if f.depth < 8 then WithAlpha(Scaled(px, Scale(f.depth, f.color)), extra)
    else if f.depth == 16 then Native(WithAlpha(px, extra))
    else WithAlpha(px, extra)
  }

  /** Grey samples (colour type 0) narrower than a byte are stretched in proportion, so that 0 is shown
      as 0 and the greatest as 255. */
  lemma GreyShown(px: seq<Byte>, f: Params, k: nat)
    requires Format(f.img_n, f.out_n, f.depth) && f.depth < 8 && f.color == 0 && k < |px| && InDepth(px, f.depth)
    ensures ShownPixel(px, f)[k] as int * (Pow2(f.depth) - 1) == px[k] as int * 255
  {
    ScaleExact(f.depth, px[k]);
    Proportion(DEPTH_SCALE[f.depth], px[k], Pow2(f.depth) - 1);
  }

  lemma Proportion(scale: nat, v: nat, top: nat)
    requires scale * top == 255
    ensures scale * v * top == v * 255
  {
    assert scale * v * top == v * (scale * top);
  }

  /** Palette indices (colour type 3) are not stretched. */
  lemma IndexShown(px: seq<Byte>, f: Params, k: nat)
    requires Format(f.img_n, f.out_n, f.depth) && f.depth <= 8 && f.color == 3 && k < |px|
    ensures ShownPixel(px, f)[k] == px[k]
  {
  }

  function ShownRow(px: seq<seq<Byte>>, f: Params): (r: seq<seq<Byte>>)
    requires Format(f.img_n, f.out_n, f.depth)
    ensures |r| == |px|
  {
    seq(|px|, i requires 0 <= i < |px| => ShownPixel(px[i], f))
  }

  function Shown(image: seq<seq<seq<Byte>>>, f: Params): (r: seq<seq<seq<Byte>>>)
    requires Format(f.img_n, f.out_n, f.depth)
    ensures |r| == |image|
  {
    seq(|image|, y requires 0 <= y < |image| => ShownRow(image[y], f))
  }

  /** A row of pixels of the right size, with samples that fit their depth. */
  predicate IsRow(px: seq<seq<Byte>>, f: Params) {
    && Sized(px, f.img_n * SampleBytes(f.depth))
    && (f.depth < 8 ==> forall i :: 0 <= i < |px| ==> InDepth(px[i], f.depth))
  }

  lemma SizesOfRow(px: seq<seq<Byte>>, f: Params)
    requires Format(f.img_n, f.out_n, f.depth) && IsRow(px, f) && |px| >= 1
    ensures var v := Flat(px); |v| == |px| * (f.img_n * SampleBytes(f.depth))
    ensures |Scanline(Flat(px), f.depth)| == WidthBytes(|px|, f.img_n, f.depth)
    ensures f.depth < 8 ==> WidthBytes(|px|, f.img_n, f.depth) == Packed(|px| * f.img_n, 8 / f.depth)
  {
    hide Flat, Packed, WidthBytes, Times;
    FlatSize(px, f.img_n * SampleBytes(f.depth));
    TimesIs(|px|, f.img_n * SampleBytes(f.depth));
    if f.depth < 8 {
      NarrowSizes(|px|, f.img_n, f.out_n, f.depth);
    } else {
      WideSizes(|px|, f.img_n, f.out_n, f.depth);
    }
  }

  lemma NarrowRowShown(px: seq<seq<Byte>>, f: Params)
    requires Format(f.img_n, f.out_n, f.depth) && IsRow(px, f) && |px| >= 1 && f.depth < 8
    requires |Flat(px)| == |px| * f.img_n
    ensures OutputRow(Pack(Flat(px), f.depth, 8 / f.depth), |px|, f.img_n, f.out_n, f.depth, f.color) == Flat(ShownRow(px, f))
  {
    hide Flat, Pack, Packed, Samples, Scaled, Spread, InDepth;
    var scale, extra := Scale(f.depth, f.color), f.out_n - f.img_n;
    FlatInDepth(px, f.depth);
    SamplesOfPacked(Flat(px), f.depth, scale);
    ScaledFlat(px, scale);
    SpreadFlat(AllScaled(px, scale), f.img_n, extra);
    RowOfPixels(|px|, f.img_n, f.img_n);
    if extra == 0 {
      SpreadNone(Scaled(Flat(px), scale), f.img_n);
    }
    assert ShownRow(px, f) == AllWithAlpha(AllScaled(px, scale), extra);
  }

  lemma WideRowShown(px: seq<seq<Byte>>, f: Params)
    requires Format(f.img_n, f.out_n, f.depth) && IsRow(px, f) && f.depth >= 8
    ensures OutputRow(Flat(px), |px|, f.img_n, f.out_n, f.depth, f.color) == Flat(ShownRow(px, f))
  {
    hide Flat, Spread, Native, AllWithAlpha, AllNative, ShownRow, OutputRow;
    var fb, extra := f.img_n * SampleBytes(f.depth), (f.out_n - f.img_n) * SampleBytes(f.depth);
    WideOutput(Flat(px), |px|, f, fb, extra);
    SpreadFlat(px, fb, extra);
    ShownWide(px, f, extra);
    if f.depth == 16 {
      NativeAlpha(px, fb, extra);
    }
  }

  lemma WideOutput(row: seq<Byte>, x: nat, f: Params, fb: nat, extra: nat)
    requires Format(f.img_n, f.out_n, f.depth) && f.depth >= 8
    requires fb == f.img_n * SampleBytes(f.depth) && extra == (f.out_n - f.img_n) * SampleBytes(f.depth)
    ensures fb > 0 && OutputRow(row, x, f.img_n, f.out_n, f.depth, f.color)
            == if f.depth == 16 then Native(Spread(row, fb, extra)) else Spread(row, fb, extra)
  {
    hide Spread, Native;
  }

  lemma ShownWide(px: seq<seq<Byte>>, f: Params, extra: nat)
    requires Format(f.img_n, f.out_n, f.depth) && f.depth >= 8 && extra == (f.out_n - f.img_n) * SampleBytes(f.depth)
    ensures ShownRow(px, f) == if f.depth == 16 then AllNative(AllWithAlpha(px, extra)) else AllWithAlpha(px, extra)
  {
    hide WithAlpha, Native, SampleBytes, Format;
  }

  lemma NativeAlpha(px: seq<seq<Byte>>, n: nat, extra: nat)
    requires Sized(px, n) && n % 2 == 0 && extra % 2 == 0
    ensures Native(Flat(AllWithAlpha(px, extra))) == Flat(AllNative(AllWithAlpha(px, extra)))
  {
    hide Flat, Native;
    NativeFlat(AllWithAlpha(px, extra), n + extra);
  }

  /** The scanline of a row of pixels stands for the row as it is shown. */
  lemma RowShown(px: seq<seq<Byte>>, f: Params)
    requires Format(f.img_n, f.out_n, f.depth) && IsRow(px, f) && |px| >= 1
    ensures f.depth < 8 ==> |Scanline(Flat(px), f.depth)| == Packed(|px| * f.img_n, 8 / f.depth)
    ensures OutputRow(Scanline(Flat(px), f.depth), |px|, f.img_n, f.out_n, f.depth, f.color) == Flat(ShownRow(px, f))
  {
    hide Flat, Pack, Packed, OutputRow, ShownRow, IsRow, WidthBytes;
    SizesOfRow(px, f);
    if f.depth < 8 {
      NarrowRowShown(px, f);
    } else {
      WideRowShown(px, f);
    }
  }

  lemma ShownSized(px: seq<seq<Byte>>, f: Params)
    requires Format(f.img_n, f.out_n, f.depth) && IsRow(px, f)
    ensures Sized(ShownRow(px, f), f.out_n * SampleBytes(f.depth))
  {
    hide Native, Scaled, InDepth;
  }

  // ----- interlaced images

  predicate IsImage(image: seq<seq<seq<Byte>>>, f: Params) {
    |image| == f.h && forall y :: 0 <= y < f.h ==> |image[y]| == f.w && IsRow(image[y], f)
  }

  /** Row j of pass p. */
  function PassPixels(image: seq<seq<seq<Byte>>>, f: Params, p: nat, j: nat): (r: seq<seq<Byte>>)
    requires p < 7
    ensures |r| == PassWidth(p, f.w)
  {
    seq(PassWidth(p, f.w), i requires 0 <= i => GridPixel(image, p, j, i))
  }

  /** The scanlines of pass p. */
  function PassOfImage(image: seq<seq<seq<Byte>>>, f: Params, p: nat): (r: seq<seq<Byte>>)
    requires p < 7 && Legal(f)
    ensures |r| == if HasPixels(f, p) then PassHeight(p, f.h) else 0
  {
    if !HasPixels(f, p) then []
    else seq(PassHeight(p, f.h), j requires 0 <= j => Scanline(Flat(PassPixels(image, f, p, j)), f.depth))
  }

  /** Every row of a pass is a row of pixels of the image. */
  lemma PassPixelsRow(image: seq<seq<seq<Byte>>>, f: Params, p: nat, j: nat)
    requires p < 7 && Legal(f) && IsImage(image, f) && j < PassHeight(p, f.h)
    ensures IsRow(PassPixels(image, f, p, j), f)
  {
    hide PassWidth, PassHeight, SampleBytes, Legal, InDepth;
    var px, y := PassPixels(image, f, p, j), j * YSPC[p] + YORIG[p];
    InGrid(f, p, j, 0);
    forall i: nat | i < |px|
      ensures 0 <= i * XSPC[p] + XORIG[p] < f.w && px[i] == image[y][i * XSPC[p] + XORIG[p]]
    {
      InGrid(f, p, j, i);
    }
  }

  lemma InGrid(f: Params, p: nat, j: nat, i: nat)
    requires p < 7 && Legal(f)
    ensures j < PassHeight(p, f.h) ==> 0 <= j * YSPC[p] + YORIG[p] < f.h
    ensures i < PassWidth(p, f.w) ==> 0 <= i * XSPC[p] + XORIG[p] < f.w
  {
    hide PassSize;
    PassSizeCounts(f.w, p, i);
    PassSizeCounts(f.h, p, j);
  }

  lemma PassIsWhole(image: seq<seq<seq<Byte>>>, f: Params, p: nat)
    requires p < 7 && Legal(f) && IsImage(image, f)
    ensures WholeRows(f, p, PassOfImage(image, f, p))
  {
    hide PassWidth, PassHeight, IsImage, WidthBytes, PassPixels, Flat, Scanline, IsRow;
    if HasPixels(f, p) {
      var rows := PassOfImage(image, f, p);
      forall j: nat | j < |rows|
        ensures |rows[j]| == WidthBytes(PassWidth(p, f.w), f.img_n, f.depth)
      {
        PassPixelsRow(image, f, p, j);
        SizesOfRow(PassPixels(image, f, p, j), f);
      }
    }
  }

  lemma ShownGrid(image: seq<seq<seq<Byte>>>, f: Params, p: nat, j: nat, i: nat)
    requires p < 7 && Legal(f) && IsImage(image, f) && j < PassHeight(p, f.h) && i < PassWidth(p, f.w)
    ensures GridPixel(Shown(image, f), p, j, i) == ShownRow(PassPixels(image, f, p, j), f)[i]
  {
    hide PassSize, ShownPixel, IsRow;
    InGrid(f, p, j, i);
  }

  /** The scanlines of the passes stand for the pixels of the image as they are shown. */
  lemma OutputPixel(image: seq<seq<seq<Byte>>>, f: Params, p: nat, j: nat, i: nat, line: seq<Byte>, x: nat)
    requires p < 7 && Legal(f) && IsImage(image, f) && j < PassHeight(p, f.h) && i < PassWidth(p, f.w) == x
    requires line == Scanline(Flat(PassPixels(image, f, p, j)), f.depth)
    requires f.depth < 8 ==> |line| == Packed(x * f.img_n, 8 / f.depth)
    ensures PixelOf(OutputRow(line, x, f.img_n, f.out_n, f.depth, f.color), i, f.out_n * SampleBytes(f.depth))
            == GridPixel(Shown(image, f), p, j, i)
  {
    hide PassWidth, PassHeight, IsImage, SampleBytes, GridPixel, PixelOf, Flat, Scanline, OutputRow, ShownRow, Shown, IsRow, Packed,
      PassPixels, Sized;
    var px := PassPixels(image, f, p, j);
    PassPixelsRow(image, f, p, j);
    RowShown(px, f);
    ShownSized(px, f);
    PixelOfFlat(ShownRow(px, f), f.out_n * SampleBytes(f.depth), i);
    ShownGrid(image, f, p, j, i);
  }

  lemma ProductMono(a: nat, b: nat, c: nat, d: nat)
    requires a <= b && c <= d
    ensures a * c <= b * d
  {
    assert a * c <= b * c;
    assert b * c <= b * d;
  }

  lemma PassIsSmaller(n: nat, p: nat)
    requires p < 7 && 1 <= n <= MAX_DIMENSION
    ensures PassWidth(p, n) <= n && PassHeight(p, n) <= n
  {
    hide PassSize;
    GridShape(p);
    PassSizeCounts(n, p, n);
    ProductMono(1, XSPC[p], n, n);
    ProductMono(1, YSPC[p], n, n);
  }

  /** Every pass of an image that is not too large is not too large. */
  lemma PassSizesValid(f: Params, p: nat)
    requires p < 7 && Legal(f) && SizesValid(f.w, f.h, f.img_n, f.out_n, f.depth)
    ensures SizesValid(PassWidth(p, f.w), PassHeight(p, f.h), f.img_n, f.out_n, f.depth)
  {
    hide PassWidth, PassHeight, SampleBytes;
    PassIsSmaller(f.w, p);
    PassIsSmaller(f.h, p);
    var x, y, ob := PassWidth(p, f.w), PassHeight(p, f.h), f.out_n * SampleBytes(f.depth);
    ProductMono(x, f.w, y, f.h);
    ProductMono(x * y, f.w * f.h, ob, ob);
    ProductMono(f.img_n, f.img_n, x, f.w);
    ProductMono(f.img_n * x, f.img_n * f.w, f.depth, f.depth);
  }

  ghost predicate PassTypes(image: seq<seq<seq<Byte>>>, f: Params, types: seq<seq<nat>>)
    requires Legal(f)
  {
    |types| == 7 && forall p: nat :: p < 7 ==> TypesFor(types[p], |PassOfImage(image, f, p)|)
  }

  /** The widths that the decoder accepts for samples narrower than a byte. */
  predicate Narrow(f: Params) {
    f.depth < 8 ==> f.img_n * f.depth <= 8
  }

  lemma NarrowWidth(f: Params, x: nat)
    requires Narrow(f) && f.depth < 8
    ensures WidthBytes(x, f.img_n, f.depth) <= x
  {
    assert f.img_n * x * f.depth == x * (f.img_n * f.depth) <= x * 8;
  }

  /** No pass of the stored image can fail. */
  lemma NoPassFails(image: seq<seq<seq<Byte>>>, f: Params, types: seq<seq<nat>>, passes: seq<seq<seq<Byte>>>, r: Status, p: nat)
    requires p < 7 && Legal(f) && Narrow(f) && SizesValid(f.w, f.h, f.img_n, f.out_n, f.depth) && |passes| == 7 == |types|
    requires forall q: nat :: q < 7 ==> WholeRows(f, q, passes[q]) && TypesFor(types[q], |passes[q]|)
    ensures !PassFails(r, PassData(StoredFrom(f, passes, types, 0), f, p), f, p)
  {
    hide PassWidth, PassHeight, WidthBytes, SizesValid, Unfilter, Enough, StoredFrom, PassData, Zeros, FilterBytes, WholeRows;
    if HasPixels(f, p) {
      PassSizesValid(f, p);
      PassComesBack(f, passes, types, p);
      if f.depth < 8 {
        NarrowWidth(f, PassWidth(p, f.w));
      }
    }
  }

  /** What a stored pass means is what was stored. */
  lemma PassMeansStored(f: Params, types: seq<seq<nat>>, passes: seq<seq<seq<Byte>>>, p: nat, rows: seq<seq<Byte>>, wide: seq<seq<Byte>>)
    requires p < 7 && Legal(f) && |passes| == 7 == |types| && |wide| > 0
    requires forall q: nat :: q < 7 ==> WholeRows(f, q, passes[q]) && TypesFor(types[q], |passes[q]|)
    requires PassMeans(PassData(StoredFrom(f, passes, types, 0), f, p), f, p, rows, wide)
    ensures HasPixels(f, p) && rows == passes[p] && |rows| == PassHeight(p, f.h)
    ensures Outputs(rows, wide, PassWidth(p, f.w), f.img_n, f.out_n, f.depth, f.color)
  {
    hide PassWidth, PassHeight, WidthBytes, Unfilter, Enough, StoredFrom, PassData, Zeros, FilterBytes, WholeRows, Outputs;
    PassComesBack(f, passes, types, p);
  }

  lemma OutputsAt(rows: seq<seq<Byte>>, wide: seq<seq<Byte>>, x: nat, f: Params, j: nat)
    requires Legal(f) && Outputs(rows, wide, x, f.img_n, f.out_n, f.depth, f.color) && j < |wide|
    ensures |rows| == |wide| && (f.depth < 8 ==> |rows[j]| == Packed(x * f.img_n, 8 / f.depth))
    ensures wide[j] == OutputRow(rows[j], x, f.img_n, f.out_n, f.depth, f.color)
  {
    hide OutputRow, Packed;
  }

  lemma RowOfPass(image: seq<seq<seq<Byte>>>, f: Params, p: nat, j: nat)
    requires p < 7 && Legal(f) && HasPixels(f, p) && j < PassHeight(p, f.h)
    ensures PassOfImage(image, f, p)[j] == Scanline(Flat(PassPixels(image, f, p, j)), f.depth)
  {
    hide PassPixels, Flat, PassHeight, PassWidth, Scanline;
  }

  /** Pixel i of row j of pass p is that of the image. */
  ghost predicate RightPixel(image: seq<seq<seq<Byte>>>, f: Params, p: nat, row: seq<Byte>, j: nat, i: nat)
    requires p < 7 && Legal(f)
  {
    PixelOf(row, i, f.out_n * SampleBytes(f.depth)) == GridPixel(Shown(image, f), p, j, i)
  }

  lemma PassShowsImage(image: seq<seq<seq<Byte>>>, f: Params, p: nat, rows: seq<seq<Byte>>, wide: seq<seq<Byte>>, j: nat, i: nat)
    requires p < 7 && Legal(f) && IsImage(image, f) && HasPixels(f, p)
    requires rows == PassOfImage(image, f, p) && j < |wide| && i < PassWidth(p, f.w)
    requires Outputs(rows, wide, PassWidth(p, f.w), f.img_n, f.out_n, f.depth, f.color)
    ensures RightPixel(image, f, p, wide[j], j, i)
  {
    hide PassWidth, PassHeight, OutputRow, GridPixel, PixelOf, Shown, IsImage, SampleBytes, PassPixels, Flat, Outputs, PassOfImage,
      Scanline, Packed;
    OutputsAt(rows, wide, PassWidth(p, f.w), f, j);
    RowOfPass(image, f, p, j);
    OutputPixel(image, f, p, j, i, rows[j], PassWidth(p, f.w));
  }

  /** An image stored in its Adam7 passes, with any filter types, and de-interlaced again is that
      image as it is shown. */
  method DecodeStoredInterlaced(image: seq<seq<seq<Byte>>>, types: seq<seq<nat>>, f: Params) returns (final: array<Byte>)
    requires Legal(f) && Narrow(f) && IsImage(image, f) && SizesValid(f.w, f.h, f.img_n, f.out_n, f.depth)
    requires PassTypes(image, f, types)
    ensures Final(final[..], f) == Shown(image, f)
  {
    hide IsImage, SizesValid, PassOfImage, StoredFrom, PassData, PassMeans, PassFails, Assembled, Shown, PassWidth,
      PixelOf, GridPixel, WholeRows, Outputs, HasPixels, Narrow, Final;
    ShownShape(image, f);
    var passes := seq(7, p requires 0 <= p < 7 => PassOfImage(image, f, p));
    forall q: nat | q < 7
      ensures WholeRows(f, q, passes[q])
    {
      PassIsWhole(image, f, q);
    }
    var raw := StoredFrom(f, passes, types, 0);
    var r;
    ghost var lines, wide;
    r, final, lines, wide := CreateInterlaced(raw, f);
    if r != Decoded {
      ghost var p: nat :| p < 7 && PassFails(r, PassData(raw, f, p), f, p);
      NoPassFails(image, f, types, passes, r, p);
      assert false;
    }
    forall p: nat, j: nat, i: nat | p < 7 && j < |wide[p]| && i < PassWidth(p, f.w)
      ensures PixelOf(wide[p][j], i, f.out_n * SampleBytes(f.depth)) == GridPixel(Shown(image, f), p, j, i)
    {
      PassMeansStored(f, types, passes, p, lines[p], wide[p]);
      PassShowsImage(image, f, p, lines[p], wide[p], j, i);
    }
    PassesOfImage(Final(final[..], f), Shown(image, f), f, wide);
  }

  lemma ShownShape(image: seq<seq<seq<Byte>>>, f: Params)
    requires Legal(f) && IsImage(image, f)
    ensures var o := Shown(image, f); |o| == f.h && forall y :: 0 <= y < f.h ==> |o[y]| == f.w
  {
    hide IsRow, ShownPixel;
  }
}
