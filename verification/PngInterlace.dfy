/** De-interlacing: each Adam7 pass is decoded as an image of its own and its pixels are copied
    to their places in the final image. */
module PngInterlace {
  import opened Bits
  import opened PngFilter
  import opened PngRow
  import opened PngImage
  import opened PngRaw
  import opened Adam7

  /** Byte offset of pixel i of row j in an image x pixels wide with ob bytes to a pixel. */
  function PixelOffset(j: nat, i: nat, x: nat, ob: nat): nat {
    Times(j, x * ob) + Times(i, ob)
  }

  lemma PixelOffsetIs(j: nat, i: nat, x: nat, ob: nat)
    ensures PixelOffset(j, i, x, ob) == (j * x + i) * ob
  {
    TimesIs(j, x * ob);
    TimesIs(i, ob);
    assert (j * x + i) * ob == j * (x * ob) + i * ob;
  }

  lemma PixelInside(j: nat, i: nat, x: nat, y: nat, ob: nat)
    requires i < x && j < y
    ensures Times(i, ob) + ob <= x * ob && PixelOffset(j, i, x, ob) + ob <= Times(y, x * ob)
  {
    RowsApart(i, x, ob);
    TimesIs(x, ob);
    RowsApart(j, y, x * ob);
  }

  /** Pixel i of an output row. */
  function PixelOf(row: seq<Byte>, i: nat, ob: nat): seq<Byte> {
    var a := Times(i, ob);
    if a + ob <= |row| then row[a..a + ob] else []
  }

  // ----- the final image as a buffer

  function PixelAt(s: seq<Byte>, y: nat, x: nat, w: nat, ob: nat): seq<Byte> {
    var a := PixelOffset(y, x, w, ob);
    if a + ob <= |s| then s[a..a + ob] else []
  }

  /** The pixels of a buffer that holds an image of w by h pixels of ob bytes. */
  function Pixels(s: seq<Byte>, w: nat, h: nat, ob: nat): (r: seq<seq<seq<Byte>>>)
    ensures |r| == h && forall y :: 0 <= y < h ==> |r[y]| == w
  {
    seq(h, y requires 0 <= y < h => seq(w, x requires 0 <= x < w => PixelAt(s, y, x, w, ob)))
  }

  /** Different pixels do not share bytes. */
  lemma PixelsApart(y: nat, x: nat, v: nat, u: nat, w: nat, ob: nat)
    requires x < w && u < w && (y < v || (y == v && x < u))
    ensures PixelOffset(y, x, w, ob) + ob <= PixelOffset(v, u, w, ob)
  {
    hide Times;
    if y < v {
      PixelInside(y, x, w, y + 1, ob);
      TimesMono(y + 1, v, w * ob);
    } else {
      RowsApart(x, u, ob);
    }
  }

  lemma PixelKept(s: seq<Byte>, s': seq<Byte>, y: nat, x: nat, v: nat, u: nat, w: nat, ob: nat)
    requires x < w && u < w && (y != v || x != u)
    requires Within(s, s', PixelOffset(v, u, w, ob), PixelOffset(v, u, w, ob) + ob)
    ensures PixelAt(s', y, x, w, ob) == PixelAt(s, y, x, w, ob)
  {
    hide PixelOffset;
    if y < v || (y == v && x < u) {
      PixelsApart(y, x, v, u, w, ob);
    } else {
      PixelsApart(v, u, y, x, w, ob);
    }
  }

  /** Writing the bytes of pixel (u, v) changes that pixel and no other. */
  lemma PixelWritten(s: seq<Byte>, s': seq<Byte>, v: nat, u: nat, w: nat, h: nat, ob: nat)
    requires u < w && v < h && Within(s, s', PixelOffset(v, u, w, ob), PixelOffset(v, u, w, ob) + ob)
    ensures var was := Pixels(s, w, h, ob); Pixels(s', w, h, ob) == was[v := was[v][u := PixelAt(s', v, u, w, ob)]]
  {
    hide PixelAt, Within, PixelOffset;
    var was, now := Pixels(s, w, h, ob), Pixels(s', w, h, ob);
    forall y: nat, x: nat | y < h && x < w
      ensures now[y][x] == if y == v && x == u then PixelAt(s', v, u, w, ob) else was[y][x]
    {
      if y != v || x != u {
        PixelKept(s, s', y, x, v, u, w, ob);
      }
    }
    var want := was[v := was[v][u := PixelAt(s', v, u, w, ob)]];
    forall y | 0 <= y < h
      ensures now[y] == want[y]
    {
    }
  }

  /** Copies n bytes from one buffer to another. */
  method CopyBytes(final: array<Byte>, dst: nat, out: array<Byte>, src: nat, n: nat)
    requires final != out && dst + n <= final.Length && src + n <= out.Length
    modifies final
    ensures final[dst..dst + n] == out[src..src + n]
    ensures Within(old(final[..]), final[..], dst, dst + n)
  {
    for k := 0 to n
      invariant final[dst..dst + k] == out[src..src + k]
      invariant Within(old(final[..]), final[..], dst, dst + k)
    {
      final[dst + k] := out[src + k];
    }
  }

  // ----- copying a pass

  /** Pixel (u, v) of the final image has been written when pass p is at column i of row j. */
  predicate Reached(u: nat, v: nat, p: nat, j: nat, i: nat) {
    PassOf(u, v) == p && (Row(u, v) < j || (Row(u, v) == j && Column(u, v) < i))
  }

  /** The pixels of pass p, and only those, get their values from rows. */
  ghost predicate Copied(was: seq<seq<seq<Byte>>>, now: seq<seq<seq<Byte>>>, rows: seq<seq<Byte>>,
                         p: nat, j: nat, i: nat, ob: nat)
  {
    && |now| == |was| && (forall y :: 0 <= y < |was| ==> |now[y]| == |was[y]|)
    && forall y: nat, x: nat :: y < |was| && x < |was[y]| ==>
      now[y][x] == if Reached(x, y, p, j, i) && Row(x, y) < |rows| then PixelOf(rows[Row(x, y)], Column(x, y), ob)
                   else was[y][x]
  }

  /** One pixel copied. */
  lemma CopyOne(was: seq<seq<seq<Byte>>>, now: seq<seq<seq<Byte>>>, rows: seq<seq<Byte>>,
                p: nat, j: nat, i: nat, ob: nat, u: nat, v: nat)
    requires Copied(was, now, rows, p, j, i, ob) && p < 7 && j < |rows|
    requires u == i * XSPC[p] + XORIG[p] && v == j * YSPC[p] + YORIG[p]
    requires v < |now| && u < |now[v]|
    ensures Copied(was, now[v := now[v][u := PixelOf(rows[j], i, ob)]], rows, p, j, i + 1, ob)
    ensures !Reached(u, v, p, j, i)
  {
    hide PassOf, Row, Column, PixelOf;
    OnlyGrid(p, i, j);
    var now' := now[v := now[v][u := PixelOf(rows[j], i, ob)]];
    forall y: nat, x: nat | y < |was| && x < |was[y]|
      ensures Reached(x, y, p, j, i + 1) <==> Reached(x, y, p, j, i) || (x == u && y == v)
    {
      OnGrid(x, y);
    }
  }

  /** Columns and rows of pass p. */
  function PassWidth(p: nat, w: nat): nat
    requires p < 7
  {
    PassSize(w, XORIG[p], XSPC[p])
  }

  function PassHeight(p: nat, h: nat): nat
    requires p < 7
  {
    PassSize(h, YORIG[p], YSPC[p])
  }

  lemma RowFinished(was: seq<seq<seq<Byte>>>, now: seq<seq<seq<Byte>>>, rows: seq<seq<Byte>>, p: nat, j: nat, w: nat, ob: nat)
    requires p < 7 && 1 <= w <= MAX_DIMENSION && (forall y :: 0 <= y < |was| ==> |was[y]| == w)
    requires Copied(was, now, rows, p, j, PassWidth(p, w), ob)
    ensures Copied(was, now, rows, p, j + 1, 0, ob)
  {
    hide PassOf, Row, Column, PixelOf;
    forall y: nat, x: nat | y < |was| && x < |was[y]|
      ensures Reached(x, y, p, j, PassWidth(p, w)) <==> Reached(x, y, p, j + 1, 0)
    {
      OnGrid(x, y);
      if PassOf(x, y) == p {
        PassSizeCounts(w, p, Column(x, y));
      }
    }
  }

  lemma NothingCopied(was: seq<seq<seq<Byte>>>, rows: seq<seq<Byte>>, p: nat, ob: nat)
    ensures Copied(was, was, rows, p, 0, 0, ob)
  {
    hide PassOf, PixelOf;
    forall y: nat, x: nat | y < |was| && x < |was[y]|
      ensures !Reached(x, y, p, 0, 0)
    {
      OnGrid(x, y);
    }
  }

  /** The pixel the copy loop takes from the pass is that of its output row. */
  lemma PixelTaken(s: seq<Byte>, row: seq<Byte>, j: nat, i: nat, x: nat, y: nat, ob: nat)
    requires i < x && j < y && |row| == x * ob && SliceIs(s, Times(j, x * ob), row) && Times(y, x * ob) <= |s|
    ensures var a := (j * x + i) * ob; 0 <= a && a + ob <= |s| && s[a..a + ob] == PixelOf(row, i, ob)
  {
    hide Times, SliceIs;
    PixelOffsetIs(j, i, x, ob);
    PixelInside(j, i, x, y, ob);
    SliceOfSlice(s, row, Times(j, x * ob), Times(i, ob), ob);
  }

  lemma SliceOfSlice(s: seq<Byte>, row: seq<Byte>, b: nat, c: nat, n: nat)
    requires SliceIs(s, b, row) && c + n <= |row|
    ensures b + c + n <= |s| && s[b + c..b + c + n] == row[c..c + n]
  {
    var u, v := s[b + c..b + c + n], row[c..c + n];
    forall t | 0 <= t < n
      ensures u[t] == v[t]
    {
      assert s[b..b + |row|][c + t] == s[b + c + t];
    }
  }

  /** Copies pixel i of row j of a pass to its place (u, v). */
  method CopyOnePixel(final: array<Byte>, out: array<Byte>, ghost row: seq<Byte>, j: nat, i: nat, x: nat, ghost y: nat,
                      v: nat, u: nat, w: nat, ghost h: nat, ob: nat)
    requires final != out && final.Length == Times(h, w * ob) && u < w && v < h
    requires i < x && j < y && |row| == x * ob && SliceIs(out[..], Times(j, x * ob), row) && Times(y, x * ob) <= out.Length
    modifies final
    ensures var was := Pixels(old(final[..]), w, h, ob);
            Pixels(final[..], w, h, ob) == was[v := was[v][u := PixelOf(row, i, ob)]]
  {
    hide Times, SliceIs, PixelOf, Pixels, Within;
    PixelTaken(out[..], row, j, i, x, y, ob);
    PixelOffsetIs(v, u, w, ob);
    PixelInside(v, u, w, h, ob);
    Offset(v, u, w, ob);
    var a := (j * x + i) * ob;
    ghost var before := final[..];
    CopyBytes(final, v * w * ob + u * ob, out, a, ob);
    PixelWritten(before, final[..], v, u, w, h, ob);
    assert out[..][a..a + ob] == out[a..a + ob];
  }

  lemma Offset(v: nat, u: nat, w: nat, ob: nat)
    ensures v * w * ob + u * ob == (v * w + u) * ob
  {
  }

  /** Copies the pixels of pass p to their places. No pixel is written twice. */
  method CopyPass(final: array<Byte>, out: array<Byte>, p: nat, w: nat, h: nat, ob: nat, ghost rows: seq<seq<Byte>>)
    requires p < 7 && 1 <= w <= MAX_DIMENSION && 1 <= h <= MAX_DIMENSION
    requires final != out && final.Length == Times(h, w * ob)
    requires |rows| == PassHeight(p, h) && Times(|rows|, PassWidth(p, w) * ob) <= out.Length
    requires forall j: nat :: j < |rows| ==>
      |rows[j]| == PassWidth(p, w) * ob && SliceIs(out[..], Times(j, PassWidth(p, w) * ob), rows[j])
    modifies final
    ensures Copied(Pixels(old(final[..]), w, h, ob), Pixels(final[..], w, h, ob), rows, p, PassHeight(p, h), 0, ob)
  {
    hide Copied, Reached, PixelOf, PassSize, SliceIs, Pixels, Times;
    var x, y := PassWidth(p, w), PassHeight(p, h);
    ghost var was := Pixels(final[..], w, h, ob);
    NothingCopied(was, rows, p, ob);
    for j := 0 to y
      invariant Copied(was, Pixels(final[..], w, h, ob), rows, p, j, 0, ob)
    {
      for i := 0 to x
        invariant Copied(was, Pixels(final[..], w, h, ob), rows, p, j, i, ob)
      {
        var out_y, out_x := j * YSPC[p] + YORIG[p], i * XSPC[p] + XORIG[p];
        PassSizeCounts(w, p, i);
        PassSizeCounts(h, p, j);
        CopyOne(was, Pixels(final[..], w, h, ob), rows, p, j, i, ob, out_x, out_y);
        CopyOnePixel(final, out, rows[j], j, i, x, y, out_y, out_x, w, h, ob);
      }
      RowFinished(was, Pixels(final[..], w, h, ob), rows, p, j, w, ob);
    }
  }

  // ----- all passes

  datatype Params = Params(w: nat, h: nat, img_n: nat, out_n: nat, depth: nat, color: nat)

  predicate Legal(f: Params) {
    Format(f.img_n, f.out_n, f.depth) && 1 <= f.w <= MAX_DIMENSION && 1 <= f.h <= MAX_DIMENSION
  }

  predicate HasPixels(f: Params, p: nat)
    requires p < 7
  {
    PassWidth(p, f.w) > 0 && PassHeight(p, f.h) > 0
  }

  /** Bytes of image data that belong to pass p. */
  function PassBytes(f: Params, p: nat): nat
    requires p < 7
  {
    if HasPixels(f, p) then PassHeight(p, f.h) * (WidthBytes(PassWidth(p, f.w), f.img_n, f.depth) + 1) else 0
  }

  /** The image data from pass p on. */
  function PassData(raw: seq<Byte>, f: Params, p: nat): seq<Byte>
    requires p <= 7
  {
    if p == 0 then raw
    else
      var d := PassData(raw, f, p - 1);
      if PassBytes(f, p - 1) <= |d| then d[PassBytes(f, p - 1)..] else []
  }

  /** The scanlines of pass p and the output rows they stand for. */
  ghost predicate PassMeans(d: seq<Byte>, f: Params, p: nat, rows: seq<seq<Byte>>, wide: seq<seq<Byte>>)
    requires p < 7 && Legal(f)
  {
    if !HasPixels(f, p) then rows == [] == wide
    else Decodes(d, PassWidth(p, f.w), PassHeight(p, f.h), f.img_n, f.out_n, f.depth, f.color, rows, wide)
  }

  /** Why pass p could not be decoded. */
  ghost predicate PassFails(r: Status, d: seq<Byte>, f: Params, p: nat)
    requires p < 7 && Legal(f)
  {
    HasPixels(f, p) && Faulty(r, d, PassWidth(p, f.w), PassHeight(p, f.h), f.img_n, f.out_n, f.depth)
  }

  /** Every pixel of the first p passes is the one that its pass has for it. */
  ghost predicate Assembled(final: seq<seq<seq<Byte>>>, f: Params, wide: seq<seq<seq<Byte>>>, p: nat)
    requires p <= |wide|
  {
    && |final| == f.h && (forall y :: 0 <= y < f.h ==> |final[y]| == f.w)
    && forall y: nat, x: nat :: y < f.h && x < f.w && PassOf(x, y) < p ==>
      var rows := wide[PassOf(x, y)];
      0 <= Row(x, y) < |rows| && final[y][x] == PixelOf(rows[Row(x, y)], Column(x, y), f.out_n * SampleBytes(f.depth))
  }

  lemma GridCell(x: nat, y: nat, w: nat, h: nat)
    requires x < w <= MAX_DIMENSION && y < h <= MAX_DIMENSION
    ensures 0 <= Row(x, y) < PassHeight(PassOf(x, y), h) && 0 <= Column(x, y) < PassWidth(PassOf(x, y), w)
  {
    hide Row, Column, PassOf;
    OnGrid(x, y);
    PassSizeCounts(w, PassOf(x, y), Column(x, y));
    PassSizeCounts(h, PassOf(x, y), Row(x, y));
  }

  /** All pixels of pass p, and no others, have been copied. */
  ghost predicate PassCopied(was: seq<seq<seq<Byte>>>, now: seq<seq<seq<Byte>>>, f: Params, p: nat, wide: seq<seq<Byte>>)
    requires p < 7
  {
    |wide| == PassHeight(p, f.h) && Copied(was, now, wide, p, PassHeight(p, f.h), 0, f.out_n * SampleBytes(f.depth))
  }

  /** A pass copied into the final image completes its pixels. */
  lemma PassAdded(was: seq<seq<seq<Byte>>>, now: seq<seq<seq<Byte>>>, f: Params, wide: seq<seq<seq<Byte>>>, rows: seq<seq<Byte>>)
    requires |wide| < 7 && Legal(f) && Assembled(was, f, wide, |wide|)
    requires PassCopied(was, now, f, |wide|, rows)
    ensures Assembled(now, f, wide + [rows], |wide| + 1)
  {
    hide Row, Column, PassOf, PixelOf, PassSize, XSPC, YSPC, XORIG, YORIG;
    forall y: nat, x: nat | y < f.h && x < f.w
      ensures 0 <= Row(x, y) < PassHeight(PassOf(x, y), f.h)
    {
      GridCell(x, y, f.w, f.h);
    }
  }

  /** A pass without pixels has none to add. */
  lemma EmptyPassAdded(final: seq<seq<seq<Byte>>>, f: Params, wide: seq<seq<seq<Byte>>>)
    requires |wide| < 7 && Legal(f) && Assembled(final, f, wide, |wide|) && !HasPixels(f, |wide|)
    ensures Assembled(final, f, wide + [[]], |wide| + 1)
  {
    hide Row, Column, PixelOf, PassSize;
    forall y: nat, x: nat | y < f.h && x < f.w
      ensures PassOf(x, y) != |wide|
    {
      GridCell(x, y, f.w, f.h);
    }
  }

  /** The final image. */
  function Final(s: seq<Byte>, f: Params): (r: seq<seq<seq<Byte>>>)
    ensures |r| == f.h && forall y :: 0 <= y < f.h ==> |r[y]| == f.w
  {
    Pixels(s, f.w, f.h, f.out_n * SampleBytes(f.depth))
  }

  /** Decodes one pass and copies it. */
  method CreatePass(final: array<Byte>, d: seq<Byte>, f: Params, p: nat)
    returns (r: Status, ghost rows: seq<seq<Byte>>, ghost wide: seq<seq<Byte>>)
    requires Legal(f) && p < 7 && HasPixels(f, p)
    requires final.Length == Times(f.h, f.w * (f.out_n * SampleBytes(f.depth)))
    modifies final
    ensures if r == Decoded then PassMeans(d, f, p, rows, wide) && PassCopied(old(Final(final[..], f)), Final(final[..], f), f, p, wide)
            else PassFails(r, d, f, p)
  {
    hide Decodes, Faulty, SliceIs, Times, Copied, PassSize, PixelOf, Pixels;
    var x, y := PassWidth(p, f.w), PassHeight(p, f.h);
    var out;
    r, out, rows, wide := CreateRaw(d, x, y, f.img_n, f.out_n, f.depth, f.color);
    if r == Decoded {
      DecodesCount(d, f, x, y, rows, wide);
      CopyPass(final, out, p, f.w, f.h, f.out_n * SampleBytes(f.depth), wide);
    }
  }

  lemma DecodesCount(d: seq<Byte>, f: Params, x: nat, y: nat, rows: seq<seq<Byte>>, wide: seq<seq<Byte>>)
    requires Legal(f) && Decodes(d, x, y, f.img_n, f.out_n, f.depth, f.color, rows, wide)
    ensures |wide| == y
  {
  }

  /** A decoded pass uses up its share of the data. */
  lemma PassUsed(raw: seq<Byte>, f: Params, p: nat, rows: seq<seq<Byte>>, wide: seq<seq<Byte>>)
    requires p < 7 && Legal(f) && PassMeans(PassData(raw, f, p), f, p, rows, wide)
    ensures PassBytes(f, p) <= |PassData(raw, f, p)|
    ensures PassData(raw, f, p + 1) == PassData(raw, f, p)[PassBytes(f, p)..]
  {
    hide PassWidth, PassHeight, WidthBytes, Unfilter, Outputs;
    if HasPixels(f, p) {
      EnoughIs(PassData(raw, f, p), PassHeight(p, f.h), WidthBytes(PassWidth(p, f.w), f.img_n, f.depth));
    }
  }

  /** De-interlaces an image: on success every pixel of the final image is the one its own pass
      holds for it, each pass being decoded from its share of the data; on failure some pass
      cannot be decoded. */
  method CreateInterlaced(raw: seq<Byte>, f: Params)
    returns (r: Status, final: array<Byte>, ghost passes: seq<seq<seq<Byte>>>, ghost wide: seq<seq<seq<Byte>>>)
    requires Legal(f)
    ensures fresh(final) && final.Length == f.w * f.h * (f.out_n * SampleBytes(f.depth))
    ensures r == Decoded ==> |passes| == 7 == |wide| && Assembled(Final(final[..], f), f, wide, 7)
    ensures r == Decoded ==> forall p: nat :: p < 7 ==> PassMeans(PassData(raw, f, p), f, p, passes[p], wide[p])
    ensures r != Decoded ==> exists p: nat :: p < 7 && PassFails(r, PassData(raw, f, p), f, p)
  {
    hide Assembled, PassMeans, PassFails, PassData, PassWidth, PassHeight, WidthBytes, PassBytes, PassCopied, Pixels, Times;
    var ob := f.out_n * SampleBytes(f.depth);
    final := new Byte[f.w * f.h * ob];
    BufferSize(f.w, f.h, ob);
    passes, wide := [], [];
    NothingAssembled(Final(final[..], f), f);
    var d := raw;
    DataStart(raw, f);
    for p := 0 to 7
      invariant |passes| == p == |wide| && Assembled(Final(final[..], f), f, wide, p)
      invariant d == PassData(raw, f, p)
      invariant forall q: nat :: q < p ==> PassMeans(PassData(raw, f, q), f, q, passes[q], wide[q])
    {
      ghost var rows: seq<seq<Byte>>, out: seq<seq<Byte>> := [], [];
      if HasPixels(f, p) {
        ghost var was := Final(final[..], f);
        r, rows, out := CreatePass(final, d, f, p);
        if r != Decoded {
          return;
        }
        PassAdded(was, Final(final[..], f), f, wide, out);
      } else {
        EmptyPassMeans(d, f, p);
        EmptyPassAdded(Final(final[..], f), f, wide);
      }
      PassUsed(raw, f, p, rows, out);
      passes, wide := passes + [rows], wide + [out];
      d := d[PassBytes(f, p)..];
    }
    r := Decoded;
  }

  lemma NothingAssembled(final: seq<seq<seq<Byte>>>, f: Params)
    requires |final| == f.h && forall y :: 0 <= y < f.h ==> |final[y]| == f.w
    ensures Assembled(final, f, [], 0)
  {
  }

  lemma EmptyPassMeans(d: seq<Byte>, f: Params, p: nat)
    requires p < 7 && Legal(f) && !HasPixels(f, p)
    ensures PassMeans(d, f, p, [], [])
  {
  }

  lemma DataStart(raw: seq<Byte>, f: Params)
    ensures PassData(raw, f, 0) == raw
  {
  }

  // ----- storing an image in passes, the inverse

  /** The pixel of an image at column i and row j of pass p. */
  function GridPixel(image: seq<seq<seq<Byte>>>, p: nat, j: nat, i: nat): seq<Byte>
    requires p < 7
  {
    var y, x := j * YSPC[p] + YORIG[p], i * XSPC[p] + XORIG[p];
    if y < |image| && x < |image[y]| then image[y][x] else []
  }

  /** If the passes hold the pixels of an image on their grids, the image is what is assembled. */
  lemma PassesOfImage(final: seq<seq<seq<Byte>>>, image: seq<seq<seq<Byte>>>, f: Params, wide: seq<seq<seq<Byte>>>)
    requires Legal(f) && |wide| == 7 && Assembled(final, f, wide, 7)
    requires |image| == f.h && forall y :: 0 <= y < f.h ==> |image[y]| == f.w
    requires forall p: nat, j: nat, i: nat :: p < 7 && j < |wide[p]| && i < PassWidth(p, f.w) ==>
      PixelOf(wide[p][j], i, f.out_n * SampleBytes(f.depth)) == GridPixel(image, p, j, i)
    ensures final == image
  {
    hide Row, Column, PassOf, PixelOf, PassSize;
    forall y: nat, x: nat | y < f.h && x < f.w
      ensures final[y][x] == image[y][x]
    {
      OnGrid(x, y);
      GridCell(x, y, f.w, f.h);
      assert GridPixel(image, PassOf(x, y), Row(x, y), Column(x, y)) == image[y][x];
    }
    forall y | 0 <= y < f.h
      ensures final[y] == image[y]
    {
    }
  }

  /** Scanlines of pass p, all whole. */
  predicate WholeRows(f: Params, p: nat, rows: seq<seq<Byte>>)
    requires p < 7
  {
    && |rows| == (if HasPixels(f, p) then PassHeight(p, f.h) else 0)
    && forall j: nat :: j < |rows| ==> |rows[j]| == WidthBytes(PassWidth(p, f.w), f.img_n, f.depth)
  }

  /** Filter types for the rows of a pass. */
  predicate TypesFor(types: seq<nat>, n: nat) {
    |types| == n && forall j :: 0 <= j < n ==> types[j] <= 4
  }

  function StoredPass(f: Params, p: nat, rows: seq<seq<Byte>>, types: seq<nat>): seq<Byte>
    requires p < 7 && WholeRows(f, p, rows) && TypesFor(types, |rows|)
  {
    Stored(rows, types, Zeros(WidthBytes(PassWidth(p, f.w), f.img_n, f.depth)), FilterBytes(f.img_n, f.depth))
  }

  /** The passes from p on as they are stored. */
  function StoredFrom(f: Params, passes: seq<seq<seq<Byte>>>, types: seq<seq<nat>>, p: nat): seq<Byte>
    requires p <= 7 == |passes| == |types| && Legal(f)
    requires forall q: nat :: q < 7 ==> WholeRows(f, q, passes[q]) && TypesFor(types[q], |passes[q]|)
    decreases 7 - p
  {
    if p == 7 then []
    else StoredPass(f, p, passes[p], types[p]) + StoredFrom(f, passes, types, p + 1)
  }

  lemma {:induction false} StoredSize(rows: seq<seq<Byte>>, types: seq<nat>, prior: seq<Byte>, bpp: nat)
    requires TypesFor(types, |rows|) && forall j :: 0 <= j < |rows| ==> |rows[j]| == |prior|
    ensures |Stored(rows, types, prior, bpp)| == |rows| * (|prior| + 1)
  {
    if |rows| > 0 {
      StoredSize(rows[1..], types[1..], rows[0], bpp);
      assert |rows| * (|prior| + 1) == (|rows| - 1) * (|prior| + 1) + (|prior| + 1);
    }
  }

  /** Each pass is found where the ones before it end, whatever filters were chosen. */
  lemma {:induction false} StoredPasses(f: Params, passes: seq<seq<seq<Byte>>>, types: seq<seq<nat>>, p: nat)
    requires p <= 7 == |passes| == |types| && Legal(f)
    requires forall q: nat :: q < 7 ==> WholeRows(f, q, passes[q]) && TypesFor(types[q], |passes[q]|)
    ensures PassData(StoredFrom(f, passes, types, 0), f, p) == StoredFrom(f, passes, types, p)
  {
    hide PassWidth, PassHeight, WidthBytes, Stored, Zeros, FilterBytes;
    if p > 0 {
      var q := p - 1;
      StoredPasses(f, passes, types, q);
      assert WholeRows(f, q, passes[q]);
      StoredSize(passes[q], types[q], Zeros(WidthBytes(PassWidth(q, f.w), f.img_n, f.depth)), FilterBytes(f.img_n, f.depth));
    }
  }

  /** So every pass of the stored image decodes to its own scanlines. */
  lemma PassComesBack(f: Params, passes: seq<seq<seq<Byte>>>, types: seq<seq<nat>>, p: nat)
    requires p < 7 == |passes| == |types| && Legal(f) && HasPixels(f, p)
    requires forall q: nat :: q < 7 ==> WholeRows(f, q, passes[q]) && TypesFor(types[q], |passes[q]|)
    ensures var width := WidthBytes(PassWidth(p, f.w), f.img_n, f.depth);
            var d := PassData(StoredFrom(f, passes, types, 0), f, p);
            && Enough(d, PassHeight(p, f.h), width)
            && Unfilter(d, PassHeight(p, f.h), Zeros(width), FilterBytes(f.img_n, f.depth)) == Rows(passes[p])
  {
    hide PassWidth, PassHeight, WidthBytes, Stored, Zeros;
    StoredPasses(f, passes, types, p);
    assert WholeRows(f, p, passes[p]) && TypesFor(types[p], |passes[p]|);
    UnfilterStored(passes[p], types[p], Zeros(WidthBytes(PassWidth(p, f.w), f.img_n, f.depth)),
                   FilterBytes(f.img_n, f.depth), StoredFrom(f, passes, types, p + 1));
  }
}
