/** PNG scanline filters as section 9.2 of ISO/IEC 15948 defines them: each byte is coded as its
    difference from a prediction made of the byte of the pixel to the left, the byte above, and
    the byte above that to the left. */
module PngFilter {
  import opened Bits

  function Abs(x: int): nat {
    if x < 0 then -x else x
  }

  function Paeth(a: Byte, b: Byte, c: Byte): (r: Byte)
    ensures r == a || r == b || r == c
  {
    var p := a + b - c;
    var pa, pb, pc := Abs(p - a), Abs(p - b), Abs(p - c);
    if pa <= pb && pa <= pc then a else if pb <= pc then b else c
  }

  /** The prediction of filter type ft from left (a), above (b) and above left (c). */
  function Predict(ft: nat, a: Byte, b: Byte, c: Byte): Byte {
    match ft
    case 0 => 0
    case 1 => a
    case 2 => b
    case 3 => (a + b) / 2
    case _ => Paeth(a, b, c)
  }

  /** Byte k - bpp of a row, zero to the left of it. */
  function Left(row: seq<Byte>, k: nat, bpp: nat): Byte {
    if bpp <= k < |row| + bpp then row[k - bpp] else 0
  }

  function Predicted(ft: nat, row: seq<Byte>, prior: seq<Byte>, k: nat, bpp: nat): Byte
    requires k < |prior|
  {
    Predict(ft, Left(row, k, bpp), prior[k], Left(prior, k, bpp))
  }

  function FilterByte(ft: nat, row: seq<Byte>, prior: seq<Byte>, k: nat, bpp: nat): Byte
    requires k < |row| <= |prior|
  {
    (row[k] - Predicted(ft, row, prior, k, bpp)) % 256
  }

  /** The filtered form of a row. */
  function Filter(ft: nat, row: seq<Byte>, prior: seq<Byte>, bpp: nat): (r: seq<Byte>)
    requires |row| <= |prior|
    ensures |r| == |row|
  {
    seq(|row|, k requires 0 <= k < |row| => FilterByte(ft, row, prior, k, bpp))
  }

  /** The row that a filtered row stands for, byte by byte. */
  function Recon(ft: nat, raw: seq<Byte>, prior: seq<Byte>, bpp: nat): (r: seq<Byte>)
    requires |raw| <= |prior|
    ensures |r| == |raw|
  {
    if |raw| == 0 then []
    else
      var k := |raw| - 1;
      var row := Recon(ft, raw[..k], prior, bpp);
      row + [(raw[k] + Predicted(ft, row, prior, k, bpp)) % 256]
  }

  // ----- what each type predicts

  /** r is the one of a, b and c that is nearest to a + b - c, the first of them if several are. */
  predicate Nearest(a: Byte, b: Byte, c: Byte, r: Byte) {
    var p := a + b - c;
    && (r == a || r == b || r == c)
    && Abs(p - r) <= Abs(p - a) && Abs(p - r) <= Abs(p - b) && Abs(p - r) <= Abs(p - c)
    && (Abs(p - r) == Abs(p - a) ==> r == a)
    && (r == c && c != b && c != a ==> Abs(p - c) < Abs(p - b))
  }

  lemma PaethIsNearest(a: Byte, b: Byte, c: Byte, r: Byte)
    ensures Nearest(a, b, c, r) <==> r == Paeth(a, b, c)
  {
  }

  /** Type 0 stores the row as it is. */
  lemma NoneStores(row: seq<Byte>, prior: seq<Byte>, bpp: nat)
    requires |row| <= |prior|
    ensures Filter(0, row, prior, bpp) == row
  {
  }

  /** Type 1 stores the difference to the pixel on the left: zero where a pixel repeats. */
  lemma SubStores(row: seq<Byte>, prior: seq<Byte>, bpp: nat, k: nat)
    requires k < |row| <= |prior| && bpp > 0
    ensures k < bpp ==> Filter(1, row, prior, bpp)[k] == row[k]
    ensures k >= bpp ==> (Filter(1, row, prior, bpp)[k] == 0 <==> row[k] == row[k - bpp])
  {
  }

  /** Type 2 stores the difference to the row above: zero where it repeats. */
  lemma UpStores(row: seq<Byte>, prior: seq<Byte>, bpp: nat, k: nat)
    requires k < |row| <= |prior|
    ensures Filter(2, row, prior, bpp)[k] == 0 <==> row[k] == prior[k]
  {
  }

  /** Type 3 stores the difference to the mean, rounded down, of left and above. */
  lemma AverageStores(row: seq<Byte>, prior: seq<Byte>, bpp: nat, k: nat)
    requires k < |row| <= |prior| && bpp > 0
    ensures var sum := prior[k] as int + if k < bpp then 0 else row[k - bpp];
            var twice := 2 * row[k] as int;
            Filter(3, row, prior, bpp)[k] == 0 <==> twice <= sum <= twice + 1
  {
  }

  /** Type 4 stores the difference to the nearest of left, above and above left. */
  lemma PaethStores(row: seq<Byte>, prior: seq<Byte>, bpp: nat, k: nat)
    requires k < |row| <= |prior| && bpp > 0
    ensures var a, c := if k < bpp then 0 else row[k - bpp], if k < bpp then 0 else prior[k - bpp];
            Filter(4, row, prior, bpp)[k] == 0 <==> Nearest(a, prior[k], c, row[k])
  {
    hide Paeth, Nearest;
    PaethIsNearest(Left(row, k, bpp), prior[k], Left(prior, k, bpp), row[k]);
  }

  // ----- filtering and reconstructing

  /** Reconstruction never looks ahead. */
  lemma {:induction false} ReconPrefix(ft: nat, raw: seq<Byte>, prior: seq<Byte>, bpp: nat, n: nat)
    requires n <= |raw| <= |prior|
    ensures Recon(ft, raw, prior, bpp)[..n] == Recon(ft, raw[..n], prior, bpp)
  {
    hide Predicted;
    if n < |raw| {
      var k := |raw| - 1;
      ReconPrefix(ft, raw[..k], prior, bpp, n);
      assert raw[..k][..n] == raw[..n];
      assert Recon(ft, raw, prior, bpp)[..n] == Recon(ft, raw[..k], prior, bpp)[..n];
    } else {
      assert raw[..n] == raw;
    }
  }

  lemma LeftPrefix(row: seq<Byte>, k: nat, bpp: nat)
    requires k <= |row| && bpp > 0
    ensures Left(row, k, bpp) == Left(row[..k], k, bpp)
  {
  }

  /** Each byte of the result is its raw byte plus the prediction from the result itself. */
  lemma ReconAt(ft: nat, raw: seq<Byte>, prior: seq<Byte>, bpp: nat, k: nat)
    requires k < |raw| <= |prior| && bpp > 0
    ensures var r := Recon(ft, raw, prior, bpp);
            r[k] == (raw[k] + Predicted(ft, r, prior, k, bpp)) % 256
  {
    hide Left, Predict;
    var r := Recon(ft, raw, prior, bpp);
    ReconPrefix(ft, raw, prior, bpp, k + 1);
    ReconPrefix(ft, raw, prior, bpp, k);
    assert raw[..k + 1][..k] == raw[..k];
    assert r[k] == r[..k + 1][k];
    LeftPrefix(r, k, bpp);
  }

  lemma AddBack(x: Byte, p: Byte)
    ensures ((x - p) % 256 + p) % 256 == x
    ensures ((x + p) % 256 - p) % 256 == x
  {
  }

  /** Unfiltering undoes filtering. */
  lemma {:induction false} ReconFilter(ft: nat, row: seq<Byte>, prior: seq<Byte>, bpp: nat, n: nat)
    requires n <= |row| <= |prior| && bpp > 0
    ensures Recon(ft, Filter(ft, row, prior, bpp)[..n], prior, bpp) == row[..n]
  {
    hide Predict, Left;
    if n > 0 {
      var k := n - 1;
      var f := Filter(ft, row, prior, bpp);
      ReconFilter(ft, row, prior, bpp, k);
      assert f[..n][..k] == f[..k];
      LeftPrefix(row, k, bpp);
      AddBack(row[k], Predicted(ft, row, prior, k, bpp));
      assert f[k] == FilterByte(ft, row, prior, k, bpp);
      assert row[..n] == row[..k] + [row[k]];
    }
  }

  /** Filtering undoes unfiltering: every raw row is the filtered form of exactly one row. */
  lemma FilterRecon(ft: nat, raw: seq<Byte>, prior: seq<Byte>, bpp: nat)
    requires |raw| <= |prior| && bpp > 0
    ensures Filter(ft, Recon(ft, raw, prior, bpp), prior, bpp) == raw
  {
    hide Predict, Left;
    var r := Recon(ft, raw, prior, bpp);
    forall k: nat | k < |raw|
      ensures FilterByte(ft, r, prior, k, bpp) == raw[k]
    {
      ReconAt(ft, raw, prior, bpp, k);
      AddBack(raw[k], Predicted(ft, r, prior, k, bpp));
    }
  }

  // ----- whole images

  datatype Rows = BadFilter | Rows(rows: seq<seq<Byte>>)

  function Zeros(n: nat): (r: seq<Byte>)
    ensures |r| == n && forall i :: 0 <= i < n ==> r[i] == 0
  {
    seq(n, _ => 0)
  }

  /** The h rows of width bytes at the start of raw: a filter type before each, and a row of
      zeros above the first. */
  function Unfilter(raw: seq<Byte>, h: nat, prior: seq<Byte>, bpp: nat): (r: Rows)
    requires Enough(raw, h, |prior|)
    ensures r.Rows? ==> |r.rows| == h && forall j :: 0 <= j < h ==> |r.rows[j]| == |prior|
    decreases h
  {
    if h == 0 then Rows([])
    else if raw[0] > 4 then BadFilter
    else
      var row := Recon(raw[0], raw[1..1 + |prior|], prior, bpp);
      match Unfilter(raw[1 + |prior|..], h - 1, row, bpp)
      case BadFilter => BadFilter
      case Rows(rows) => Rows([row] + rows)
  }

  predicate Enough(raw: seq<Byte>, h: nat, width: nat)
    decreases h
  {
    h == 0 || (|raw| >= 1 + width && Enough(raw[1 + width..], h - 1, width))
  }

  /** An image as it is stored, with the filter types chosen for its rows. */
  function Stored(rows: seq<seq<Byte>>, types: seq<nat>, prior: seq<Byte>, bpp: nat): (raw: seq<Byte>)
    requires |types| == |rows| && (forall j :: 0 <= j < |types| ==> types[j] <= 4)
    requires forall j :: 0 <= j < |rows| ==> |rows[j]| == |prior|
  {
    if |rows| == 0 then []
    else [types[0] as Byte] + Filter(types[0], rows[0], prior, bpp) + Stored(rows[1..], types[1..], rows[0], bpp)
  }

  /** Whatever filter types are chosen and whatever follows, the stored image comes back. */
  lemma {:induction false} UnfilterStored(rows: seq<seq<Byte>>, types: seq<nat>, prior: seq<Byte>, bpp: nat, extra: seq<Byte>)
    requires |types| == |rows| && (forall j :: 0 <= j < |types| ==> types[j] <= 4) && bpp > 0
    requires forall j :: 0 <= j < |rows| ==> |rows[j]| == |prior|
    ensures var raw := Stored(rows, types, prior, bpp) + extra;
            Enough(raw, |rows|, |prior|) && Unfilter(raw, |rows|, prior, bpp) == Rows(rows)
  {
    hide Recon, Filter;
    if |rows| > 0 {
      var w := |prior|;
      var rest := Stored(rows[1..], types[1..], rows[0], bpp) + extra;
      var f := Filter(types[0], rows[0], prior, bpp);
      var raw := Stored(rows, types, prior, bpp) + extra;
      UnfilterStored(rows[1..], types[1..], rows[0], bpp, extra);
      assert raw == [types[0] as Byte] + f + rest;
      assert raw[1..1 + w] == f && raw[1 + w..] == rest;
      ReconFilter(types[0], rows[0], prior, bpp, w);
      assert f[..w] == f && rows[0][..w] == rows[0];
      assert rows == [rows[0]] + rows[1..];
    }
  }

  /** Rows as they are, each after a zero. */
  function Plain(rows: seq<seq<Byte>>): seq<Byte> {
    if rows == [] then [] else [0] + rows[0] + Plain(rows[1..])
  }

  /** Without filtering, the data of an image is its rows with a zero before each. */
  lemma {:induction false} PlainIsStored(rows: seq<seq<Byte>>, prior: seq<Byte>, bpp: nat)
    requires forall j :: 0 <= j < |rows| ==> |rows[j]| == |prior|
    ensures Stored(rows, seq(|rows|, _ => 0), prior, bpp) == Plain(rows)
    decreases |rows|
  {
    hide Filter;
    if rows != [] {
      NoneStores(rows[0], prior, bpp);
      PlainIsStored(rows[1..], rows[0], bpp);
      assert seq(|rows|, _ => 0)[1..] == seq(|rows| - 1, _ => 0);
    }
  }
}
