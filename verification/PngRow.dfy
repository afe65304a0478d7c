/** Unfiltering one scanline in place in the output image: the switch over filter types with the
    two extra ones for the first row, and the paths with and without room for an alpha channel. */
module PngRow {
  import opened Bits
  import opened PngFilter

  const AVG_FIRST: nat := 5
  const PAETH_FIRST: nat := 6
  const FIRST_ROW_FILTER: seq<nat> := [0, 1, 0, AVG_FIRST, PAETH_FIRST]

  /** The filters that look at the row above. */
  predicate LooksUp(f: nat) {
    2 <= f <= 4
  }

  /** A byte of the first pixel of a row. */
  function FirstByte(f: nat, raw: Byte, b: Byte): Byte {
    match f
    case 2 => (raw + b) % 256
    case 3 => (raw + b / 2) % 256
    case 4 => (raw + Paeth(0, b, 0)) % 256
    case _ => raw
  }

  /** A byte of any later pixel. */
  function LaterByte(f: nat, raw: Byte, a: Byte, b: Byte, c: Byte): Byte {
    match f
    case 0 => raw
    case 1 => (raw + a) % 256
    case 2 => (raw + b) % 256
    case 3 => (raw + (b + a) / 2) % 256
    case 4 => (raw + Paeth(a, b, c)) % 256
    case 5 => (raw + a / 2) % 256
    case _ => (raw + Paeth(a, 0, 0)) % 256
  }

  /** The filter the row loop uses for a stored type. */
  function Chosen(ft: nat, first: bool): (f: nat)
    requires ft <= 4
    ensures f <= PAETH_FIRST && (first ==> !LooksUp(f))
  {
    if first then FIRST_ROW_FILTER[ft] else ft
  }

  /** The synthetic filters are the ordinary ones over a row of zeros. */
  lemma FirstRowFilters(ft: nat, raw: Byte, a: Byte, b: Byte, c: Byte)
    requires ft <= 4
    ensures LaterByte(Chosen(ft, true), raw, a, b, c) == (raw + Predict(ft, a, 0, 0)) % 256
    ensures FirstByte(Chosen(ft, true), raw, b) == (raw + Predict(ft, 0, 0, 0)) % 256
  {
  }

  lemma OrdinaryFilters(ft: nat, raw: Byte, a: Byte, b: Byte, c: Byte)
    requires ft <= 4
    ensures LaterByte(ft, raw, a, b, c) == (raw + Predict(ft, a, b, c)) % 256
    ensures FirstByte(ft, raw, b) == (raw + Predict(ft, 0, b, 0)) % 256
  {
  }

  // ----- where a row's bytes go

  /** Offset in the output row of byte k of the scanline, when pixels of fb bytes are spread to
      ob bytes each. */
  function Place(k: nat, fb: nat, ob: nat): nat
    requires fb > 0
  {
    if k < fb then k else ob + Place(k - fb, fb, ob)
  }

  /** k is the first byte of a pixel. */
  predicate PixelStart(k: nat, fb: nat)
    requires fb > 0
  {
    k == 0 || (k >= fb && PixelStart(k - fb, fb))
  }

  lemma {:induction false} PlaceSame(k: nat, fb: nat)
    requires fb > 0
    ensures Place(k, fb, fb) == k
  {
    if k >= fb {
      PlaceSame(k - fb, fb);
    }
  }

  lemma {:induction false} PlaceInPixel(d: nat, i: nat, fb: nat, ob: nat)
    requires 0 < fb <= ob && PixelStart(d, fb) && i < fb
    ensures Place(d + i, fb, ob) == Place(d, fb, ob) + i
    decreases d
  {
    if d > 0 {
      PlaceInPixel(d - fb, i, fb, ob);
    }
  }

  lemma {:induction false} PlaceMono(t: nat, u: nat, fb: nat, ob: nat)
    requires 0 < fb <= ob && t < u
    ensures Place(t, fb, ob) < Place(u, fb, ob)
    decreases u
  {
    if t >= fb {
      PlaceMono(t - fb, u - fb, fb, ob);
    }
  }

  lemma {:induction false} StartStep(d: nat, u: nat, fb: nat)
    requires fb > 0 && PixelStart(d, fb) && PixelStart(u, fb) && d < u
    ensures d + fb <= u
    decreases u
  {
    if d > 0 {
      StartStep(d - fb, u - fb, fb);
    }
  }

  /** Bytes before pixel d stay clear of it. */
  lemma PlaceBefore(t: nat, d: nat, fb: nat, ob: nat)
    requires 0 < fb <= ob && PixelStart(d, fb) && t < d + fb
    ensures Place(t, fb, ob) < Place(d, fb, ob) + fb
  {
    PlaceInPixel(d, fb - 1, fb, ob);
    if t < d + fb - 1 {
      PlaceMono(t, d + fb - 1, fb, ob);
    }
  }

  /** Pixels do not overlap. */
  lemma PixelsApart(d: nat, u: nat, fb: nat, ob: nat)
    requires 0 < fb <= ob && PixelStart(d, fb) && PixelStart(u, fb) && d < u
    ensures Place(d, fb, ob) + ob <= Place(u, fb, ob)
  {
    StartStep(d, u, fb);
    if d + fb < u {
      PlaceMono(d + fb, u, fb, ob);
    }
  }

  /** The scanline row lies at o in the image: its first n bytes are in place. */
  ghost predicate RowAt(s: seq<Byte>, o: int, row: seq<Byte>, n: nat, fb: nat, ob: nat)
    requires 0 < fb && n <= |row|
  {
    forall t: nat :: t < n ==> 0 <= o + Place(t, fb, ob) < |s| && s[o + Place(t, fb, ob)] == row[t]
  }

  /** Byte x of every alpha value before byte n is full. */
  ghost predicate AlphaAt(s: seq<Byte>, o: int, n: nat, fb: nat, ob: nat, x: nat)
    requires 0 < fb
  {
    forall d: nat :: d < n && PixelStart(d, fb) ==>
      0 <= o + Place(d, fb, ob) + fb + x < |s| && s[o + Place(d, fb, ob) + fb + x] == 255
  }

  /** Only the bytes from a to b changed. */
  ghost predicate Within(s: seq<Byte>, s': seq<Byte>, a: int, b: int) {
    |s| == |s'| && forall i :: 0 <= i < |s| && !(a <= i < b) ==> s'[i] == s[i]
  }

  /** A row is about to be, or being, unfiltered at o: its raw bytes are whole pixels, it fits,
      and the row above lies before it at po unless this is the first. */
  ghost predicate Setting(s: seq<Byte>, o: int, po: int, raw: seq<Byte>, prior: seq<Byte>,
                          ft: nat, first: bool, fb: nat, ob: nat)
  {
    && 0 < fb <= ob && fb <= |raw| == |prior| && PixelStart(|raw|, fb) && ft <= 4
    && 0 <= o && o + Place(|raw|, fb, ob) <= |s|
    && if first then prior == Zeros(|prior|)
       else 0 <= po && po + Place(|raw|, fb, ob) <= o && RowAt(s, po, prior, |prior|, fb, ob)
  }

  lemma StillSet(s: seq<Byte>, s': seq<Byte>, o: int, po: int, raw: seq<Byte>, prior: seq<Byte>,
                 ft: nat, first: bool, fb: nat, ob: nat)
    requires Setting(s, o, po, raw, prior, ft, first, fb, ob)
    requires Within(s, s', o, o + Place(|raw|, fb, ob))
    ensures Setting(s', o, po, raw, prior, ft, first, fb, ob)
  {
    hide Place, PixelStart;
    if !first {
      forall t: nat | t < |prior|
        ensures s'[po + Place(t, fb, ob)] == prior[t]
      {
        PlaceMono(t, |raw|, fb, ob);
      }
    }
  }

  lemma ZeroRow(n: nat, k: nat, fb: nat)
    requires k < n && fb > 0
    ensures Zeros(n)[k] == 0 && Left(Zeros(n), k, fb) == 0
  {
  }

  /** What the switch computes is the byte of the row: in the first pixel, */
  lemma FirstIs(raw: seq<Byte>, prior: seq<Byte>, ft: nat, first: bool, fb: nat, k: nat, b: Byte)
    requires k < fb && k < |raw| == |prior| && ft <= 4
    requires if first then prior == Zeros(|prior|) else LooksUp(ft) ==> b == prior[k]
    ensures FirstByte(Chosen(ft, first), raw[k], b) == Recon(ft, raw, prior, fb)[k]
  {
    hide FirstByte, Predict, Recon, Chosen;
    ReconAt(ft, raw, prior, fb, k);
    if first {
      ZeroRow(|prior|, k, fb);
      FirstRowFilters(ft, raw[k], 0, b, 0);
    } else {
      OrdinaryFilters(ft, raw[k], 0, prior[k], 0);
      NotUp(ft, raw[k], 0, b, 0, prior[k], 0);
      Ordinary(ft);
    }
  }

  lemma Ordinary(ft: nat)
    requires ft <= 4
    ensures Chosen(ft, false) == ft
  {
  }

  lemma NotUp(f: nat, raw: Byte, a: Byte, b: Byte, c: Byte, b': Byte, c': Byte)
    requires f <= 4 && (LooksUp(f) ==> b == b' && c == c')
    ensures FirstByte(f, raw, b) == FirstByte(f, raw, b')
    ensures LaterByte(f, raw, a, b, c) == LaterByte(f, raw, a, b', c')
  {
  }

  /** and in any later one. */
  lemma LaterIs(raw: seq<Byte>, prior: seq<Byte>, ft: nat, first: bool, fb: nat, k: nat, b: Byte, c: Byte)
    requires 0 < fb <= k < |raw| == |prior| && ft <= 4
    requires if first then prior == Zeros(|prior|) else LooksUp(ft) ==> b == prior[k] && c == prior[k - fb]
    ensures var r := Recon(ft, raw, prior, fb);
            LaterByte(Chosen(ft, first), raw[k], r[k - fb], b, c) == r[k]
  {
    hide LaterByte, Predict, Recon, Chosen;
    var r := Recon(ft, raw, prior, fb);
    ReconAt(ft, raw, prior, fb, k);
    if first {
      ZeroRow(|prior|, k, fb);
      FirstRowFilters(ft, raw[k], r[k - fb], b, c);
    } else {
      OrdinaryFilters(ft, raw[k], r[k - fb], prior[k], prior[k - fb]);
      NotUp(ft, raw[k], r[k - fb], b, c, prior[k], prior[k - fb]);
      Ordinary(ft);
    }
  }

  /** Writing the next byte of a row puts one byte more in place. */
  lemma PutByte(s: seq<Byte>, o: int, row: seq<Byte>, n: nat, fb: nat, ob: nat)
    requires 0 < fb <= ob && n < |row| && RowAt(s, o, row, n, fb, ob)
    requires 0 <= o + Place(n, fb, ob) < |s|
    ensures RowAt(s[o + Place(n, fb, ob) := row[n]], o, row, n + 1, fb, ob)
  {
    hide Place;
    forall t: nat | t < n
      ensures Place(t, fb, ob) < Place(n, fb, ob)
    {
      PlaceMono(t, n, fb, ob);
    }
  }

  lemma PlaceStart(k: nat, fb: nat, ob: nat)
    requires k < fb
    ensures Place(k, fb, ob) == k
  {
  }

  /** The first pixel of a row. */
  method FirstPixel(out: array<Byte>, o: nat, po: int, raw: seq<Byte>, ft: nat, first: bool, fb: nat,
                    ghost ob: nat, ghost prior: seq<Byte>)
    requires Setting(out[..], o, po, raw, prior, ft, first, fb, ob)
    modifies out
    ensures RowAt(out[..], o, Recon(ft, raw, prior, fb), fb, fb, ob)
    ensures Within(old(out[..]), out[..], o, o + Place(|raw|, fb, ob))
  {
    hide Place, PixelStart, FirstByte, Chosen, Recon, Zeros;
    var f := Chosen(ft, first);
    ghost var row := Recon(ft, raw, prior, fb);
    for k := 0 to fb
      invariant Within(old(out[..]), out[..], o, o + Place(|raw|, fb, ob))
      invariant RowAt(out[..], o, row, k, fb, ob)
    {
      PlaceStart(k, fb, ob);
      PlaceMono(k, |raw|, fb, ob);
      var b: Byte := 0;
      if LooksUp(f) {
        StillSet(old(out[..]), out[..], o, po, raw, prior, ft, first, fb, ob);
        b := out[po + k];
      }
      Looks(ft, first);
      FirstIs(raw, prior, ft, first, fb, k, b);
      PutByte(out[..], o, row, k, fb, ob);
      out[o + k] := FirstByte(f, raw[k], b);
    }
  }

  lemma Looks(ft: nat, first: bool)
    requires ft <= 4
    ensures LooksUp(Chosen(ft, first)) <==> !first && LooksUp(ft)
  {
  }

  /** The rest of a row whose pixels keep their size. */
  method RestSame(out: array<Byte>, o: nat, po: int, raw: seq<Byte>, ft: nat, first: bool, fb: nat,
                  ghost prior: seq<Byte>)
    requires Setting(out[..], o, po, raw, prior, ft, first, fb, fb)
    requires RowAt(out[..], o, Recon(ft, raw, prior, fb), fb, fb, fb)
    modifies out
    ensures RowAt(out[..], o, Recon(ft, raw, prior, fb), |raw|, fb, fb)
    ensures Within(old(out[..]), out[..], o, o + Place(|raw|, fb, fb))
  {
    hide Place, PixelStart, LaterByte, Chosen, Recon, Zeros;
    var f := Chosen(ft, first);
    ghost var row := Recon(ft, raw, prior, fb);
    Looks(ft, first);
    PlaceSame(|raw|, fb);
    for k := fb to |raw|
      invariant Within(old(out[..]), out[..], o, o + |raw|)
      invariant RowAt(out[..], o, row, k, fb, fb)
    {
      PlaceSame(k, fb);
      PlaceSame(k - fb, fb);
      var b: Byte, c: Byte := 0, 0;
      if LooksUp(f) {
        StillSet(old(out[..]), out[..], o, po, raw, prior, ft, first, fb, fb);
        b, c := out[po + k], out[po + k - fb];
      }
      LaterIs(raw, prior, ft, first, fb, k, b, c);
      PutByte(out[..], o, row, k, fb, fb);
      out[o + k] := LaterByte(f, raw[k], out[o + k - fb], b, c);
    }
  }

  // ----- rows with an alpha channel to fill in

  lemma PlaceBack(k: nat, fb: nat, ob: nat)
    requires 0 < fb <= k
    ensures Place(k, fb, ob) == ob + Place(k - fb, fb, ob)
  {
  }

  /** One later pixel of a row whose pixels are spread. */
  method LaterPixel(out: array<Byte>, ghost o: nat, ghost po: int, raw: seq<Byte>, ft: nat, first: bool,
                    fb: nat, ob: nat, d: nat, c: nat, pc: int, ghost prior: seq<Byte>)
    requires Setting(out[..], o, po, raw, prior, ft, first, fb, ob)
    requires fb <= d < |raw| && PixelStart(d, fb)
    requires c == o + Place(d, fb, ob) && pc == po + Place(d, fb, ob)
    requires RowAt(out[..], o, Recon(ft, raw, prior, fb), d, fb, ob)
    modifies out
    ensures d + fb <= |raw| && RowAt(out[..], o, Recon(ft, raw, prior, fb), d + fb, fb, ob)
    ensures Within(old(out[..]), out[..], c, c + fb) && c + ob <= o + Place(|raw|, fb, ob)
  {
    hide Place, PixelStart, LaterByte, Chosen, Recon, Zeros, RowAt;
    var f := Chosen(ft, first);
    ghost var row := Recon(ft, raw, prior, fb);
    Looks(ft, first);
    StartStep(d, |raw|, fb);
    PixelsApart(d, |raw|, fb, ob);
    for k := 0 to fb
      invariant Within(old(out[..]), out[..], c, c + k)
      invariant RowAt(out[..], o, row, d + k, fb, ob)
    {
      PlaceInPixel(d, k, fb, ob);
      InPlace(out[..], o, row, d + k, fb, ob, d + k);
      var b: Byte, e: Byte := 0, 0;
      if LooksUp(f) {
        Above(old(out[..]), out[..], o, po, raw, prior, ft, fb, ob, d + k);
        b, e := out[pc + k], out[pc + k - ob];
      }
      LaterIs(raw, prior, ft, first, fb, d + k, b, e);
      PutByte(out[..], o, row, d + k, fb, ob);
      out[c + k] := LaterByte(f, raw[d + k], out[c + k - ob], b, e);
    }
  }

  /** Byte k of a row in place, and the same byte one pixel to the left. */
  lemma InPlace(s: seq<Byte>, o: int, row: seq<Byte>, n: nat, fb: nat, ob: nat, k: nat)
    requires 0 < fb <= k <= n <= |row| && RowAt(s, o, row, n, fb, ob)
    ensures 0 <= o + Place(k, fb, ob) - ob < |s| && s[o + Place(k, fb, ob) - ob] == row[k - fb]
    ensures k < n ==> 0 <= o + Place(k, fb, ob) < |s| && s[o + Place(k, fb, ob)] == row[k]
  {
    hide Place;
    PlaceBack(k, fb, ob);
  }

  lemma Above(s: seq<Byte>, s': seq<Byte>, o: int, po: int, raw: seq<Byte>, prior: seq<Byte>,
              ft: nat, fb: nat, ob: nat, k: nat)
    requires Setting(s, o, po, raw, prior, ft, false, fb, ob) && fb <= k < |raw|
    requires Within(s, s', o, o + Place(|raw|, fb, ob))
    ensures 0 <= po + Place(k, fb, ob) - ob && po + Place(k, fb, ob) < |s'|
    ensures s'[po + Place(k, fb, ob)] == prior[k] && s'[po + Place(k, fb, ob) - ob] == prior[k - fb]
  {
    hide Place, PixelStart, RowAt;
    StillSet(s, s', o, po, raw, prior, ft, false, fb, ob);
    InPlace(s', po, prior, |prior|, fb, ob, k);
  }

  /** An alpha byte is not part of the scanline, */
  lemma PutAlpha(s: seq<Byte>, o: int, row: seq<Byte>, n: nat, fb: nat, ob: nat, d: nat, x: nat)
    requires 0 < fb && fb + x < ob && n <= |row| && RowAt(s, o, row, n, fb, ob) && PixelStart(d, fb)
    requires 0 <= o + Place(d, fb, ob) + fb + x < |s|
    ensures RowAt(s[o + Place(d, fb, ob) + fb + x := 255], o, row, n, fb, ob)
  {
    hide Place, PixelStart;
    forall t: nat | t < n
      ensures Place(t, fb, ob) != Place(d, fb, ob) + fb + x
    {
      if t < d + fb {
        PlaceBefore(t, d, fb, ob);
      } else {
        PlaceBack(d + fb, fb, ob);
        if t > d + fb {
          PlaceMono(d + fb, t, fb, ob);
        }
      }
    }
  }

  /** fills its own pixel, */
  lemma MoreAlpha(s: seq<Byte>, o: int, fb: nat, ob: nat, d: nat, x: nat)
    requires 0 < fb && fb + x < ob && AlphaAt(s, o, d, fb, ob, x) && PixelStart(d, fb)
    requires 0 <= o + Place(d, fb, ob) + fb + x < |s|
    ensures AlphaAt(s[o + Place(d, fb, ob) + fb + x := 255], o, d + fb, fb, ob, x)
  {
    hide Place, PixelStart;
    forall u: nat | u < d + fb && PixelStart(u, fb)
      ensures u <= d
    {
      if d < u {
        StartStep(d, u, fb);
      }
    }
  }

  /** and spares the other alpha byte. */
  lemma OtherAlpha(s: seq<Byte>, o: int, n: nat, fb: nat, ob: nat, d: nat, x: nat, y: nat)
    requires 0 < fb && fb + x < ob && fb + y < ob && x != y && AlphaAt(s, o, n, fb, ob, y) && PixelStart(d, fb)
    requires 0 <= o + Place(d, fb, ob) + fb + x < |s|
    ensures AlphaAt(s[o + Place(d, fb, ob) + fb + x := 255], o, n, fb, ob, y)
  {
    hide Place, PixelStart;
    forall u: nat | u < n && PixelStart(u, fb)
      ensures Place(u, fb, ob) + y != Place(d, fb, ob) + x
    {
      if u < d {
        PixelsApart(u, d, fb, ob);
      } else if d < u {
        PixelsApart(d, u, fb, ob);
      }
    }
  }

  /** Writing a pixel keeps the alpha of the ones before it. */
  lemma AlphaKept(s: seq<Byte>, s': seq<Byte>, o: int, d: nat, fb: nat, ob: nat, x: nat)
    requires 0 < fb && fb + x < ob && AlphaAt(s, o, d, fb, ob, x) && PixelStart(d, fb)
    requires Within(s, s', o + Place(d, fb, ob), o + Place(d, fb, ob) + fb)
    ensures AlphaAt(s', o, d, fb, ob, x)
  {
    hide Place, PixelStart;
    forall u: nat | u < d && PixelStart(u, fb)
      ensures s'[o + Place(u, fb, ob) + fb + x] == 255
    {
      PixelsApart(u, d, fb, ob);
    }
  }

  lemma StartNext(d: nat, fb: nat)
    requires 0 < fb && PixelStart(d, fb)
    ensures PixelStart(d + fb, fb) && PixelStart(0, fb)
  {
  }

  /** The rest of a row with room for alpha: each pixel and the first byte of its alpha. */
  method RestAlpha(out: array<Byte>, o: nat, po: int, raw: seq<Byte>, ft: nat, first: bool, fb: nat, ob: nat,
                   ghost prior: seq<Byte>)
    requires Setting(out[..], o, po, raw, prior, ft, first, fb, ob) && fb < ob
    requires RowAt(out[..], o, Recon(ft, raw, prior, fb), fb, fb, ob) && AlphaAt(out[..], o, fb, fb, ob, 0)
    modifies out
    ensures RowAt(out[..], o, Recon(ft, raw, prior, fb), |raw|, fb, ob)
    ensures AlphaAt(out[..], o, |raw|, fb, ob, 0)
    ensures Within(old(out[..]), out[..], o, o + Place(|raw|, fb, ob))
  {
    hide Place, PixelStart, Recon, Zeros, RowAt, AlphaAt;
    ghost var row := Recon(ft, raw, prior, fb);
    ghost var end := Place(|raw|, fb, ob);
    StartNext(0, fb) by { StartZero(fb); }
    PlaceBack(fb, fb, ob);
    PlaceStart(0, fb, ob);
    var d, c, pc := fb, o + ob, po + ob;
    while d < |raw|
      invariant fb <= d <= |raw| && PixelStart(d, fb)
      invariant c == o + Place(d, fb, ob) && pc == po + Place(d, fb, ob)
      invariant Within(old(out[..]), out[..], o, o + end)
      invariant RowAt(out[..], o, row, d, fb, ob) && AlphaAt(out[..], o, d, fb, ob, 0)
    {
      StillSet(old(out[..]), out[..], o, po, raw, prior, ft, first, fb, ob);
      ghost var before := out[..];
      LaterPixel(out, o, po, raw, ft, first, fb, ob, d, c, pc, prior);
      AlphaKept(before, out[..], o, d, fb, ob, 0);
      PutAlpha(out[..], o, row, d + fb, fb, ob, d, 0);
      MoreAlpha(out[..], o, fb, ob, d, 0);
      out[c + fb] := 255;
      StartNext(d, fb);
      PlaceBack(d + fb, fb, ob);
      d, c, pc := d + fb, c + ob, pc + ob;
    }
  }

  lemma StartZero(fb: nat)
    requires fb > 0
    ensures PixelStart(0, fb)
  {
  }

  /** For 16-bit images a second pass over the row fills the other byte of every alpha. */
  method LowAlpha(out: array<Byte>, o: nat, fb: nat, ob: nat, n: nat, ghost row: seq<Byte>)
    requires 0 < fb && fb + 1 < ob && n == |row| && PixelStart(n, fb) && o + Place(n, fb, ob) <= out.Length
    requires RowAt(out[..], o, row, n, fb, ob) && AlphaAt(out[..], o, n, fb, ob, 0)
    modifies out
    ensures RowAt(out[..], o, row, n, fb, ob)
    ensures AlphaAt(out[..], o, n, fb, ob, 0) && AlphaAt(out[..], o, n, fb, ob, 1)
    ensures Within(old(out[..]), out[..], o, o + Place(n, fb, ob))
  {
    hide Place, PixelStart, RowAt;
    StartZero(fb);
    PlaceStart(0, fb, ob);
    var d, c := 0, o;
    while d < n
      invariant d <= n && PixelStart(d, fb) && c == o + Place(d, fb, ob)
      invariant Within(old(out[..]), out[..], o, o + Place(n, fb, ob))
      invariant RowAt(out[..], o, row, n, fb, ob)
      invariant AlphaAt(out[..], o, n, fb, ob, 0) && AlphaAt(out[..], o, d, fb, ob, 1)
    {
      StartStep(d, n, fb);
      PixelsApart(d, n, fb, ob);
      PutAlpha(out[..], o, row, n, fb, ob, d, 1);
      OtherAlpha(out[..], o, n, fb, ob, d, 1, 0);
      MoreAlpha(out[..], o, fb, ob, d, 1);
      out[c + fb + 1] := 255;
      StartNext(d, fb);
      PlaceBack(d + fb, fb, ob);
      d, c := d + fb, c + ob;
    }
  }

  // ----- a row

  /** A finished row: every byte in place and, where there is room for alpha, full alpha. */
  ghost predicate RowDone(s: seq<Byte>, o: int, row: seq<Byte>, fb: nat, ob: nat)
    requires 0 < fb <= ob
  {
    && RowAt(s, o, row, |row|, fb, ob)
    && forall x: nat :: x < ob - fb ==> AlphaAt(s, o, |row|, fb, ob, x)
  }

  /** The alpha of the first pixel. */
  method FirstAlpha(out: array<Byte>, o: nat, fb: nat, ob: nat, ghost row: seq<Byte>)
    requires 0 < fb < ob <= fb + 2 && fb <= |row| && o + ob <= out.Length && RowAt(out[..], o, row, fb, fb, ob)
    modifies out
    ensures RowAt(out[..], o, row, fb, fb, ob) && AlphaAt(out[..], o, fb, fb, ob, 0)
    ensures Within(old(out[..]), out[..], o, o + ob)
  {
    hide Place, PixelStart, RowAt;
    StartZero(fb);
    PlaceStart(0, fb, ob);
    PutAlpha(out[..], o, row, fb, fb, ob, 0, 0);
    MoreAlpha(out[..], o, fb, ob, 0, 0);
    out[o + fb] := 255;
    if ob == fb + 2 {
      PutAlpha(out[..], o, row, fb, fb, ob, 0, 1);
      OtherAlpha(out[..], o, fb, fb, ob, 0, 1, 0);
      out[o + fb + 1] := 255;
    }
  }

  /** Unfilters one row into the image at o. */
  method UnfilterRow(out: array<Byte>, o: nat, po: int, raw: seq<Byte>, ft: nat, first: bool, fb: nat, ob: nat,
                     ghost prior: seq<Byte>)
    requires Setting(out[..], o, po, raw, prior, ft, first, fb, ob) && ob <= fb + 2
    modifies out
    ensures RowDone(out[..], o, Recon(ft, raw, prior, fb), fb, ob)
    ensures Within(old(out[..]), out[..], o, o + Place(|raw|, fb, ob))
  {
    hide Place, PixelStart, Recon, Zeros, RowAt, AlphaAt;
    ghost var row := Recon(ft, raw, prior, fb);
    FirstPixel(out, o, po, raw, ft, first, fb, ob, prior);
    if fb == ob {
      StillSet(old(out[..]), out[..], o, po, raw, prior, ft, first, fb, ob);
      RestSame(out, o, po, raw, ft, first, fb, prior);
    } else {
      PlaceStart(0, fb, ob);
      StartZero(fb);
      PixelsApart(0, |raw|, fb, ob);
      FirstAlpha(out, o, fb, ob, row);
      StillSet(old(out[..]), out[..], o, po, raw, prior, ft, first, fb, ob);
      RestAlpha(out, o, po, raw, ft, first, fb, ob, prior);
      if ob == fb + 2 {
        LowAlpha(out, o, fb, ob, |raw|, row);
      }
    }
  }

  /** A finished row survives changes elsewhere. */
  lemma RowKept(s: seq<Byte>, s': seq<Byte>, o: int, row: seq<Byte>, fb: nat, ob: nat, a: int, b: int)
    requires 0 < fb <= ob && PixelStart(|row|, fb) && RowDone(s, o, row, fb, ob) && Within(s, s', a, b)
    requires o + Place(|row|, fb, ob) <= a
    ensures RowDone(s', o, row, fb, ob)
  {
    hide Place, PixelStart;
    forall t: nat | t < |row|
      ensures Place(t, fb, ob) < Place(|row|, fb, ob)
    {
      PlaceMono(t, |row|, fb, ob);
    }
    assert RowAt(s', o, row, |row|, fb, ob);
    forall x: nat | x < ob - fb
      ensures AlphaAt(s', o, |row|, fb, ob, x)
    {
      assert AlphaAt(s, o, |row|, fb, ob, x);
      forall d: nat | d < |row| && PixelStart(d, fb)
        ensures Place(d, fb, ob) + ob <= Place(|row|, fb, ob)
      {
        PixelsApart(d, |row|, fb, ob);
      }
    }
  }
}
