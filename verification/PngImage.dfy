/** The scanlines of one image, or of one interlace pass, unfiltered into the output buffer. */
module PngImage {
  import opened Bits
  import opened PngFilter
  import opened PngRow

  lemma {:induction false} RowsApart(i: nat, j: nat, stride: nat)
    requires i < j
    ensures Times(i, stride) + stride <= Times(j, stride)
  {
    if i < j - 1 {
      RowsApart(i, j - 1, stride);
    }
  }

  /** The rows done so far lie in the buffer, stride bytes apart from off on. */
  ghost predicate RowsDone(s: seq<Byte>, off: nat, stride: nat, rows: seq<seq<Byte>>, fb: nat, ob: nat)
    requires 0 < fb <= ob
  {
    forall i: nat :: i < |rows| ==> RowDone(s, off + Times(i, stride), rows[i], fb, ob)
  }

  function After(done: seq<seq<Byte>>, r: Rows): Rows {
    if r.Rows? then Rows(done + r.rows) else BadFilter
  }

  /** The unfiltered rows that are still to come, after those done. */
  lemma UnfilterStep(raw: seq<Byte>, h: nat, prior: seq<Byte>, bpp: nat, done: seq<seq<Byte>>)
    requires h > 0 && Enough(raw, h, |prior|)
    ensures raw[0] > 4 ==> After(done, Unfilter(raw, h, prior, bpp)) == BadFilter
    ensures raw[0] <= 4 ==>
      var row := Recon(raw[0], raw[1..1 + |prior|], prior, bpp);
      After(done, Unfilter(raw, h, prior, bpp)) == After(done + [row], Unfilter(raw[1 + |prior|..], h - 1, row, bpp))
  {
    hide Recon;
    if raw[0] <= 4 {
      var row := Recon(raw[0], raw[1..1 + |prior|], prior, bpp);
      var rest := Unfilter(raw[1 + |prior|..], h - 1, row, bpp);
      if rest.Rows? {
        assert done + ([row] + rest.rows) == done + [row] + rest.rows;
      }
    }
  }

  /** Adding a row keeps the rows above it. */
  lemma RowAdded(s: seq<Byte>, s': seq<Byte>, off: nat, stride: nat, rows: seq<seq<Byte>>, row: seq<Byte>, fb: nat, ob: nat)
    requires 0 < fb <= ob && PixelStart(|row|, fb) && Place(|row|, fb, ob) <= stride
    requires forall i: nat :: i < |rows| ==> |rows[i]| == |row|
    requires RowsDone(s, off, stride, rows, fb, ob)
    requires var o := off + Times(|rows|, stride);
             Within(s, s', o, o + Place(|row|, fb, ob)) && RowDone(s', o, row, fb, ob)
    ensures RowsDone(s', off, stride, rows + [row], fb, ob)
  {
    hide Place, PixelStart, Times, RowDone, Within;
    var o := off + Times(|rows|, stride);
    forall i: nat | i < |rows|
      ensures RowDone(s', off + Times(i, stride), rows[i], fb, ob)
    {
      RowsApart(i, |rows|, stride);
      RowKept(s, s', off + Times(i, stride), rows[i], fb, ob, o, o + Place(|row|, fb, ob));
    }
  }

  /** Unfilters all rows; fails exactly when a stored filter type is not one of the five. */
  method UnfilterImage(out: array<Byte>, raw: seq<Byte>, y: nat, width: nat, fb: nat, ob: nat, off: nat, stride: nat)
    returns (ok: bool, ghost rows: seq<seq<Byte>>)
    requires 0 < fb <= ob <= fb + 2 && fb <= width && PixelStart(width, fb) && Enough(raw, y, width)
    requires off + Place(width, fb, ob) <= stride && Times(y, stride) <= out.Length
    modifies out
    ensures ok ==> Unfilter(raw, y, Zeros(width), fb) == Rows(rows) && RowsDone(out[..], off, stride, rows, fb, ob)
    ensures !ok ==> Unfilter(raw, y, Zeros(width), fb) == BadFilter
  {
    hide Place, PixelStart, Recon, Unfilter, Zeros, RowDone, Enough, Times, RowsDone, After, Within, Setting;
    TimesStep(0, stride);
    rows := [];
    NothingDone(out[..], off, stride, fb, ob, Unfilter(raw, y, Zeros(width), fb));
    ghost var prior := Zeros(width);
    var rest, o, j := raw, off, 0;
    while j < y
      invariant j == |rows| <= y && Enough(rest, y - j, width) && |prior| == width
      invariant forall i: nat :: i < |rows| ==> |rows[i]| == width
      invariant prior == if j == 0 then Zeros(width) else rows[j - 1]
      invariant o == off + Times(j, stride)
      invariant Unfilter(raw, y, Zeros(width), fb) == After(rows, Unfilter(rest, y - j, prior, fb))
      invariant RowsDone(out[..], off, stride, rows, fb, ob)
    {
      EnoughForOne(rest, y - j, width);
      UnfilterStep(rest, y - j, prior, fb, rows);
      var ft := rest[0];
      if ft > 4 {
        return false, rows;
      }
      RowsApart(j, y, stride);
      TimesStep(j, stride);
      var line := rest[1..1 + width];
      ghost var row := Recon(ft, line, prior, fb);
      ghost var before := out[..];
      RowReady(out[..], off, stride, rows, line, prior, ft, fb, ob);
      UnfilterRow(out, o, o - stride, line, ft, j == 0, fb, ob, prior);
      RowAdded(before, out[..], off, stride, rows, row, fb, ob);
      rows := rows + [row];
      prior := row;
      rest, o, j := rest[1 + width..], o + stride, j + 1;
    }
    NoMoreRows(rest, rows, prior, fb);
    ok := true;
  }

  lemma NothingDone(s: seq<Byte>, off: nat, stride: nat, fb: nat, ob: nat, r: Rows)
    requires 0 < fb <= ob
    ensures RowsDone(s, off, stride, [], fb, ob) && After([], r) == r
  {
    if r.Rows? {
      assert [] + r.rows == r.rows;
    }
  }

  lemma NoMoreRows(raw: seq<Byte>, done: seq<seq<Byte>>, prior: seq<Byte>, fb: nat)
    ensures Enough(raw, 0, |prior|) && After(done, Unfilter(raw, 0, prior, fb)) == Rows(done)
  {
  }

  /** The row above the next one is the last one done. */
  lemma RowReady(s: seq<Byte>, off: nat, stride: nat, rows: seq<seq<Byte>>, line: seq<Byte>, prior: seq<Byte>,
                 ft: nat, fb: nat, ob: nat)
    requires 0 < fb <= ob && fb <= |line| == |prior| && PixelStart(|line|, fb) && ft <= 4
    requires off + Place(|line|, fb, ob) <= stride && off + Times(|rows|, stride) + Place(|line|, fb, ob) <= |s|
    requires prior == if |rows| == 0 then Zeros(|prior|) else rows[|rows| - 1]
    requires RowsDone(s, off, stride, rows, fb, ob)
    ensures var o := off + Times(|rows|, stride);
            Setting(s, o, o - stride, line, prior, ft, |rows| == 0, fb, ob)
  {
    hide Place, PixelStart, AlphaAt;
    if |rows| > 0 {
      assert RowDone(s, off + Times(|rows| - 1, stride), prior, fb, ob);
    }
  }

  lemma EnoughForOne(raw: seq<Byte>, h: nat, width: nat)
    requires h > 0 && Enough(raw, h, width)
    ensures |raw| >= 1 + width && Enough(raw[1 + width..], h - 1, width)
  {
  }
}
