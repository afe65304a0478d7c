/** Where the pixels of a GIF frame go: the order of Appendix E of GIF89a, in one pass or
    interlaced in four, and what painting a sequence of colour indices does to a canvas. */
module GifRaster {
  import opened Bits

  // ----- row order

  function PassRows(start: nat, step: nat, h: nat): (rows: seq<nat>)
    requires step > 0
    ensures forall i :: 0 <= i < |rows| ==> rows[i] < h
    decreases h - start
  {
    if start >= h then [] else [start] + PassRows(start + step, step, h)
  }

  /** The passes still to come when `parse` of the last three are left. */
  function LaterPasses(parse: nat, h: nat): (rows: seq<nat>)
    requires parse <= 3
    ensures forall i :: 0 <= i < |rows| ==> rows[i] < h
  {
    if parse == 3 then PassRows(4, 8, h) + LaterPasses(2, h)
    else if parse == 2 then PassRows(2, 4, h) + LaterPasses(1, h)
    else if parse == 1 then PassRows(1, 2, h)
    else []
  }

  function RowOrder(interlaced: bool, h: nat): (rows: seq<nat>)
    ensures forall i :: 0 <= i < |rows| ==> rows[i] < h
  {
    if interlaced then PassRows(0, 8, h) + LaterPasses(3, h) else PassRows(0, 1, h)
  }

  lemma ModStep(a: nat, step: nat)
    requires step == 1 || step == 2 || step == 4 || step == 8
    ensures a < step ==> a % step == a
    ensures a >= step ==> a % step == (a - step) % step
  {
    if step == 1 {
    } else if step == 2 {
    } else if step == 4 {
    } else {
    }
  }

  lemma {:induction false} PassRowsMember(start: nat, step: nat, h: nat, r: nat)
    requires step == 1 || step == 2 || step == 4 || step == 8
    ensures r in PassRows(start, step, h) <==> start <= r < h && (r - start) % step == 0
    decreases h - start
  {
    if start < h {
      PassRowsMember(start + step, step, h, r);
      if r >= start {
        ModStep(r - start, step);
        assert r >= start + step ==> r - start - step == r - (start + step);
      }
    }
  }

  ghost predicate Distinct(s: seq<nat>) {
    forall i, j :: 0 <= i < j < |s| ==> s[i] != s[j]
  }

  lemma {:induction false} PassRowsDistinct(start: nat, step: nat, h: nat)
    requires step > 0
    ensures Distinct(PassRows(start, step, h))
    ensures forall i :: 0 <= i < |PassRows(start, step, h)| ==> PassRows(start, step, h)[i] >= start
    decreases h - start
  {
    if start < h {
      PassRowsDistinct(start + step, step, h);
    }
  }

  lemma DistinctConcat(a: seq<nat>, b: seq<nat>)
    requires Distinct(a) && Distinct(b) && forall x :: x in a ==> x !in b
    ensures Distinct(a + b)
  {
    forall i, j | 0 <= i < j < |a + b|
      ensures (a + b)[i] != (a + b)[j]
    {
      if i < |a| <= j {
        assert a[i] in a && b[j - |a|] in b;
      }
    }
  }

  /** The rows of the four passes, by their residues modulo 8. */
  ghost predicate Residue(pass: nat, r: nat) {
    if pass == 0 then r % 8 == 0
    else if pass == 1 then r % 8 == 4
    else if pass == 2 then r % 8 == 2 || r % 8 == 6
    else r % 8 == 1 || r % 8 == 3 || r % 8 == 5 || r % 8 == 7
  }

  lemma ResiduesPartition(r: nat)
    ensures Residue(0, r) || Residue(1, r) || Residue(2, r) || Residue(3, r)
    ensures forall p, q :: 0 <= p < q < 4 ==> !(Residue(p, r) && Residue(q, r))
  {
  }

  lemma EveryFourth(r: nat)
    ensures Residue(2, r) <==> r >= 2 && (r - 2) % 4 == 0
    ensures Residue(1, r) <==> r >= 4 && (r - 4) % 8 == 0
  {
  }

  lemma EverySecond(r: nat)
    ensures Residue(3, r) <==> r >= 1 && (r - 1) % 2 == 0
  {
  }

  lemma InterlaceMember(h: nat, r: nat)
    ensures r in PassRows(0, 8, h) <==> r < h && Residue(0, r)
    ensures r in PassRows(4, 8, h) <==> r < h && Residue(1, r)
    ensures r in PassRows(2, 4, h) <==> r < h && Residue(2, r)
    ensures r in PassRows(1, 2, h) <==> r < h && Residue(3, r)
  {
    assert Residue(0, r) <==> r % 8 == 0;
    hide PassRows, Residue;
    EveryFourth(r);
    EverySecond(r);
    PassRowsMember(0, 8, h, r);
    PassRowsMember(4, 8, h, r);
    PassRowsMember(2, 4, h, r);
    PassRowsMember(1, 2, h, r);
  }

  lemma InterlacedOrder(h: nat)
    ensures RowOrder(true, h) == PassRows(0, 8, h) + (PassRows(4, 8, h) + (PassRows(2, 4, h) + PassRows(1, 2, h)))
  {
    hide PassRows;
    assert LaterPasses(1, h) == PassRows(1, 2, h);
    assert LaterPasses(2, h) == PassRows(2, 4, h) + LaterPasses(1, h);
    assert LaterPasses(3, h) == PassRows(4, 8, h) + LaterPasses(2, h);
  }

  lemma InterlacedOnce(h: nat)
    ensures Distinct(RowOrder(true, h))
    ensures forall r: nat :: r in RowOrder(true, h) <==> r < h
  {
    hide PassRows, Residue, Distinct, RowOrder;
    var a, b, c, d := PassRows(0, 8, h), PassRows(4, 8, h), PassRows(2, 4, h), PassRows(1, 2, h);
    PassRowsDistinct(0, 8, h);
    PassRowsDistinct(4, 8, h);
    PassRowsDistinct(2, 4, h);
    PassRowsDistinct(1, 2, h);
    forall r: nat
      ensures (r in a <==> r < h && Residue(0, r)) && (r in b <==> r < h && Residue(1, r))
      ensures (r in c <==> r < h && Residue(2, r)) && (r in d <==> r < h && Residue(3, r))
      ensures Residue(0, r) || Residue(1, r) || Residue(2, r) || Residue(3, r)
      ensures forall p, q :: 0 <= p < q < 4 ==> !(Residue(p, r) && Residue(q, r))
    {
      InterlaceMember(h, r);
      ResiduesPartition(r);
    }
    DistinctConcat(c, d);
    DistinctConcat(b, c + d);
    DistinctConcat(a, b + (c + d));
    InterlacedOrder(h);
  }

  /** Every row of the frame is visited, and none twice. */
  lemma RowOrderVisitsOnce(interlaced: bool, h: nat)
    ensures Distinct(RowOrder(interlaced, h))
    ensures forall r: nat :: r in RowOrder(interlaced, h) <==> r < h
    ensures |RowOrder(interlaced, h)| == h
  {
    if interlaced {
      InterlacedOnce(h);
    } else {
      PassRowsDistinct(0, 1, h);
      forall r: nat
        ensures r in PassRows(0, 1, h) <==> r < h
      {
        PassRowsMember(0, 1, h, r);
      }
    }
    CountDistinct(RowOrder(interlaced, h), h);
  }

  lemma FirstIn(s: seq<nat>)
    ensures s != [] ==> s[0] in s
  {
  }

  lemma {:induction false} CountDistinct(s: seq<nat>, h: nat)
    requires Distinct(s) && forall r: nat :: r in s <==> r < h
    ensures |s| == h
  {
    if h == 0 {
      FirstIn(s);
    } else {
      var last: nat := h - 1;
      assert last in s;
      var k :| 0 <= k < |s| && s[k] == last;
      var rest := s[..k] + s[k + 1..];
      forall r: nat
        ensures r in rest <==> r < h - 1
      {
        assert r in s <==> r in s[..k] || r == s[k] || r in s[k + 1..];
      }
      CountDistinct(rest, h - 1);
    }
  }

  // ----- in which order

  /** The pass of a row (Appendix E of GIF89a): every 8th row from 0, every 8th from 4, every 4th
      from 2, every 2nd from 1. */
  function PassNumber(r: nat): nat {
    if r % 8 == 0 then 1 else if r % 8 == 4 then 2 else if r % 4 == 2 then 3 else 4
  }

  predicate Earlier(interlaced: bool, r: nat, q: nat) {
    if interlaced then PassNumber(r) < PassNumber(q) || (PassNumber(r) == PassNumber(q) && r < q) else r < q
  }

  ghost predicate InOrder(interlaced: bool, s: seq<nat>) {
    forall i, j :: 0 <= i < j < |s| ==> Earlier(interlaced, s[i], s[j])
  }

  ghost predicate Rising(s: seq<nat>) {
    forall i, j :: 0 <= i < j < |s| ==> s[i] < s[j]
  }

  lemma {:induction false} PassRowsRise(start: nat, step: nat, h: nat)
    requires step > 0
    ensures forall i :: 0 <= i < |PassRows(start, step, h)| ==> PassRows(start, step, h)[i] >= start
    ensures Rising(PassRows(start, step, h))
    decreases h - start
  {
    if start < h {
      PassRowsRise(start + step, step, h);
    }
  }

  lemma InOrderConcat(interlaced: bool, a: seq<nat>, b: seq<nat>)
    requires InOrder(interlaced, a) && InOrder(interlaced, b) && forall x, y :: x in a && y in b ==> Earlier(interlaced, x, y)
    ensures InOrder(interlaced, a + b)
  {
    hide Earlier;
    forall i, j | 0 <= i < j < |a + b|
      ensures Earlier(interlaced, (a + b)[i], (a + b)[j])
    {
      if i < |a| <= j {
        assert a[i] in a && b[j - |a|] in b;
      }
    }
  }

  lemma PassOfResidue(r: nat, pass: nat)
    requires pass < 4 && Residue(pass, r)
    ensures PassNumber(r) == pass + 1
  {
  }

  lemma OnePass(rows: seq<nat>, pass: nat)
    requires pass < 4 && (forall r: nat :: r in rows ==> Residue(pass, r)) && Rising(rows)
    ensures InOrder(true, rows) && forall r :: r in rows ==> PassNumber(r) == pass + 1
  {
    hide Residue, PassNumber;
    forall r | r in rows
      ensures PassNumber(r) == pass + 1
    {
      PassOfResidue(r, pass);
    }
    assert forall i :: 0 <= i < |rows| ==> rows[i] in rows;
  }

  /** Rows come in rising order, or pass by pass and in rising order within each. */
  lemma RowOrderInOrder(interlaced: bool, h: nat)
    ensures InOrder(interlaced, RowOrder(interlaced, h))
  {
    if !interlaced {
      PassRowsRise(0, 1, h);
    } else {
      hide PassRows, Residue, PassNumber, RowOrder, Rising, InOrder;
      var a, b, c, d := PassRows(0, 8, h), PassRows(4, 8, h), PassRows(2, 4, h), PassRows(1, 2, h);
      PassRowsRise(0, 8, h);
      PassRowsRise(4, 8, h);
      PassRowsRise(2, 4, h);
      PassRowsRise(1, 2, h);
      forall r: nat
        ensures (r in a ==> Residue(0, r)) && (r in b ==> Residue(1, r)) && (r in c ==> Residue(2, r)) && (r in d ==> Residue(3, r))
      {
        InterlaceMember(h, r);
      }
      OnePass(a, 0);
      OnePass(b, 1);
      OnePass(c, 2);
      OnePass(d, 3);
      InOrderConcat(true, c, d);
      InOrderConcat(true, b, c + d);
      InOrderConcat(true, a, b + (c + d));
      InterlacedOrder(h);
    }
  }

  lemma {:induction false} PassRowsAt(start: nat, h: nat, j: nat)
    requires start + j < h
    ensures j < |PassRows(start, 1, h)| && PassRows(start, 1, h)[j] == start + j
    decreases j
  {
    if j > 0 {
      PassRowsAt(start + 1, h, j - 1);
    }
  }

  // ----- pixel order

  /** Byte offsets of the n pixels from column byte x on, in the row at byte y. */
  function RowOffsets(x: nat, n: nat, y: nat): (s: seq<nat>)
    ensures |s| == n && forall i :: 0 <= i < n ==> s[i] == y + x + 4 * i
    decreases n
  {
    if n == 0 then [] else [y + x] + RowOffsets(x + 4, n - 1, y)
  }

  /** Byte offsets of whole rows, in the given order. */
  function RowsOffsets(rows: seq<nat>, x: nat, w: nat, y0: nat, line: nat): seq<nat> {
    if rows == [] then [] else RowOffsets(x, w, y0 + Times(rows[0], line)) + RowsOffsets(rows[1..], x, w, y0, line)
  }

  // ----- painting

  datatype Canvas = Canvas(out: seq<Byte>, history: seq<Byte>)

  /** One pixel: marked as touched, and drawn (blue-green-red table, red-green-blue canvas)
      unless its table entry is transparent. */
  function PutPixel(c: Canvas, idx: nat, color: seq<Byte>): (c': Canvas)
    requires |color| == 4 && idx % 4 == 0 && idx + 4 <= |c.out| == 4 * |c.history|
    ensures |c'.out| == |c.out| && |c'.history| == |c.history|
  {
    Canvas(if color[3] > 128
           then c.out[idx := color[2]][idx + 1 := color[1]][idx + 2 := color[0]][idx + 3 := color[3]]
           else c.out,
           c.history[idx / 4 := 1])
  }

  predicate Fits(c: Canvas, at: seq<nat>) {
    |c.out| == 4 * |c.history| && forall i :: 0 <= i < |at| ==> at[i] % 4 == 0 && at[i] + 4 <= |c.out|
  }

  function ColorOf(table: seq<Byte>, index: Byte): (color: seq<Byte>)
    requires |table| == 1024
    ensures |color| == 4
  {
    table[4 * index..4 * index + 4]
  }

  /** Paints indices at successive offsets; indices beyond the last offset are dropped. */
  function Paint(c: Canvas, at: seq<nat>, px: seq<Byte>, table: seq<Byte>): (c': Canvas)
    requires |table| == 1024 && Fits(c, at)
    ensures |c'.out| == |c.out| && |c'.history| == |c.history|
    decreases |px|
  {
    if px == [] || at == [] then c
    else Paint(PutPixel(c, at[0], ColorOf(table, px[0])), at[1..], px[1..], table)
  }

  function Drop(at: seq<nat>, n: nat): seq<nat> {
    if n <= |at| then at[n..] else []
  }

  /** Painting in two goes is painting in one. */
  lemma {:induction false} PaintConcat(c: Canvas, at: seq<nat>, p: seq<Byte>, q: seq<Byte>, table: seq<Byte>)
    requires |table| == 1024 && Fits(c, at)
    ensures Fits(Paint(c, at, p, table), Drop(at, |p|))
    ensures Paint(c, at, p + q, table) == Paint(Paint(c, at, p, table), Drop(at, |p|), q, table)
    decreases |p|
  {
    hide PutPixel, ColorOf;
    if p == [] {
      assert p + q == q && Drop(at, 0) == at;
    } else if at == [] {
    } else {
      var c1 := PutPixel(c, at[0], ColorOf(table, p[0]));
      PaintConcat(c1, at[1..], p[1..], q, table);
      assert (p + q)[1..] == p[1..] + q;
      assert Drop(at[1..], |p| - 1) == Drop(at, |p|);
    }
  }

  // ----- every pixel of the rectangle exactly once

  predicate InRow(off: nat, x: nat, w: nat, y0: nat, line: nat, r: nat) {
    off in RowOffsets(x, w, y0 + Times(r, line))
  }

  lemma {:induction false} RowOfOffset(rows: seq<nat>, x: nat, w: nat, y0: nat, line: nat, off: nat) returns (r: nat)
    requires off in RowsOffsets(rows, x, w, y0, line)
    ensures r in rows && InRow(off, x, w, y0, line, r)
  {
    if InRow(off, x, w, y0, line, rows[0]) {
      r := rows[0];
    } else {
      r := RowOfOffset(rows[1..], x, w, y0, line, off);
    }
  }

  lemma {:induction false} OffsetOfRow(rows: seq<nat>, x: nat, w: nat, y0: nat, line: nat, off: nat, r: nat)
    requires r in rows && InRow(off, x, w, y0, line, r)
    ensures off in RowsOffsets(rows, x, w, y0, line)
  {
    if r != rows[0] {
      OffsetOfRow(rows[1..], x, w, y0, line, off, r);
    }
  }

  lemma RowsDisjoint(x: nat, w: nat, y0: nat, line: nat, r: nat, s: nat, off: nat)
    requires x + 4 * w <= line && r != s
    ensures !(InRow(off, x, w, y0, line, r) && InRow(off, x, w, y0, line, s))
  {
    if r < s {
      TimesMono(r + 1, s, line);
    } else {
      TimesMono(s + 1, r, line);
    }
  }

  lemma RowOffsetsDistinct(x: nat, w: nat, y: nat)
    ensures Distinct(RowOffsets(x, w, y))
  {
  }

  /** Distinct rows of a rectangle no wider than a line have distinct pixels. */
  lemma {:induction false} RowsOffsetsDistinct(rows: seq<nat>, x: nat, w: nat, y0: nat, line: nat)
    requires x + 4 * w <= line && Distinct(rows)
    ensures Distinct(RowsOffsets(rows, x, w, y0, line))
  {
    if rows != [] {
      var head, tail := RowOffsets(x, w, y0 + Times(rows[0], line)), RowsOffsets(rows[1..], x, w, y0, line);
      RowOffsetsDistinct(x, w, y0 + Times(rows[0], line));
      RowsOffsetsDistinct(rows[1..], x, w, y0, line);
      forall off | off in head
        ensures off !in tail
      {
        hide RowOffsets, RowsOffsets, Times;
        if off in tail {
          var r := RowOfOffset(rows[1..], x, w, y0, line, off);
          RowsDisjoint(x, w, y0, line, rows[0], r, off);
        }
      }
      hide RowOffsets;
      DistinctConcat(head, tail);
    }
  }

  /** Where the frame's pixels go, in the order they come. */
  function FrameOffsets(interlaced: bool, x: nat, w: nat, y0: nat, h: nat, line: nat): seq<nat> {
    RowsOffsets(RowOrder(interlaced, h), x, w, y0, line)
  }

  /** Byte offset of column i of row r of the rectangle. */
  function PixelOffset(x: nat, y0: nat, line: nat, r: nat, i: nat): nat {
    y0 + Times(r, line) + x + 4 * i
  }

  /** The frame's offsets are those of its rectangle, each of them once. */
  lemma FrameVisitsOnce(interlaced: bool, x: nat, w: nat, y0: nat, h: nat, line: nat)
    requires x + 4 * w <= line
    ensures Distinct(FrameOffsets(interlaced, x, w, y0, h, line))
    ensures forall r: nat, i: nat :: r < h && i < w ==>
      PixelOffset(x, y0, line, r, i) in FrameOffsets(interlaced, x, w, y0, h, line)
    ensures |FrameOffsets(interlaced, x, w, y0, h, line)| == Times(h, w)
  {
    hide RowsOffsets, RowOrder, Distinct;
    RowOrderVisitsOnce(interlaced, h);
    var rows := RowOrder(interlaced, h);
    RowsOffsetsDistinct(rows, x, w, y0, line);
    RowsOffsetsLength(rows, x, w, y0, line);
    forall r: nat, i: nat | r < h && i < w
      ensures PixelOffset(x, y0, line, r, i) in RowsOffsets(rows, x, w, y0, line)
    {
      var off := PixelOffset(x, y0, line, r, i);
      assert RowOffsets(x, w, y0 + Times(r, line))[i] == off;
      assert r in rows;
      OffsetOfRow(rows, x, w, y0, line, off, r);
    }
  }

  lemma {:induction false} RowsOffsetsLength(rows: seq<nat>, x: nat, w: nat, y0: nat, line: nat)
    ensures |RowsOffsets(rows, x, w, y0, line)| == Times(|rows|, w)
  {
    if rows != [] {
      RowsOffsetsLength(rows[1..], x, w, y0, line);
    }
  }

  /** Pixel k of the frame, painted: opaque colours are drawn at its offset. */
  predicate Shows(c: Canvas, off: nat, color: seq<Byte>, before: Canvas)
    requires |color| == 4 && off + 4 <= |c.out| == |before.out|
  {
    c.out[off..off + 4] == if color[3] > 128 then [color[2], color[1], color[0], color[3]] else before.out[off..off + 4]
  }

  lemma PutPixelElsewhere(c: Canvas, idx: nat, color: seq<Byte>, off: nat)
    requires |color| == 4 && idx % 4 == 0 && idx + 4 <= |c.out| == 4 * |c.history|
    requires off % 4 == 0 && off + 4 <= |c.out| && off != idx
    ensures PutPixel(c, idx, color).out[off..off + 4] == c.out[off..off + 4]
  {
    FourApart(idx, off);
    var s, t := c.out, PutPixel(c, idx, color).out;
    forall k | off <= k < off + 4
      ensures t[k] == s[k]
    {
    }
  }

  lemma FourApart(a: nat, b: nat)
    requires a % 4 == 0 && b % 4 == 0 && a != b
    ensures a + 4 <= b || b + 4 <= a
  {
  }

  lemma PutPixelShows(c: Canvas, idx: nat, color: seq<Byte>)
    requires |color| == 4 && idx % 4 == 0 && idx + 4 <= |c.out| == 4 * |c.history|
    ensures Shows(PutPixel(c, idx, color), idx, color, c)
  {
  }

  lemma {:induction false} PaintElsewhere(c: Canvas, at: seq<nat>, px: seq<Byte>, table: seq<Byte>, off: nat)
    requires |table| == 1024 && Fits(c, at) && off % 4 == 0 && off + 4 <= |c.out| && off !in at
    ensures Paint(c, at, px, table).out[off..off + 4] == c.out[off..off + 4]
    decreases |px|
  {
    if px != [] && at != [] {
      assert at[0] in at;
      PutPixelElsewhere(c, at[0], ColorOf(table, px[0]), off);
      PaintElsewhere(PutPixel(c, at[0], ColorOf(table, px[0])), at[1..], px[1..], table, off);
    }
  }

  /** Over distinct offsets every painted pixel keeps its own colour to the end. */
  lemma {:induction false} PaintShowsColor(c: Canvas, at: seq<nat>, px: seq<Byte>, table: seq<Byte>, k: nat)
    requires |table| == 1024 && Fits(c, at) && Distinct(at) && k < |px| && k < |at|
    ensures Shows(Paint(c, at, px, table), at[k], ColorOf(table, px[k]), c)
    ensures Paint(c, at, px, table).history[at[k] / 4] == 1
    decreases |px|
  {
    hide PutPixel, ColorOf;
    var c1 := PutPixel(c, at[0], ColorOf(table, px[0]));
    if k == 0 {
      PutPixelShows(c, at[0], ColorOf(table, px[0]));
      assert at[0] !in at[1..];
      PaintElsewhere(c1, at[1..], px[1..], table, at[0]);
      PutPixelMarks(c, at[0], ColorOf(table, px[0]));
      PaintKeepsHistory(c1, at[1..], px[1..], table, at[0] / 4);
    } else {
      PaintShowsColor(c1, at[1..], px[1..], table, k - 1);
      PutPixelElsewhere(c, at[0], ColorOf(table, px[0]), at[k]);
    }
  }

  lemma PutPixelMarks(c: Canvas, idx: nat, color: seq<Byte>)
    requires |color| == 4 && idx % 4 == 0 && idx + 4 <= |c.out| == 4 * |c.history|
    ensures PutPixel(c, idx, color).history[idx / 4] == 1
  {
  }

  lemma {:induction false} PaintKeepsHistory(c: Canvas, at: seq<nat>, px: seq<Byte>, table: seq<Byte>, i: nat)
    requires |table| == 1024 && Fits(c, at) && i < |c.history| && c.history[i] == 1
    ensures Paint(c, at, px, table).history[i] == 1
    decreases |px|
  {
    hide ColorOf;
    if px != [] && at != [] {
      PaintKeepsHistory(PutPixel(c, at[0], ColorOf(table, px[0])), at[1..], px[1..], table, i);
    }
  }

  /** Offset o of the picture `now`, which was `was`, shows entry i of the table, stored blue, green,
      red and alpha; entries that are at most half opaque leave it as it was. */
  predicate EntryShown(now: seq<Byte>, was: seq<Byte>, o: nat, i: Byte, table: seq<Byte>)
    requires |table| == 1024 && o + 4 <= |now| == |was|
  {
    now[o..o + 4] == if table[4 * i + 3] > 128
                     then [table[4 * i + 2], table[4 * i + 1], table[4 * i], table[4 * i + 3]]
                     else was[o..o + 4]
  }

  /** The k-th pixel painted shows its own table entry at the k-th offset, and is marked. */
  lemma PaintShows(c: Canvas, at: seq<nat>, px: seq<Byte>, table: seq<Byte>, k: nat)
    requires |table| == 1024 && Fits(c, at) && Distinct(at) && k < |px| && k < |at|
    ensures EntryShown(Paint(c, at, px, table).out, c.out, at[k], px[k], table)
    ensures Paint(c, at, px, table).history[at[k] / 4] == 1
  {
    hide Paint;
    PaintShowsColor(c, at, px, table, k);
  }

  // ----- where each pixel of a frame shows

  lemma {:induction false} RowsOffsetsAt(rows: seq<nat>, x: nat, w: nat, y0: nat, line: nat, j: nat, i: nat)
    requires j < |rows| && i < w
    ensures Times(j, w) + i < |RowsOffsets(rows, x, w, y0, line)|
    ensures RowsOffsets(rows, x, w, y0, line)[Times(j, w) + i] == PixelOffset(x, y0, line, rows[j], i)
    decreases j
  {
    hide RowOffsets;
    if j > 0 {
      RowsOffsetsAt(rows[1..], x, w, y0, line, j - 1, i);
    }
  }

  /** Pixel i of the j-th row that comes shows in column i of that row of the rectangle. */
  lemma FrameShows(c: Canvas, interlaced: bool, x: nat, w: nat, y0: nat, h: nat, line: nat, px: seq<Byte>, table: seq<Byte>,
                   rows: seq<nat>, j: nat, i: nat)
    requires |table| == 1024 && x + 4 * w <= line && Fits(c, FrameOffsets(interlaced, x, w, y0, h, line))
    requires rows == RowOrder(interlaced, h) && j < |rows| && i < w && Times(j, w) + i < |px|
    ensures PixelOffset(x, y0, line, rows[j], i) + 4 <= |c.out|
    ensures EntryShown(Paint(c, FrameOffsets(interlaced, x, w, y0, h, line), px, table).out, c.out,
                       PixelOffset(x, y0, line, rows[j], i), px[Times(j, w) + i], table)
  {
    hide Paint, FrameOffsets, Distinct, RowOrder, EntryShown, Times, PixelOffset;
    FrameVisitsOnce(interlaced, x, w, y0, h, line);
    FrameOffsetAt(interlaced, x, w, y0, h, line, rows, j, i);
    var at, k := FrameOffsets(interlaced, x, w, y0, h, line), Times(j, w) + i;
    PaintShows(c, at, px, table, k);
    assert at[k] + 4 <= |c.out|;
  }

  lemma FrameOffsetAt(interlaced: bool, x: nat, w: nat, y0: nat, h: nat, line: nat, rows: seq<nat>, j: nat, i: nat)
    requires rows == RowOrder(interlaced, h) && j < |rows| && i < w
    ensures var at := FrameOffsets(interlaced, x, w, y0, h, line);
            Times(j, w) + i < |at| && at[Times(j, w) + i] == PixelOffset(x, y0, line, rows[j], i)
  {
    hide RowOrder, RowsOffsets;
    RowsOffsetsAt(rows, x, w, y0, line, j, i);
  }
}
