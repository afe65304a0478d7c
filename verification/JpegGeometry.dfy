/** Where the blocks of a sequential JPEG scan go: the sizes computed from the frame header, and
    the order in which the scan loops visit the 8x8 blocks of each component's plane. */
module JpegGeometry {
  import opened Bits

  /** Sampling factors of a component. */
  datatype Component = Component(h: nat, v: nat)

  datatype Frame = Frame(img_x: nat, img_y: nat, comps: seq<Component>)

  predicate Accepted(f: Frame) {
    && f.img_x > 0 && f.img_y > 0 && |f.comps| > 0
    && forall n :: 0 <= n < |f.comps| ==> 1 <= f.comps[n].h <= 4 && 1 <= f.comps[n].v <= 4
  }

  function CeilDiv(a: nat, b: nat): nat
    requires b > 0
  {
    (a + b - 1) / b
  }

  /** The largest sampling factors. */
  function HMax(comps: seq<Component>): (m: nat)
    ensures m >= 1 && forall n :: 0 <= n < |comps| ==> comps[n].h <= m
  {
    if |comps| == 0 then 1
    else
      var m := HMax(comps[..|comps| - 1]);
      if comps[|comps| - 1].h > m then comps[|comps| - 1].h else m
  }

  function VMax(comps: seq<Component>): (m: nat)
    ensures m >= 1 && forall n :: 0 <= n < |comps| ==> comps[n].v <= m
  {
    if |comps| == 0 then 1
    else
      var m := VMax(comps[..|comps| - 1]);
      if comps[|comps| - 1].v > m then comps[|comps| - 1].v else m
  }

  function McuX(f: Frame): nat {
    CeilDiv(f.img_x, 8 * HMax(f.comps))
  }

  function McuY(f: Frame): nat {
    CeilDiv(f.img_y, 8 * VMax(f.comps))
  }

  /** Effective pixels of a component. */
  function CompX(f: Frame, n: nat): nat
    requires n < |f.comps|
  {
    CeilDiv(f.img_x * f.comps[n].h, HMax(f.comps))
  }

  function CompY(f: Frame, n: nat): nat
    requires n < |f.comps|
  {
    CeilDiv(f.img_y * f.comps[n].v, VMax(f.comps))
  }

  /** Size of the component's plane, a whole number of MCUs. */
  function Width2(f: Frame, n: nat): nat
    requires n < |f.comps|
  {
    McuX(f) * f.comps[n].h * 8
  }

  function Height2(f: Frame, n: nat): nat
    requires n < |f.comps|
  {
    McuY(f) * f.comps[n].v * 8
  }

  lemma CeilDivBounds(a: nat, b: nat)
    requires b > 0
    ensures a <= CeilDiv(a, b) * b && (CeilDiv(a, b) > 0 ==> (CeilDiv(a, b) - 1) * b < a)
  {
    var q := CeilDiv(a, b);
    assert q * b <= a + b - 1 < q * b + b;
    assert (q - 1) * b == q * b - b;
  }

  lemma CeilDivLeast(a: nat, b: nat, m: nat)
    requires b > 0 && a <= m * b
    ensures CeilDiv(a, b) <= m
  {
    var q := CeilDiv(a, b);
    CeilDivBounds(a, b);
    if q > m {
      assert (q - 1) * b >= m * b by {
        MulMono(m, q - 1, b);
      }
    }
  }

  /** Ceilings along one axis: a side of n pixels sampled h times out of top has no more blocks
      than whole MCUs times h. */
  lemma AxisFits(n: nat, h: nat, top: nat)
    requires h >= 1 && top >= 1
    ensures CeilDiv(CeilDiv(n * h, top), 8) <= CeilDiv(n, 8 * top) * h
  {
    hide CeilDiv;
    var m := CeilDiv(n, 8 * top);
    CeilDivBounds(n, 8 * top);
    MulMono(n, m * (8 * top), h);
    assert m * (8 * top) * h == (8 * (m * h)) * top;
    CeilDivLeast(n * h, top, 8 * (m * h));
    CeilDivLeast(CeilDiv(n * h, top), 8, m * h);
  }

  /** A scan of one component stays inside that component's plane. */
  lemma SingleScanFits(f: Frame, n: nat, i: nat, j: nat)
    requires Accepted(f) && n < |f.comps|
    requires i < CeilDiv(CompX(f, n), 8) && j < CeilDiv(CompY(f, n), 8)
    ensures 8 * i + 8 <= Width2(f, n) && 8 * j + 8 <= Height2(f, n)
  {
    hide CeilDiv, HMax, VMax;
    AxisFits(f.img_x, f.comps[n].h, HMax(f.comps));
    AxisFits(f.img_y, f.comps[n].v, VMax(f.comps));
  }

  // ----- the planes and the image

  /** The largest factors are those of some component. */
  lemma {:induction false} MaxAttained(comps: seq<Component>) returns (a: nat, b: nat)
    requires |comps| > 0 && forall n :: 0 <= n < |comps| ==> comps[n].h >= 1 && comps[n].v >= 1
    ensures a < |comps| && comps[a].h == HMax(comps) && b < |comps| && comps[b].v == VMax(comps)
  {
    var m := |comps| - 1;
    a, b := m, m;
    if m > 0 {
      var c, d := MaxAttained(comps[..m]);
      if comps[m].h <= HMax(comps[..m]) {
        a := c;
      }
      if comps[m].v <= VMax(comps[..m]) {
        b := d;
      }
    }
  }

  /** Every pixel of the image has its sample inside the effective size of each component, which has
      no row or column without such a pixel; and MCUs cover the image with none to spare. */
  lemma ImageCovered(f: Frame, n: nat)
    requires Accepted(f) && n < |f.comps|
    ensures forall x: nat :: x < f.img_x ==> x * f.comps[n].h / HMax(f.comps) < CompX(f, n)
    ensures forall y: nat :: y < f.img_y ==> y * f.comps[n].v / VMax(f.comps) < CompY(f, n)
    ensures (f.img_x * f.comps[n].h - 1) / HMax(f.comps) == CompX(f, n) - 1
    ensures (f.img_y * f.comps[n].v - 1) / VMax(f.comps) == CompY(f, n) - 1
    ensures (McuX(f) - 1) * (8 * HMax(f.comps)) < f.img_x <= McuX(f) * (8 * HMax(f.comps))
    ensures (McuY(f) - 1) * (8 * VMax(f.comps)) < f.img_y <= McuY(f) * (8 * VMax(f.comps))
  {
    hide CeilDiv, HMax, VMax;
    CeilDivBounds(f.img_x, 8 * HMax(f.comps));
    CeilDivBounds(f.img_y, 8 * VMax(f.comps));
    AxisCovered(f.img_x, f.comps[n].h, HMax(f.comps));
    AxisCovered(f.img_y, f.comps[n].v, VMax(f.comps));
  }

  lemma AxisCovered(size: nat, h: nat, top: nat)
    requires size >= 1 && h >= 1 && top >= 1
    ensures (size * h - 1) / top == CeilDiv(size * h, top) - 1
    ensures forall x: nat :: x < size ==> x * h / top < CeilDiv(size * h, top)
  {
    MulMono(1, size, h);
    LastBelow(size * h, top);
    forall x: nat | x < size
      ensures x * h / top < CeilDiv(size * h, top)
    {
      MulMono(x + 1, size, h);
      assert x * h + h == (x + 1) * h;
      DivMono(x * h, size * h - 1, top);
    }
  }

  lemma LastBelow(a: nat, b: nat)
    requires a >= 1 && b >= 1
    ensures (a - 1) / b == CeilDiv(a, b) - 1
  {
    var q := (a - 1) / b;
    DivMod(a - 1, b);
    Quotient(q + 1, (a - 1) % b, b);
    assert (q + 1) * b == q * b + b;
  }

  lemma DivMono(a: nat, c: nat, b: nat)
    requires a <= c && b >= 1
    ensures a / b <= c / b
  {
    var q, r := a / b, c / b;
    DivBracket(a, b);
    DivBracket(c, b);
    Below(q, r, b, a, c);
  }

  lemma Below(q: nat, r: nat, b: nat, a: nat, c: nat)
    requires q * b <= a <= c < (r + 1) * b
    ensures q <= r
  {
    if q > r {
      MulMono(r + 1, q, b);
    }
  }

  // ----- interleaved scans

  /** Block (x, y) of the plane of the component in slot k of the scan. */
  datatype Block = Block(k: nat, x: nat, y: nat)

  /** A scan: MCUs across and down, and the sampling factors of its components. */
  datatype Scan = Scan(mx: nat, my: nat, comps: seq<Component>)

  predicate Sampled(s: Scan) {
    forall k :: 0 <= k < |s.comps| ==> s.comps[k].h >= 1 && s.comps[k].v >= 1
  }

  predicate InPlane(s: Scan, b: Block) {
    b.k < |s.comps| && b.x < s.mx * s.comps[b.k].h && b.y < s.my * s.comps[b.k].v
  }

  /** The scan loops come to block b before the state (j, i, k, y, x) of their counters. */
  predicate Before(s: Scan, b: Block, j: nat, i: nat, k: nat, y: nat, x: nat)
    requires Sampled(s) && b.k < |s.comps|
  {
    var c := s.comps[b.k];
    var bj, bi, by', bx := b.y / c.v, b.x / c.h, b.y % c.v, b.x % c.h;
    bj < j || (bj == j && (bi < i || (bi == i && (b.k < k || (b.k == k && (by' < y || (by' == y && bx < x)))))))
  }

  /** The blocks visited so far: those before the counters, each once. */
  ghost predicate Visited(s: Scan, log: seq<Block>, j: nat, i: nat, k: nat, y: nat, x: nat)
    requires Sampled(s)
  {
    && (forall b: Block :: b in log <==> InPlane(s, b) && Before(s, b, j, i, k, y, x))
    && (forall p, q :: 0 <= p < q < |log| ==> log[p] != log[q])
  }

  lemma QuotientBound(a: nat, m: nat, d: nat)
    requires d > 0
    ensures a < m * d <==> a / d < m
    ensures a == a / d * d + a % d && a % d < d
  {
    if a / d >= m {
      MulMono(m, a / d, d);
    } else {
      MulMono(a / d + 1, m, d);
    }
  }

  /** The block at the counters is the next one, and the only one, to be added. */
  lemma VisitOne(s: Scan, log: seq<Block>, j: nat, i: nat, k: nat, y: nat, x: nat)
    requires Sampled(s) && Visited(s, log, j, i, k, y, x)
    requires j < s.my && i < s.mx && k < |s.comps| && y < s.comps[k].v && x < s.comps[k].h
    ensures var b := Block(k, i * s.comps[k].h + x, j * s.comps[k].v + y);
            InPlane(s, b) && b !in log && Visited(s, log + [b], j, i, k, y, x + 1)
  {
    var c := s.comps[k];
    var b := Block(k, i * c.h + x, j * c.v + y);
    Quotient(i, x, c.h);
    Quotient(j, y, c.v);
    QuotientBound(b.x, s.mx, c.h);
    QuotientBound(b.y, s.my, c.v);
    forall a: Block | InPlane(s, a)
      ensures Before(s, a, j, i, k, y, x + 1) <==> Before(s, a, j, i, k, y, x) || a == b
    {
      QuotientBound(a.x, s.mx, s.comps[a.k].h);
      QuotientBound(a.y, s.my, s.comps[a.k].v);
    }
  }

  /** When a counter runs out, the next one out steps. */
  lemma Carry(s: Scan, log: seq<Block>, j: nat, i: nat, k: nat, y: nat, x: nat)
    requires Sampled(s) && Visited(s, log, j, i, k, y, x)
    ensures k < |s.comps| && x == s.comps[k].h ==> Visited(s, log, j, i, k, y + 1, 0)
    ensures k < |s.comps| && y == s.comps[k].v && x == 0 ==> Visited(s, log, j, i, k + 1, 0, 0)
    ensures k == |s.comps| && y == 0 && x == 0 ==> Visited(s, log, j, i + 1, 0, 0, 0)
    ensures i == s.mx && k == 0 && y == 0 && x == 0 ==> Visited(s, log, j + 1, 0, 0, 0, 0)
  {
    forall a: Block | InPlane(s, a)
      ensures a.x / s.comps[a.k].h < s.mx && a.x % s.comps[a.k].h < s.comps[a.k].h
      ensures a.y % s.comps[a.k].v < s.comps[a.k].v
    {
      QuotientBound(a.x, s.mx, s.comps[a.k].h);
      QuotientBound(a.y, s.my, s.comps[a.k].v);
    }
  }

  lemma VisitNone(s: Scan)
    requires Sampled(s)
    ensures Visited(s, [], 0, 0, 0, 0, 0)
  {
  }

  lemma VisitAll(s: Scan, log: seq<Block>)
    requires Sampled(s) && Visited(s, log, s.my, 0, 0, 0, 0)
    ensures forall b: Block :: b in log <==> InPlane(s, b)
    ensures forall p, q :: 0 <= p < q < |log| ==> log[p] != log[q]
  {
    forall b: Block | InPlane(s, b)
      ensures Before(s, b, s.my, 0, 0, 0, 0)
    {
      QuotientBound(b.y, s.my, s.comps[b.k].v);
    }
  }

  /** The loops of a completed interleaved scan visit every block of every plane exactly once. */
  method InterleavedScan(s: Scan) returns (log: seq<Block>)
    requires Sampled(s)
    ensures forall b: Block :: b in log <==> InPlane(s, b)
    ensures forall p, q :: 0 <= p < q < |log| ==> log[p] != log[q]
  {
    hide Visited;
    log := [];
    VisitNone(s);
    for j := 0 to s.my
      invariant Visited(s, log, j, 0, 0, 0, 0)
    {
      for i := 0 to s.mx
        invariant Visited(s, log, j, i, 0, 0, 0)
      {
        for k := 0 to |s.comps|
          invariant Visited(s, log, j, i, k, 0, 0)
        {
          var c := s.comps[k];
          for y := 0 to c.v
            invariant Visited(s, log, j, i, k, y, 0)
          {
            for x := 0 to c.h
              invariant Visited(s, log, j, i, k, y, x)
            {
              VisitOne(s, log, j, i, k, y, x);
              log := log + [Block(k, i * c.h + x, j * c.v + y)];
            }
            Carry(s, log, j, i, k, y, c.h);
          }
          Carry(s, log, j, i, k, c.v, 0);
        }
        Carry(s, log, j, i, |s.comps|, 0, 0);
      }
      Carry(s, log, j, s.mx, 0, 0, 0);
    }
    VisitAll(s, log);
  }

  /** The scan of the components listed in order. */
  function ScanOf(f: Frame, order: seq<nat>): (s: Scan)
    requires forall k :: 0 <= k < |order| ==> order[k] < |f.comps|
    ensures |s.comps| == |order|
  {
    Scan(McuX(f), McuY(f), seq(|order|, k requires 0 <= k < |order| => f.comps[order[k]]))
  }

  /** The blocks it visits are those that lie inside the planes. */
  lemma PlaneOfScan(f: Frame, order: seq<nat>, b: Block)
    requires Accepted(f) && (forall k :: 0 <= k < |order| ==> order[k] < |f.comps|) && b.k < |order|
    ensures Sampled(ScanOf(f, order))
    ensures InPlane(ScanOf(f, order), b) <==>
      8 * b.x + 8 <= Width2(f, order[b.k]) && 8 * b.y + 8 <= Height2(f, order[b.k])
  {
    hide CeilDiv, HMax, VMax;
    var n := order[b.k];
    assert ScanOf(f, order).comps[b.k] == f.comps[n];
    Eighths(b.x, McuX(f) * f.comps[n].h);
    Eighths(b.y, McuY(f) * f.comps[n].v);
  }

  lemma Eighths(x: nat, m: nat)
    ensures x < m <==> 8 * x + 8 <= m * 8
  {
  }
}
