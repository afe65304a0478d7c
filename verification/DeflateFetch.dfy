/** How far a reader with a 32-bit reservoir has read ahead, as a function of the data. A refill
    at bit p fetches all bytes up to bit p + 25; a symbol is only looked for with 16 bits in the
    reservoir, and there is no refill once all of the input has been fetched. A reader that needs
    one then is starved, whether or not the stream itself goes on to its end. */
module DeflateFetch {
  import opened Bits
  import opened BitStream
  import opened CanonicalCode
  import opened Deflate

  /** Bytes fetched so far, padding zeros included; Open stands for a run that never ends. */
  datatype Fetch = Fetched(f: nat) | Starved | Open

  /** Bytes fetched after a refill at bit p. */
  function Refill(p: nat): nat {
    (p + 32) / 8
  }

  lemma RefillIs(p: nat, f: nat, bits: nat)
    requires 8 * f == p + bits && 24 < bits <= 32
    ensures f == Refill(p)
  {
  }

  /** Reading n bits at bit p. */
  function FetchBits(p: nat, f: nat, n: nat): nat {
    if 8 * f - p >= n then f else Refill(p)
  }

  /** Looking for a symbol at bit p. */
  function FetchSymbol(data: seq<Byte>, p: nat, f: nat): Fetch {
    if 8 * f - p >= 16 then Fetched(f) else if f >= |data| then Starved else Fetched(Refill(p))
  }

  // ----- tokens and compressed blocks

  ghost function FetchDistance(dist: Lengths, data: seq<Byte>, p: nat, f: nat): Fetch {
    match FetchSymbol(data, p, f)
    case Fetched(g) =>
      var d := NextSymbol(dist, data, p);
      if d.Got? && d.v <= 29 then Fetched(FetchBits(d.p, g, DistExtra(d.v))) else Fetched(g)
    case bad => bad
  }

  ghost function FetchToken(lit: Lengths, dist: Lengths, data: seq<Byte>, p: nat, f: nat): Fetch {
    match FetchSymbol(data, p, f)
    case Fetched(g) =>
      var s := NextSymbol(lit, data, p);
      if s.Got? && 257 <= s.v <= 285
      then FetchDistance(dist, data, s.p + LengthExtra(s.v), FetchBits(s.p, g, LengthExtra(s.v)))
      else Fetched(g)
    case bad => bad
  }

  /** The block goes on after token t, with what it stands for appended. */
  ghost predicate Goes(t: Read<Token>, out: seq<Byte>) {
    t.Got? && (t.v.Literal? || (t.v.Match? && 0 < t.v.dist <= |out|))
  }

  ghost function Grows(t: Read<Token>, out: seq<Byte>): seq<Byte>
    requires Goes(t, out)
  {
    if t.v.Literal? then out + [t.v.b] else Copy(out, t.v.len, t.v.dist)
  }

  /** At most n tokens of a compressed block. */
  ghost function FetchBlockSteps(lit: Lengths, dist: Lengths, data: seq<Byte>, p: nat, f: nat, out: seq<Byte>, n: nat): Fetch
    decreases n
  {
    if n == 0 then Open else
    var t := NextToken(lit, dist, data, p);
    match FetchToken(lit, dist, data, p, f)
    case Fetched(g) =>
      if Goes(t, out) then FetchBlockSteps(lit, dist, data, t.p, g, Grows(t, out), n - 1) else Fetched(g)
    case bad => bad
  }

  ghost function FetchBlock(lit: Lengths, dist: Lengths, data: seq<Byte>, p: nat, f: nat, out: seq<Byte>): Fetch {
    if exists n: nat :: FetchBlockSteps(lit, dist, data, p, f, out, n) != Open then
      var n: nat :| FetchBlockSteps(lit, dist, data, p, f, out, n) != Open;
      FetchBlockSteps(lit, dist, data, p, f, out, n)
    else Open
  }

  lemma FetchTokenEnds(lit: Lengths, dist: Lengths, data: seq<Byte>, p: nat, f: nat)
    ensures FetchToken(lit, dist, data, p, f) != Open
  {
    hide NextSymbol, LengthExtra, DistExtra;
  }

  lemma {:induction false} FetchBlockStable(lit: Lengths, dist: Lengths, data: seq<Byte>, p: nat, f: nat, out: seq<Byte>, n: nat, m: nat)
    requires n <= m && FetchBlockSteps(lit, dist, data, p, f, out, n) != Open
    ensures FetchBlockSteps(lit, dist, data, p, f, out, m) == FetchBlockSteps(lit, dist, data, p, f, out, n)
    decreases n
  {
    hide NextToken, FetchToken, Goes, Grows;
    var t, g := NextToken(lit, dist, data, p), FetchToken(lit, dist, data, p, f);
    if g.Fetched? && Goes(t, out) {
      GoesOn(t, out);
      FetchBlockStable(lit, dist, data, t.p, g.f, Grows(t, out), n - 1, m - 1);
    }
  }

  lemma GoesOn(t: Read<Token>, out: seq<Byte>)
    requires Goes(t, out)
    ensures t.Got?
  {
  }

  lemma FetchBlockIsLimit(lit: Lengths, dist: Lengths, data: seq<Byte>, p: nat, f: nat, out: seq<Byte>, n: nat)
    requires FetchBlockSteps(lit, dist, data, p, f, out, n) != Open
    ensures FetchBlock(lit, dist, data, p, f, out) == FetchBlockSteps(lit, dist, data, p, f, out, n)
  {
    hide FetchBlockSteps;
    var m: nat :| FetchBlockSteps(lit, dist, data, p, f, out, m) != Open
                  && FetchBlock(lit, dist, data, p, f, out) == FetchBlockSteps(lit, dist, data, p, f, out, m);
    if n <= m {
      FetchBlockStable(lit, dist, data, p, f, out, n, m);
    } else {
      FetchBlockStable(lit, dist, data, p, f, out, m, n);
    }
  }

  /** A block, unfolded by one token. */
  lemma FetchBlockUnfold(lit: Lengths, dist: Lengths, data: seq<Byte>, p: nat, f: nat, out: seq<Byte>)
    ensures var t, g := NextToken(lit, dist, data, p), FetchToken(lit, dist, data, p, f);
            FetchBlock(lit, dist, data, p, f, out) ==
            if g.Fetched? && Goes(t, out) then FetchBlock(lit, dist, data, t.p, g.f, Grows(t, out)) else g
  {
    hide NextToken, FetchToken, Goes, Grows, FetchBlock;
    var t, g := NextToken(lit, dist, data, p), FetchToken(lit, dist, data, p, f);
    FetchTokenEnds(lit, dist, data, p, f);
    if g.Fetched? && Goes(t, out) {
      GoesOn(t, out);
      FetchBlockStep(lit, dist, data, p, f, out, t.p, g.f, Grows(t, out));
    } else {
      FetchBlockIsLimit(lit, dist, data, p, f, out, 1);
    }
  }

  lemma FetchBlockStep(lit: Lengths, dist: Lengths, data: seq<Byte>, p: nat, f: nat, out: seq<Byte>, q: nat, g: nat, out': seq<Byte>)
    requires forall n: nat :: FetchBlockSteps(lit, dist, data, p, f, out, n + 1) == FetchBlockSteps(lit, dist, data, q, g, out', n)
    ensures FetchBlock(lit, dist, data, p, f, out) == FetchBlock(lit, dist, data, q, g, out')
  {
    hide NextToken, FetchToken, Goes, Grows;
    if n: nat :| FetchBlockSteps(lit, dist, data, p, f, out, n) != Open {
      assert FetchBlockSteps(lit, dist, data, p, f, out, n - 1 + 1) == FetchBlockSteps(lit, dist, data, q, g, out', n - 1);
      FetchBlockIsLimit(lit, dist, data, p, f, out, n);
      FetchBlockIsLimit(lit, dist, data, q, g, out', n - 1);
    }
  }

  // ----- stored blocks

  /** A stored block drains the reservoir; its bytes must all be in the input. */
  function FetchStored(data: seq<Byte>, p: nat): Fetch {
    var k := Align(p) / 8;
    var len, nlen := Peek(data, 8 * k, 16), Peek(data, 8 * k + 16, 16);
    var here := if k + 4 < |data| then k + 4 else |data|;
    if len + nlen != 0xFFFF then Fetched(k + 4)
    else if here + len > |data| then Starved
    else Fetched(k + 4 + len)
  }

  // ----- dynamic codes

  /** The n 3-bit fields of the code length code. */
  function FetchFields(p: nat, f: nat, n: nat): nat
    decreases n
  {
    if n == 0 then f else FetchFields(p + 3, FetchBits(p, f, 3), n - 1)
  }

  lemma FieldsStep(p: nat, f: nat, n: nat)
    requires n > 0
    ensures FetchFields(p, f, n) == FetchFields(p + 3, FetchBits(p, f, 3), n - 1)
  {
  }

  lemma NoFields(p: nat, f: nat)
    ensures FetchFields(p, f, 0) == f
  {
  }

  ghost function FetchLengths(cl: Lengths, data: seq<Byte>, p: nat, f: nat, total: nat, acc: Lengths): Fetch
    decreases total - |acc|
  {
    if |acc| >= total then Fetched(f) else
    match FetchSymbol(data, p, f)
    case Fetched(g) =>
      var s := NextSymbol(cl, data, p);
      if !s.Got? || s.v > 18 || (s.v == 16 && acc == []) then Fetched(g)
      else if s.v < 16 then FetchLengths(cl, data, s.p, g, total, acc + [s.v])
      else
        var e := if s.v == 16 then 2 else if s.v == 17 then 3 else 7;
        FetchRun(cl, data, s.p + e, FetchBits(s.p, g, e), total, acc, if s.v == 16 then acc[|acc| - 1] else 0,
                 (if s.v == 18 then 11 else 3) + Peek(data, s.p, e))
    case bad => bad
  }

  ghost function FetchRun(cl: Lengths, data: seq<Byte>, p: nat, f: nat, total: nat, acc: Lengths, x: nat, n: nat): Fetch
    requires x <= 15 && n > 0 && |acc| < total
    decreases total - |acc|, 0
  {
    if |acc| + n > total then Fetched(f) else FetchLengths(cl, data, p, f, total, acc + Repeat(x, n))
  }

  ghost function FetchCodes(data: seq<Byte>, p: nat, f: nat): Fetch {
    Pow2Values();
    var f1 := FetchBits(p, f, 5);
    var f2 := FetchBits(p + 5, f1, 5);
    var f3 := FetchBits(p + 10, f2, 4);
    var hlit, hdist, hclen := 257 + Peek(data, p, 5), 1 + Peek(data, p + 5, 5), 4 + Peek(data, p + 10, 4);
    var f4 := FetchFields(p + 14, f3, hclen);
    var cl := CodeLengthCode(data, p + 14, hclen);
    if !Decodable(cl) then Fetched(f4) else FetchLengths(cl, data, p + 14 + 3 * hclen, f4, hlit + hdist, [])
  }

  // ----- whole streams

  ghost function FetchDynamic(data: seq<Byte>, p: nat, f: nat, out: seq<Byte>): Fetch {
    match FetchCodes(data, p, f)
    case Fetched(g) =>
      var c := DynamicCodes(data, p);
      if c.Got? then FetchBlock(c.v.lit, c.v.dist, data, c.p, g, out) else Fetched(g)
    case bad => bad
  }

  ghost function FetchAnyBlock(data: seq<Byte>, p: nat, f: nat, out: seq<Byte>): Fetch {
    var g := FetchBits(p + 1, FetchBits(p, f, 1), 2);
    var kind := Peek(data, p + 1, 2);
    if kind == 0 then FetchStored(data, p + 3)
    else if kind == 1 then FetchBlock(FixedLengths(), FixedDistances(), data, p + 3, g, out)
    else if kind == 2 then FetchDynamic(data, p + 3, g, out)
    else Fetched(g)
  }

  /** The stream goes on after a block. */
  ghost predicate GoesToNext(data: seq<Byte>, p: nat, b: Outcome) {
    b.Done? && Peek(data, p, 1) != 1
  }

  ghost function FetchSteps(data: seq<Byte>, p: nat, f: nat, out: seq<Byte>, n: nat): Fetch
    decreases n
  {
    if n == 0 then Open else
    var b := AnyBlock(data, p, out);
    match FetchAnyBlock(data, p, f, out)
    case Fetched(g) => if GoesToNext(data, p, b) then FetchSteps(data, b.p, g, b.out, n - 1) else Fetched(g)
    case bad => bad
  }

  /** All blocks from bit p to the one marked final. */
  ghost function FetchStream(data: seq<Byte>, p: nat, f: nat, out: seq<Byte>): Fetch {
    if exists n: nat :: FetchSteps(data, p, f, out, n) != Open then
      var n: nat :| FetchSteps(data, p, f, out, n) != Open;
      FetchSteps(data, p, f, out, n)
    else Open
  }

  lemma {:induction false} FetchStepsStable(data: seq<Byte>, p: nat, f: nat, out: seq<Byte>, n: nat, m: nat)
    requires n <= m && FetchSteps(data, p, f, out, n) != Open
    ensures FetchSteps(data, p, f, out, m) == FetchSteps(data, p, f, out, n)
    decreases n
  {
    hide AnyBlock, FetchAnyBlock, Peek;
    var b, g := AnyBlock(data, p, out), FetchAnyBlock(data, p, f, out);
    if g.Fetched? && GoesToNext(data, p, b) {
      FetchStepsStable(data, b.p, g.f, b.out, n - 1, m - 1);
    }
  }

  lemma FetchIsLimit(data: seq<Byte>, p: nat, f: nat, out: seq<Byte>, n: nat)
    requires FetchSteps(data, p, f, out, n) != Open
    ensures FetchStream(data, p, f, out) == FetchSteps(data, p, f, out, n)
  {
    hide FetchSteps;
    var m: nat :| FetchSteps(data, p, f, out, m) != Open && FetchStream(data, p, f, out) == FetchSteps(data, p, f, out, m);
    if n <= m {
      FetchStepsStable(data, p, f, out, n, m);
    } else {
      FetchStepsStable(data, p, f, out, m, n);
    }
  }

  /** A stream, unfolded by one block. */
  lemma FetchUnfold(data: seq<Byte>, p: nat, f: nat, out: seq<Byte>)
    ensures var b, g := AnyBlock(data, p, out), FetchAnyBlock(data, p, f, out);
            FetchStream(data, p, f, out) ==
            if g.Fetched? && GoesToNext(data, p, b) then FetchStream(data, b.p, g.f, b.out) else g
  {
    hide AnyBlock, FetchAnyBlock, Peek;
    var b, g := AnyBlock(data, p, out), FetchAnyBlock(data, p, f, out);
    if g.Fetched? && GoesToNext(data, p, b) {
      assert forall n: nat :: FetchSteps(data, p, f, out, n + 1) == FetchSteps(data, b.p, g.f, b.out, n);
      if n: nat :| FetchSteps(data, p, f, out, n) != Open {
        assert FetchSteps(data, p, f, out, n - 1 + 1) == FetchSteps(data, b.p, g.f, b.out, n - 1);
        FetchIsLimit(data, p, f, out, n);
        FetchIsLimit(data, b.p, g.f, b.out, n - 1);
      }
    } else if g == Open {
      assert forall n: nat :: FetchSteps(data, p, f, out, n) == Open;
    } else {
      FetchIsLimit(data, p, f, out, 1);
    }
  }
}
