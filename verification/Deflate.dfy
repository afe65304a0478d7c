/** The DEFLATE format of RFC 1951 (sections 3.2.3 to 3.2.7), as a decoder on the
    zero-extended bit sequence of the input. A stream that never ends has the outcome
    Diverges; every other outcome is reached after finitely many tokens and blocks. */
module Deflate {
  import opened Bits
  import opened BitStream
  import opened CanonicalCode

  datatype Read<T> = Got(v: T, p: nat) | Invalid | Reserved

  datatype Token = Literal(b: Byte) | EndOfBlock | Match(len: nat, dist: nat)

  datatype Outcome = Done(out: seq<Byte>, p: nat) | Corrupt | ReservedSymbol | Diverges

  // ----- symbols

  predicate SymbolAt(lens: Lengths, data: seq<Byte>, p: nat, i: nat) {
    i < |lens| && lens[i] > 0 && CodeAt(data, p, lens[i]) == CodeOf(lens, i)
  }

  /** The symbol whose code comes next in the stream. */
  ghost function NextSymbol(lens: Lengths, data: seq<Byte>, p: nat): Read<nat> {
    if exists i: nat :: SymbolAt(lens, data, p, i) then
      var i: nat :| SymbolAt(lens, data, p, i);
      Got(i, p + lens[i])
    else
      Invalid
  }

  lemma SymbolUnique(lens: Lengths, data: seq<Byte>, p: nat, n: nat, i: nat, j: nat)
    requires n >= 15 && SymbolAt(lens, data, p, i) && SymbolAt(lens, data, p, j)
    ensures i == j
  {
    hide CodeOf, CodeAt, Peek, Rev;
    CodeAtIsRev(data, p, n, lens[i]);
    CodeAtIsRev(data, p, n, lens[j]);
    PrefixFree(lens, i, j, Peek(data, p, n));
  }

  lemma NextSymbolIs(lens: Lengths, data: seq<Byte>, p: nat, i: nat)
    requires SymbolAt(lens, data, p, i)
    ensures NextSymbol(lens, data, p) == Got(i, p + lens[i])
  {
    hide CodeOf, CodeAt;
    var j: nat :| SymbolAt(lens, data, p, j) && NextSymbol(lens, data, p) == Got(j, p + lens[j]);
    SymbolUnique(lens, data, p, 16, i, j);
  }

  // ----- lengths and distances (section 3.2.5)

  function LengthExtra(sym: nat): nat
    requires 257 <= sym <= 285
  {
    if sym < 265 || sym == 285 then 0 else (sym - 261) / 4
  }

  function LengthBase(sym: nat): nat
    requires 257 <= sym <= 285
  {
    if sym == 257 then 3 else if sym == 285 then 258 else LengthBase(sym - 1) + Pow2(LengthExtra(sym - 1))
  }

  function DistExtra(sym: nat): nat
    requires sym <= 29
  {
    if sym < 4 then 0 else sym / 2 - 1
  }

  function DistBase(sym: nat): nat
    requires sym <= 29
  {
    if sym == 0 then 1 else DistBase(sym - 1) + Pow2(DistExtra(sym - 1))
  }

  /** The distance half of a match of length len. */
  ghost function NextDistance(dist: Lengths, data: seq<Byte>, p: nat, len: nat): Read<Token> {
    match NextSymbol(dist, data, p)
    case Got(d, q) =>
      if d > 29 then Reserved
      else Got(Match(len, DistBase(d) + Peek(data, q, DistExtra(d))), q + DistExtra(d))
    case _ => Invalid
  }

  ghost function NextToken(lit: Lengths, dist: Lengths, data: seq<Byte>, p: nat): Read<Token> {
    match NextSymbol(lit, data, p)
    case Got(s, q) =>
      if s < 256 then Got(Literal(s), q)
      else if s == 256 then Got(EndOfBlock, q)
      else if s > 285 then Reserved
      else NextDistance(dist, data, q + LengthExtra(s), LengthBase(s) + Peek(data, q, LengthExtra(s)))
    case _ => Invalid
  }

  /** Appends len bytes, each a copy of the byte dist positions earlier. */
  function Copy(out: seq<Byte>, len: nat, dist: nat): seq<Byte>
    requires 1 <= dist <= |out|
    decreases len
  {
    if len == 0 then out else Copy(out + [out[|out| - dist]], len - 1, dist)
  }

  /** The output continues periodically, also where source and copy overlap. */
  lemma {:induction false} CopyIsPeriodic(out: seq<Byte>, len: nat, dist: nat)
    requires 1 <= dist <= |out|
    ensures |Copy(out, len, dist)| == |out| + len && Copy(out, len, dist)[..|out|] == out
    ensures forall i :: |out| <= i < |out| + len ==> Copy(out, len, dist)[i] == Copy(out, len, dist)[i - dist]
    decreases len
  {
    if len > 0 {
      var next := out + [out[|out| - dist]];
      CopyIsPeriodic(next, len - 1, dist);
      var r := Copy(out, len, dist);
      assert r[..|next|] == next;
      assert r[..|out|] == next[..|out|];
      assert r[|out|] == next[|out|];
    }
  }

  // ----- compressed blocks

  /** At most n tokens of a compressed block. */
  ghost function BlockSteps(lit: Lengths, dist: Lengths, data: seq<Byte>, p: nat, out: seq<Byte>, n: nat): Outcome
    decreases n
  {
    if n == 0 then Diverges else
    match NextToken(lit, dist, data, p)
    case Invalid => Corrupt
    case Reserved => ReservedSymbol
    case Got(EndOfBlock, q) => Done(out, q)
    case Got(Literal(b), q) => BlockSteps(lit, dist, data, q, out + [b], n - 1)
    case Got(Match(len, d), q) =>
      if d == 0 || d > |out| then Corrupt
      else BlockSteps(lit, dist, data, q, Copy(out, len, d), n - 1)
  }

  /** Everything from position p to the end of the block, appended to out. */
  ghost function Block(lit: Lengths, dist: Lengths, data: seq<Byte>, p: nat, out: seq<Byte>): Outcome {
    if exists n: nat :: BlockSteps(lit, dist, data, p, out, n) != Diverges then
      var n: nat :| BlockSteps(lit, dist, data, p, out, n) != Diverges;
      BlockSteps(lit, dist, data, p, out, n)
    else
      Diverges
  }

  lemma {:induction false} BlockStepsStable(lit: Lengths, dist: Lengths, data: seq<Byte>, p: nat, out: seq<Byte>,
                                            n: nat, m: nat)
    requires n <= m && BlockSteps(lit, dist, data, p, out, n) != Diverges
    ensures BlockSteps(lit, dist, data, p, out, m) == BlockSteps(lit, dist, data, p, out, n)
    decreases n
  {
    hide NextToken, Copy;
    match NextToken(lit, dist, data, p)
    case Got(Literal(b), q) =>
      BlockStepsStable(lit, dist, data, q, out + [b], n - 1, m - 1);
    case Got(Match(len, d), q) =>
      if 0 < d <= |out| {
        BlockStepsStable(lit, dist, data, q, Copy(out, len, d), n - 1, m - 1);
      }
    case _ =>
  }

  lemma BlockIsLimit(lit: Lengths, dist: Lengths, data: seq<Byte>, p: nat, out: seq<Byte>, n: nat)
    requires BlockSteps(lit, dist, data, p, out, n) != Diverges
    ensures Block(lit, dist, data, p, out) == BlockSteps(lit, dist, data, p, out, n)
  {
    hide BlockSteps;
    var m: nat :| BlockSteps(lit, dist, data, p, out, m) != Diverges
                  && Block(lit, dist, data, p, out) == BlockSteps(lit, dist, data, p, out, m);
    if n <= m {
      BlockStepsStable(lit, dist, data, p, out, n, m);
    } else {
      BlockStepsStable(lit, dist, data, p, out, m, n);
    }
  }

  /** One token taken by a run that goes on leaves the outcome of the rest. */
  lemma BlockStep(lit: Lengths, dist: Lengths, data: seq<Byte>, p: nat, out: seq<Byte>, q: nat, out': seq<Byte>)
    requires forall n: nat :: BlockSteps(lit, dist, data, p, out, n + 1) == BlockSteps(lit, dist, data, q, out', n)
    ensures Block(lit, dist, data, p, out) == Block(lit, dist, data, q, out')
  {
    hide NextToken, Copy;
    if n: nat :| BlockSteps(lit, dist, data, p, out, n) != Diverges {
      assert BlockSteps(lit, dist, data, p, out, n - 1 + 1) == BlockSteps(lit, dist, data, q, out', n - 1);
      BlockIsLimit(lit, dist, data, p, out, n);
      BlockIsLimit(lit, dist, data, q, out', n - 1);
    }
  }

  /** What a block means once its next token is known. */
  ghost function AfterToken(lit: Lengths, dist: Lengths, data: seq<Byte>, out: seq<Byte>, t: Read<Token>): Outcome {
    match t
    case Invalid => Corrupt
    case Reserved => ReservedSymbol
    case Got(EndOfBlock, q) => Done(out, q)
    case Got(Literal(b), q) => Block(lit, dist, data, q, out + [b])
    case Got(Match(len, d), q) =>
      if d == 0 || d > |out| then Corrupt else Block(lit, dist, data, q, Copy(out, len, d))
  }

  /** The block's meaning, unfolded by one token. */
  lemma BlockUnfold(lit: Lengths, dist: Lengths, data: seq<Byte>, p: nat, out: seq<Byte>)
    ensures Block(lit, dist, data, p, out) == AfterToken(lit, dist, data, out, NextToken(lit, dist, data, p))
  {
    hide NextToken, Copy, Block;
    match NextToken(lit, dist, data, p)
    case Got(Literal(b), q) =>
      BlockStep(lit, dist, data, p, out, q, out + [b]);
    case Got(Match(len, d), q) =>
      if 0 < d <= |out| {
        BlockStep(lit, dist, data, p, out, q, Copy(out, len, d));
      } else {
        BlockIsLimit(lit, dist, data, p, out, 1);
      }
    case _ =>
      BlockIsLimit(lit, dist, data, p, out, 1);
  }

  // ----- stored blocks (section 3.2.4)

  function Align(p: nat): nat {
    (p + 7) / 8 * 8
  }

  function BytesAt(data: seq<Byte>, k: nat, n: nat): (s: seq<Byte>)
    ensures |s| == n
    ensures forall i :: 0 <= i < n ==> s[i] == ByteAt(data, k + i)
    decreases n
  {
    if n == 0 then [] else [ByteAt(data, k)] + BytesAt(data, k + 1, n - 1)
  }

  function Stored(data: seq<Byte>, p: nat, out: seq<Byte>): Outcome {
    var q := Align(p);
    var len, nlen := Peek(data, q, 16), Peek(data, q + 16, 16);
    if len + nlen != 0xFFFF then Corrupt
    else Done(out + BytesAt(data, q / 8 + 4, len), q + 32 + 8 * len)
  }

  // ----- code lengths of compressed blocks (sections 3.2.6 and 3.2.7)

  function FixedLengths(): Lengths {
    seq(288, i => if i < 144 then 8 else if i < 256 then 9 else if i < 280 then 7 else 8)
  }

  function FixedDistances(): Lengths {
    seq(32, _ => 5)
  }

  const CODE_LENGTH_ORDER: seq<nat> := [16, 17, 18, 0, 8, 7, 9, 6, 10, 5, 11, 4, 12, 3, 13, 2, 14, 1, 15]

  /** The 3-bit field, among the first n, that holds the length of symbol s. */
  ghost function CodeLengthField(data: seq<Byte>, p: nat, n: nat, s: nat): (l: nat)
    requires n <= 19
    ensures l <= 15
  {
    Pow2Values();
    if k: nat :| k < n && CODE_LENGTH_ORDER[k] == s then Peek(data, p + 3 * k, 3) else 0
  }

  /** Lengths of the code length code: n 3-bit fields, in CODE_LENGTH_ORDER, the others 0. */
  ghost function CodeLengthCode(data: seq<Byte>, p: nat, n: nat): (lens: Lengths)
    requires n <= 19
    ensures |lens| == 19 && forall s: nat :: s < 19 ==> lens[s] == CodeLengthField(data, p, n, s)
  {
    seq(19, s requires 0 <= s < 19 => CodeLengthField(data, p, n, s))
  }

  function Repeat(x: nat, n: nat): Lengths
    requires x <= 15
  {
    seq(n, _ => x)
  }

  /** Reads code lengths until there are total of them. */
  ghost function ReadLengths(cl: Lengths, data: seq<Byte>, p: nat, total: nat, acc: Lengths): Read<Lengths>
    decreases total - |acc|
  {
    if |acc| >= total then Got(acc, p) else
    match NextSymbol(cl, data, p)
    case Got(s, q) =>
      if s < 16 then ReadLengths(cl, data, q, total, acc + [s])
      else if s > 18 || (s == 16 && acc == []) then Invalid
      else
        var (x, n, e) :=
          if s == 16 then (acc[|acc| - 1], 3 + Peek(data, q, 2), 2)
          else if s == 17 then (0, 3 + Peek(data, q, 3), 3)
          else (0, 11 + Peek(data, q, 7), 7);
        if |acc| + n > total then Invalid
        else ReadLengths(cl, data, q + e, total, acc + Repeat(x, n))
    case _ => Invalid
  }

  datatype Codes = Codes(lit: Lengths, dist: Lengths)

  ghost function DynamicCodes(data: seq<Byte>, p: nat): Read<Codes> {
    Pow2Values();
    var hlit, hdist, hclen := 257 + Peek(data, p, 5), 1 + Peek(data, p + 5, 5), 4 + Peek(data, p + 10, 4);
    var cl := CodeLengthCode(data, p + 14, hclen);
    if !Decodable(cl) then Invalid else
    match ReadLengths(cl, data, p + 14 + 3 * hclen, hlit + hdist, [])
    case Got(lens, q) =>
      if |lens| == hlit + hdist && Decodable(lens[..hlit]) && Decodable(lens[hlit..])
      then Got(Codes(lens[..hlit], lens[hlit..]), q)
      else Invalid
    case _ => Invalid
  }

  // ----- whole streams (section 3.2.3)

  /** One block, header included. */
  ghost function AnyBlock(data: seq<Byte>, p: nat, out: seq<Byte>): Outcome {
    var kind := Peek(data, p + 1, 2);
    if kind == 0 then Stored(data, p + 3, out)
    else if kind == 1 then Block(FixedLengths(), FixedDistances(), data, p + 3, out)
    else if kind == 2 then
      match DynamicCodes(data, p + 3)
      case Got(c, q) => Block(c.lit, c.dist, data, q, out)
      case _ => Corrupt
    else Corrupt
  }

  ghost function InflateSteps(data: seq<Byte>, p: nat, out: seq<Byte>, n: nat): Outcome
    decreases n
  {
    if n == 0 then Diverges else
    match AnyBlock(data, p, out)
    case Done(out', q) => if Peek(data, p, 1) == 1 then Done(out', q) else InflateSteps(data, q, out', n - 1)
    case bad => bad
  }

  /** The meaning of the blocks from position p to the one marked final, appended to out. */
  ghost function Inflate(data: seq<Byte>, p: nat, out: seq<Byte>): Outcome {
    if exists n: nat :: InflateSteps(data, p, out, n) != Diverges then
      var n: nat :| InflateSteps(data, p, out, n) != Diverges;
      InflateSteps(data, p, out, n)
    else
      Diverges
  }

  lemma {:induction false} InflateStepsStable(data: seq<Byte>, p: nat, out: seq<Byte>, n: nat, m: nat)
    requires n <= m && InflateSteps(data, p, out, n) != Diverges
    ensures InflateSteps(data, p, out, m) == InflateSteps(data, p, out, n)
    decreases n
  {
    hide AnyBlock, Peek;
    match AnyBlock(data, p, out)
    case Done(out', q) =>
      if Peek(data, p, 1) != 1 {
        InflateStepsStable(data, q, out', n - 1, m - 1);
      }
    case _ =>
  }

  lemma InflateIsLimit(data: seq<Byte>, p: nat, out: seq<Byte>, n: nat)
    requires InflateSteps(data, p, out, n) != Diverges
    ensures Inflate(data, p, out) == InflateSteps(data, p, out, n)
  {
    hide InflateSteps;
    var m: nat :| InflateSteps(data, p, out, m) != Diverges
                  && Inflate(data, p, out) == InflateSteps(data, p, out, m);
    if n <= m {
      InflateStepsStable(data, p, out, n, m);
    } else {
      InflateStepsStable(data, p, out, m, n);
    }
  }

  /** What a stream means once its next block is known. */
  ghost function AfterBlock(data: seq<Byte>, last: bool, b: Outcome): Outcome {
    if b.Done? && !last then Inflate(data, b.p, b.out) else b
  }

  /** The stream's meaning, unfolded by one block. */
  lemma InflateUnfold(data: seq<Byte>, p: nat, out: seq<Byte>)
    ensures Inflate(data, p, out) == AfterBlock(data, Peek(data, p, 1) == 1, AnyBlock(data, p, out))
  {
    hide AnyBlock, Peek;
    match AnyBlock(data, p, out)
    case Done(out', q) =>
      if Peek(data, p, 1) == 1 {
        InflateIsLimit(data, p, out, 1);
      } else {
        assert forall n: nat :: InflateSteps(data, p, out, n + 1) == InflateSteps(data, q, out', n);
        if n: nat :| InflateSteps(data, p, out, n) != Diverges {
          assert InflateSteps(data, p, out, n - 1 + 1) == InflateSteps(data, q, out', n - 1);
          InflateIsLimit(data, p, out, n);
          InflateIsLimit(data, q, out', n - 1);
        }
      }
    case Diverges =>
      assert forall n: nat :: InflateSteps(data, p, out, n) == Diverges;
    case _ =>
      InflateIsLimit(data, p, out, 1);
  }

  // ----- output only grows, positions only advance

  /** An outcome that extends out and ends no earlier than p. */
  predicate Extends(r: Outcome, p: nat, out: seq<Byte>) {
    r.Done? ==> r.p >= p && out <= r.out
  }

  lemma NextSymbolAdvances(lens: Lengths, data: seq<Byte>, p: nat)
    ensures NextSymbol(lens, data, p).Got? ==> NextSymbol(lens, data, p).p > p
  {
    hide CodeAt, CodeOf;
  }

  lemma NextTokenAdvances(lit: Lengths, dist: Lengths, data: seq<Byte>, p: nat)
    ensures NextToken(lit, dist, data, p).Got? ==> NextToken(lit, dist, data, p).p >= p
  {
    NextSymbolAdvances(lit, data, p);
    hide Peek, NextSymbol;
    forall q: nat
      ensures NextSymbol(dist, data, q).Got? ==> NextSymbol(dist, data, q).p > q
    {
      NextSymbolAdvances(dist, data, q);
    }
  }

  lemma {:induction false} BlockStepsExtends(lit: Lengths, dist: Lengths, data: seq<Byte>, p: nat, out: seq<Byte>, n: nat)
    ensures Extends(BlockSteps(lit, dist, data, p, out, n), p, out)
    decreases n
  {
    hide NextToken, Copy;
    NextTokenAdvances(lit, dist, data, p);
    if n > 0 {
      match NextToken(lit, dist, data, p)
      case Got(Literal(b), q) =>
        BlockStepsExtends(lit, dist, data, q, out + [b], n - 1);
      case Got(Match(len, d), q) =>
        if 0 < d <= |out| {
          CopyIsPeriodic(out, len, d);
          BlockStepsExtends(lit, dist, data, q, Copy(out, len, d), n - 1);
        }
      case _ =>
    }
  }

  lemma BlockExtends(lit: Lengths, dist: Lengths, data: seq<Byte>, p: nat, out: seq<Byte>)
    ensures Extends(Block(lit, dist, data, p, out), p, out)
  {
    if n: nat :| BlockSteps(lit, dist, data, p, out, n) != Diverges {
      BlockIsLimit(lit, dist, data, p, out, n);
      BlockStepsExtends(lit, dist, data, p, out, n);
    }
  }

  lemma {:induction false} ReadLengthsAdvances(cl: Lengths, data: seq<Byte>, p: nat, total: nat, acc: Lengths)
    ensures var r := ReadLengths(cl, data, p, total, acc);
            r.Got? ==> r.p >= p && acc <= r.v && (|acc| <= total ==> |r.v| == total)
    decreases total - |acc|
  {
    hide Peek, NextSymbol;
    if |acc| < total {
      NextSymbolAdvances(cl, data, p);
      match NextSymbol(cl, data, p)
      case Got(s, q) =>
        if s < 16 {
          ReadLengthsAdvances(cl, data, q, total, acc + [s]);
        } else if s <= 18 && !(s == 16 && acc == []) {
          var (x, n, e) :=
            if s == 16 then (acc[|acc| - 1], 3 + Peek(data, q, 2), 2)
            else if s == 17 then (0, 3 + Peek(data, q, 3), 3)
            else (0, 11 + Peek(data, q, 7), 7);
          if |acc| + n <= total {
            ReadLengthsAdvances(cl, data, q + e, total, acc + Repeat(x, n));
          }
        }
      case _ =>
    }
  }

  lemma AnyBlockExtends(data: seq<Byte>, p: nat, out: seq<Byte>)
    ensures Extends(AnyBlock(data, p, out), p + 3, out)
  {
    hide Peek, Block, DynamicCodes;
    var kind := Peek(data, p + 1, 2);
    if kind == 1 {
      BlockExtends(FixedLengths(), FixedDistances(), data, p + 3, out);
    } else if kind == 2 {
      match DynamicCodes(data, p + 3)
      case Got(c, q) =>
        DynamicCodesAdvance(data, p + 3);
        BlockExtends(c.lit, c.dist, data, q, out);
      case _ =>
    }
  }

  lemma DynamicCodesAdvance(data: seq<Byte>, p: nat)
    ensures DynamicCodes(data, p).Got? ==> DynamicCodes(data, p).p >= p
  {
    hide Peek, ReadLengths, CodeLengthCode, Kraft, Pow2;
    Pow2Values();
    var hlit, hdist, hclen := 257 + Peek(data, p, 5), 1 + Peek(data, p + 5, 5), 4 + Peek(data, p + 10, 4);
    ReadLengthsAdvances(CodeLengthCode(data, p + 14, hclen), data, p + 14 + 3 * hclen, hlit + hdist, []);
  }

  lemma {:induction false} InflateStepsExtends(data: seq<Byte>, p: nat, out: seq<Byte>, n: nat)
    ensures Extends(InflateSteps(data, p, out, n), p, out)
    decreases n
  {
    hide AnyBlock, Peek;
    if n > 0 {
      AnyBlockExtends(data, p, out);
      match AnyBlock(data, p, out)
      case Done(out', q) => InflateStepsExtends(data, q, out', n - 1);
      case _ =>
    }
  }

  lemma InflateExtends(data: seq<Byte>, p: nat, out: seq<Byte>)
    ensures Extends(Inflate(data, p, out), p, out)
  {
    if n: nat :| InflateSteps(data, p, out, n) != Diverges {
      InflateIsLimit(data, p, out, n);
      InflateStepsExtends(data, p, out, n);
    }
  }

  /** Every block has a bit set in its header or its LEN/NLEN pair, so it starts inside the
      input proper and not in the padding. */
  lemma AnyBlockStartsInside(data: seq<Byte>, p: nat, out: seq<Byte>)
    ensures AnyBlock(data, p, out).Done? ==> p < 8 * |data|
  {
    hide Peek, Block, DynamicCodes;
    if p >= 8 * |data| {
      PeekPastEnd(data, p + 1, 2);
      PeekPastEnd(data, Align(p + 3), 16);
      PeekPastEnd(data, Align(p + 3) + 16, 16);
    }
  }

  // ----- the fixed codes

  lemma KraftAppend(lens: Lengths, x: nat)
    requires 1 <= x <= 15
    ensures Kraft(lens + [x]) == Kraft(lens) + Pow2(15 - x)
  {
    assert (lens + [x])[..|lens|] == lens;
  }

  lemma {:induction false} KraftRepeat(lens: Lengths, x: nat, n: nat)
    requires 1 <= x <= 15
    ensures Kraft(lens + Repeat(x, n)) == Kraft(lens) + n * Pow2(15 - x)
  {
    hide Kraft, Pow2;
    if n == 0 {
      assert lens + Repeat(x, 0) == lens;
    } else {
      KraftRepeat(lens, x, n - 1);
      assert lens + Repeat(x, n) == lens + Repeat(x, n - 1) + [x];
      KraftAppend(lens + Repeat(x, n - 1), x);
      OneMore(n, Pow2(15 - x));
    }
  }

  lemma OneMore(n: nat, w: nat)
    requires n > 0
    ensures (n - 1) * w + w == n * w
  {
  }

  lemma FixedCodesDecodable()
    ensures Decodable(FixedLengths()) && Decodable(FixedDistances())
  {
    var a := [] + Repeat(8, 144);
    var b := a + Repeat(9, 112);
    var c := b + Repeat(7, 24);
    assert FixedLengths() == c + Repeat(8, 8);
    assert FixedDistances() == [] + Repeat(5, 32);
    Pow2Values();
    hide Kraft, Pow2;
    KraftEmpty();
    KraftRepeat([], 8, 144);
    KraftRepeat(a, 9, 112);
    KraftRepeat(b, 7, 24);
    KraftRepeat(c, 8, 8);
    KraftRepeat([], 5, 32);
  }

  lemma KraftEmpty()
    ensures Kraft([]) == 0
  {
  }

  // ----- the order of the code length code

  const ORDER_INVERSE: seq<nat> := [3, 17, 15, 13, 11, 9, 7, 5, 4, 6, 8, 10, 12, 14, 16, 18, 0, 1, 2]

  lemma OrderInjective(k: nat)
    requires k < 19
    ensures CODE_LENGTH_ORDER[k] < 19 && ORDER_INVERSE[CODE_LENGTH_ORDER[k]] == k
  {
  }

  lemma CodeLengthFieldIs(data: seq<Byte>, p: nat, n: nat, s: nat)
    requires n <= 19 && s < 19
    ensures CodeLengthField(data, p, n, s) ==
            var k := ORDER_INVERSE[s]; if k < n then Peek(data, p + 3 * k, 3) else 0
  {
    hide Peek, Pow2;
    OrderSurjective(s);
    forall k: nat | k < 19 && CODE_LENGTH_ORDER[k] == s
      ensures ORDER_INVERSE[s] == k
    {
      OrderInjective(k);
    }
  }

  lemma OrderSurjective(s: nat)
    requires s < 19
    ensures ORDER_INVERSE[s] < 19 && CODE_LENGTH_ORDER[ORDER_INVERSE[s]] == s
  {
  }

  lemma CodeLengthCodeStep(data: seq<Byte>, p: nat, n: nat)
    requires n < 19
    ensures CODE_LENGTH_ORDER[n] < 19 && Peek(data, p + 3 * n, 3) <= 15
    ensures CodeLengthCode(data, p, n + 1) ==
            CodeLengthCode(data, p, n)[CODE_LENGTH_ORDER[n] := Peek(data, p + 3 * n, 3)]
  {
    Pow2Values();
    hide Peek, Pow2, CodeLengthField;
    OrderInjective(n);
    var more, same := CodeLengthCode(data, p, n + 1), CodeLengthCode(data, p, n);
    var next := same[CODE_LENGTH_ORDER[n] := Peek(data, p + 3 * n, 3)];
    forall s: nat | s < 19
      ensures more[s] == next[s]
    {
      CodeLengthFieldIs(data, p, n, s);
      CodeLengthFieldIs(data, p, n + 1, s);
      OrderSurjective(s);
      assert more[s] == CodeLengthField(data, p, n + 1, s) && same[s] == CodeLengthField(data, p, n, s);
    }
    assert more == next;
  }
}
