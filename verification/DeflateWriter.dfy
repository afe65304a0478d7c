/** A writer of compressed DEFLATE streams, as the partner of the decoder: fixed blocks, and dynamic
    blocks with any codes, any code length code and any run-length coding of their lengths. What
    it writes comes back. */
module DeflateWriter {
  import opened Bits
  import opened BitStream
  import opened BitWriter
  import opened CanonicalCode
  import opened Deflate
  import opened FixedCode
  import opened ZlibReader

  // ----- symbols

  /** lens has a code for symbol s. */
  predicate HasCode(lens: Lengths, s: nat) {
    s < |lens| && lens[s] > 0
  }

  function SymbolBits(lens: Lengths, s: nat): (bits: seq<Bit>)
    requires HasCode(lens, s)
    ensures |bits| == lens[s]
  {
    CodeBits(CodeOf(lens, s), lens[s])
  }

  lemma ReadSymbol(lens: Lengths, data: seq<Byte>, p: nat, s: nat)
    requires Decodable(lens) && HasCode(lens, s) && Written(data, p, SymbolBits(lens, s))
    ensures NextSymbol(lens, data, p) == Got(s, p + lens[s])
  {
    hide CodeOf, CodeBits, CodeAt, Written, NextSymbol, Decodable;
    CodeFits(lens, s);
    ReadCode(data, p, CodeOf(lens, s), lens[s]);
    NextSymbolIs(lens, data, p, s);
  }

  // ----- lengths and distances

  /** A number as its leading bits, fewer than `base` in value, and the e bits after them. */
  datatype Split = Split(e: nat, top: nat, rest: nat)

  function SplitOf(v: nat, base: nat): (r: Split)
    requires base > 0
    ensures r.rest < Pow2(r.e) && v == r.top * Pow2(r.e) + r.rest
    ensures r.top < base && (r.e > 0 ==> 2 * r.top >= base - 1)
  {
    if v < base then Split(0, v, 0)
    else
      var h := SplitOf(v / 2, base);
      Doubled(h.top, Pow2(h.e), h.rest, v);
      Split(h.e + 1, h.top, 2 * h.rest + v % 2)
  }

  lemma Doubled(t: nat, w: nat, r: nat, v: nat)
    requires v / 2 == t * w + r
    ensures v == t * (2 * w) + (2 * r + v % 2)
  {
    assert t * (2 * w) == 2 * (t * w);
  }

  lemma {:induction false} SplitBound(v: nat, base: nat, k: nat)
    requires base > 0 && v < Shl(base, k)
    ensures SplitOf(v, base).e <= k
    decreases k
  {
    if v >= base {
      SplitBound(v / 2, base, k - 1);
    }
  }

  /** The length symbol, with the bits to follow it. */
  function LengthSymbol(len: nat): (nat, seq<Bit>)
    requires 3 <= len <= 258
  {
    if len == 258 then (285, []) else
    var r := SplitOf(len - 3, 8);
    (257 + 4 * r.e + r.top, Element(r.rest, r.e))
  }

  function DistanceSymbol(dist: nat): (nat, seq<Bit>)
    requires 1 <= dist <= 32768
  {
    var r := SplitOf(dist - 1, 4);
    (2 * r.e + r.top, Element(r.rest, r.e))
  }

  lemma {:induction false} LengthRule(e: nat, t: nat)
    requires e <= 5 && t < 8 && (e > 0 ==> t >= 4)
    ensures var s := 257 + 4 * e + t; LengthExtra(s) == e && LengthBase(s) == 3 + t * Pow2(e)
    decreases e, t
  {
    if e == 0 {
      if t > 0 {
        LengthRule(0, t - 1);
      }
    } else if t == 4 {
      LengthRule(e - 1, 7);
    } else {
      LengthRule(e, t - 1);
      assert (t - 1) * Pow2(e) + Pow2(e) == t * Pow2(e);
    }
  }

  lemma {:induction false} DistanceRule(e: nat, t: nat)
    requires e <= 13 && t < 4 && (e > 0 ==> t >= 2)
    ensures var s := 2 * e + t; DistExtra(s) == e && DistBase(s) == 1 + t * Pow2(e)
    decreases e, t
  {
    if e == 0 {
      if t > 0 {
        DistanceRule(0, t - 1);
      }
    } else if t == 2 {
      DistanceRule(e - 1, 3);
    } else {
      DistanceRule(e, t - 1);
      assert (t - 1) * Pow2(e) + Pow2(e) == t * Pow2(e);
    }
  }

  // ----- tokens

  /** A literal, or a match that the format can express. */
  predicate Expressible(t: Token) {
    t.Literal? || (t.Match? && 3 <= t.len <= 258 && 1 <= t.dist <= 32768)
  }

  /** The codes cover what the token needs. */
  predicate Covered(lit: Lengths, dist: Lengths, t: Token)
    requires Expressible(t)
  {
    if t.Literal? then HasCode(lit, t.b)
    else HasCode(lit, LengthSymbol(t.len).0) && HasCode(dist, DistanceSymbol(t.dist).0)
  }

  function TokenBits(lit: Lengths, dist: Lengths, t: Token): seq<Bit>
    requires Expressible(t) && Covered(lit, dist, t)
  {
    if t.Literal? then SymbolBits(lit, t.b)
    else
      var (l, le) := LengthSymbol(t.len);
      var (d, de) := DistanceSymbol(t.dist);
      SymbolBits(lit, l) + (le + (SymbolBits(dist, d) + de))
  }

  lemma ReadLength(data: seq<Byte>, p: nat, len: nat)
    requires 3 <= len <= 258 && Written(data, p, LengthSymbol(len).1)
    ensures var (l, le) := LengthSymbol(len);
            257 <= l <= 285 && |le| == LengthExtra(l) && len == LengthBase(l) + Peek(data, p, LengthExtra(l))
  {
    hide Written, Element, Peek, Pow2, SplitOf, LengthBase, LengthExtra;
    if len == 258 {
      Last258(data, p);
    } else {
      var r := SplitOf(len - 3, 8);
      Shifted();
      SplitBound(len - 3, 8, 5);
      LengthRule(r.e, r.top);
      ReadElement(data, p, r.rest, r.e);
    }
  }

  lemma Last258(data: seq<Byte>, p: nat)
    ensures LengthBase(285) == 258 && LengthExtra(285) == 0 && Peek(data, p, 0) == 0
  {
  }

  lemma Shifted()
    ensures Shl(8, 5) == 256 && Shl(4, 13) == 32768
  {
    Pow2Values();
    hide Pow2, Shl;
    ShlMul(8, 5);
    ShlMul(4, 13);
  }

  lemma ReadDistanceBits(data: seq<Byte>, p: nat, dist: nat)
    requires 1 <= dist <= 32768 && Written(data, p, DistanceSymbol(dist).1)
    ensures var (d, de) := DistanceSymbol(dist);
            d <= 29 && |de| == DistExtra(d) && dist == DistBase(d) + Peek(data, p, DistExtra(d))
  {
    hide Written, Element, Peek, Pow2, SplitOf, DistBase, DistExtra;
    var r := SplitOf(dist - 1, 4);
    Shifted();
    SplitBound(dist - 1, 4, 13);
    DistanceRule(r.e, r.top);
    ReadElement(data, p, r.rest, r.e);
  }

  /** A token written is the token read. */
  lemma ReadToken(lit: Lengths, dist: Lengths, data: seq<Byte>, p: nat, t: Token)
    requires Expressible(t) && Covered(lit, dist, t) && Decodable(lit) && (t.Match? ==> Decodable(dist))
    requires Written(data, p, TokenBits(lit, dist, t))
    ensures NextToken(lit, dist, data, p) == Got(t, p + |TokenBits(lit, dist, t)|)
  {
    hide Written, Peek, NextSymbol, SymbolBits, LengthSymbol, DistanceSymbol, LengthBase, LengthExtra, DistBase, DistExtra, Decodable;
    if t.Literal? {
      ReadSymbol(lit, data, p, t.b);
    } else {
      var (l, le) := LengthSymbol(t.len);
      var (d, de) := DistanceSymbol(t.dist);
      WrittenSplit(data, p, SymbolBits(lit, l), le + (SymbolBits(dist, d) + de));
      ReadSymbol(lit, data, p, l);
      var q := p + lit[l];
      WrittenSplit(data, q, le, SymbolBits(dist, d) + de);
      ReadLength(data, q, t.len);
      var r := q + |le|;
      WrittenSplit(data, r, SymbolBits(dist, d), de);
      ReadSymbol(dist, data, r, d);
      ReadDistanceBits(data, r + dist[d], t.dist);
    }
  }

  /** What tokens stand for, after what is already out. */
  predicate Sound(out: seq<Byte>, tokens: seq<Token>)
    decreases |tokens|
  {
    tokens == [] ||
    (Expressible(tokens[0]) && (tokens[0].Match? ==> tokens[0].dist <= |out|) && Sound(After(out, tokens[0]), tokens[1..]))
  }

  function After(out: seq<Byte>, t: Token): seq<Byte>
    requires Expressible(t) && (t.Match? ==> t.dist <= |out|)
  {
    if t.Literal? then out + [t.b] else Copy(out, t.len, t.dist)
  }

  function Expand(out: seq<Byte>, tokens: seq<Token>): seq<Byte>
    requires Sound(out, tokens)
    decreases |tokens|
  {
    if tokens == [] then out else Expand(After(out, tokens[0]), tokens[1..])
  }

  predicate AllCovered(lit: Lengths, dist: Lengths, tokens: seq<Token>) {
    HasCode(lit, 256) && forall i :: 0 <= i < |tokens| ==> Expressible(tokens[i]) && Covered(lit, dist, tokens[i])
  }

  /** The tokens and the end of the block. */
  function BlockBits(lit: Lengths, dist: Lengths, tokens: seq<Token>): seq<Bit>
    requires AllCovered(lit, dist, tokens)
  {
    if tokens == [] then SymbolBits(lit, 256)
    else TokenBits(lit, dist, tokens[0]) + BlockBits(lit, dist, tokens[1..])
  }

  lemma {:induction false} ReadBlock(lit: Lengths, dist: Lengths, data: seq<Byte>, p: nat, out: seq<Byte>, tokens: seq<Token>)
    requires Decodable(lit) && Decodable(dist) && AllCovered(lit, dist, tokens) && Sound(out, tokens)
    requires Written(data, p, BlockBits(lit, dist, tokens))
    ensures Block(lit, dist, data, p, out) == Done(Expand(out, tokens), p + |BlockBits(lit, dist, tokens)|)
    decreases |tokens|
  {
    hide Written, Peek, NextSymbol, SymbolBits, TokenBits, Decodable, Covered, Expressible, Copy, Block;
    BlockUnfold(lit, dist, data, p, out);
    if tokens == [] {
      ReadSymbol(lit, data, p, 256);
    } else {
      var t := tokens[0];
      var bits := TokenBits(lit, dist, t);
      WrittenSplit(data, p, bits, BlockBits(lit, dist, tokens[1..]));
      ReadToken(lit, dist, data, p, t);
      ExpressibleKind(t);
      ReadBlock(lit, dist, data, p + |bits|, After(out, t), tokens[1..]);
    }
  }

  lemma ExpressibleKind(t: Token)
    requires Expressible(t)
    ensures t.Literal? || (t.Match? && t.dist >= 1)
  {
  }

  // ----- the header of a dynamic block

  /** The symbol whose length the k-th 3-bit field holds: 16, 17, 18 and 0; then 8, 7, 9, 6 and so
      on, outwards to 15. */
  function FieldSymbol(k: nat): (s: nat)
    requires k < 19
    ensures s < 19
  {
    if k < 3 then 16 + k
    else if k == 3 then 0
    else if k % 2 == 0 then 8 + (k - 4) / 2
    else 7 - (k - 5) / 2
  }

  function FieldPlace(s: nat): (k: nat)
    requires s < 19
    ensures k < 19
  {
    if s >= 16 then s - 16
    else if s == 0 then 3
    else if s >= 8 then 4 + 2 * (s - 8)
    else 5 + 2 * (7 - s)
  }

  lemma FieldOrder(k: nat)
    requires k < 19
    ensures CODE_LENGTH_ORDER[k] == FieldSymbol(k) && FieldPlace(FieldSymbol(k)) == k
  {
  }

  lemma PlaceOrder(s: nat)
    requires s < 19
    ensures ORDER_INVERSE[s] == FieldPlace(s) && FieldSymbol(FieldPlace(s)) == s
  {
  }

  function FieldBits(cl: Lengths, n: nat): (bits: seq<Bit>)
    requires |cl| == 19 && n <= 19
    ensures |bits| == 3 * n
  {
    if n == 0 then [] else FieldBits(cl, n - 1) + Element(cl[FieldSymbol(n - 1)], 3)
  }

  /** A code length code that the first n fields can express. */
  predicate CodeLengths(cl: Lengths, n: nat) {
    && |cl| == 19 && 4 <= n <= 19 && Decodable(cl) && (forall s :: 0 <= s < 19 ==> cl[s] <= 7)
    && forall s: nat :: s < 19 && FieldPlace(s) >= n ==> cl[s] == 0
  }

  lemma {:induction false} ReadField(cl: Lengths, n: nat, data: seq<Byte>, p: nat, k: nat)
    requires |cl| == 19 && k < n <= 19 && (forall s :: 0 <= s < 19 ==> cl[s] <= 7) && Written(data, p, FieldBits(cl, n))
    ensures Peek(data, p + 3 * k, 3) == cl[FieldSymbol(k)]
    decreases n
  {
    hide Written, Peek, Element, FieldSymbol;
    var last := cl[FieldSymbol(n - 1)];
    WrittenSplit(data, p, FieldBits(cl, n - 1), Element(last, 3));
    if k == n - 1 {
      Pow2Values();
      ReadElement(data, p + 3 * k, last, 3);
    } else {
      ReadField(cl, n - 1, data, p, k);
    }
  }

  lemma ReadCodeLengths(cl: Lengths, n: nat, data: seq<Byte>, p: nat)
    requires CodeLengths(cl, n) && Written(data, p, FieldBits(cl, n))
    ensures CodeLengthCode(data, p, n) == cl
  {
    hide Written, Peek, Decodable, FieldPlace, FieldSymbol, CodeLengthField, FieldBits;
    forall s: nat | s < 19
      ensures CodeLengthField(data, p, n, s) == cl[s]
    {
      CodeLengthFieldIs(data, p, n, s);
      PlaceOrder(s);
      if FieldPlace(s) < n {
        ReadField(cl, n, data, p, FieldPlace(s));
      }
    }
  }

  /** How code lengths may be put: one by one, the last one 3 to 6 times more, or 3 to 10 or 11 to
      138 zeros. */
  datatype Lens = Plain(l: nat) | Again(n: nat) | FewZeros(n: nat) | ManyZeros(n: nat)

  function LensSymbol(x: Lens): nat {
    match x
    case Plain(l) => l
    case Again(_) => 16
    case FewZeros(_) => 17
    case ManyZeros(_) => 18
  }

  predicate LegalLens(cl: Lengths, acc: Lengths, x: Lens) {
    && HasCode(cl, LensSymbol(x))
    && match x
       case Plain(l) => l <= 15
       case Again(n) => 3 <= n <= 6 && acc != []
       case FewZeros(n) => 3 <= n <= 10
       case ManyZeros(n) => 11 <= n <= 138
  }

  function MoreLens(acc: Lengths, x: Lens): (r: Lengths)
    requires (x.Plain? ==> x.l <= 15) && (x.Again? ==> acc != [])
  {
    match x
    case Plain(l) => acc + [l]
    case Again(n) => acc + seq(n, _ => acc[|acc| - 1])
    case FewZeros(n) => acc + seq(n, _ => 0)
    case ManyZeros(n) => acc + seq(n, _ => 0)
  }

  function LensBits(cl: Lengths, x: Lens): seq<Bit>
    requires HasCode(cl, LensSymbol(x))
    requires (x.Again? || x.FewZeros? ==> x.n >= 3) && (x.ManyZeros? ==> x.n >= 11)
  {
    SymbolBits(cl, LensSymbol(x)) +
    match x
    case Plain(_) => []
    case Again(n) => Element(n - 3, 2)
    case FewZeros(n) => Element(n - 3, 3)
    case ManyZeros(n) => Element(n - 11, 7)
  }

  /** The list xs puts the lengths `all`, of which acc are done. */
  predicate Puts(cl: Lengths, acc: Lengths, xs: seq<Lens>, all: Lengths)
    decreases |xs|
  {
    if xs == [] then acc == all
    else LegalLens(cl, acc, xs[0]) && Puts(cl, MoreLens(acc, xs[0]), xs[1..], all)
  }

  function AllLensBits(cl: Lengths, acc: Lengths, xs: seq<Lens>, all: Lengths): seq<Bit>
    requires Puts(cl, acc, xs, all)
    decreases |xs|
  {
    if xs == [] then []
    else LensBits(cl, xs[0]) + AllLensBits(cl, MoreLens(acc, xs[0]), xs[1..], all)
  }

  lemma {:induction false} PutsGrows(cl: Lengths, acc: Lengths, xs: seq<Lens>, all: Lengths)
    requires Puts(cl, acc, xs, all)
    ensures |acc| + |xs| <= |all|
    decreases |xs|
  {
    if xs != [] {
      PutsGrows(cl, MoreLens(acc, xs[0]), xs[1..], all);
    }
  }

  /** One step of reading code lengths. */
  lemma ReadOne(cl: Lengths, data: seq<Byte>, p: nat, total: nat, acc: Lengths, x: Lens)
    requires Decodable(cl) && LegalLens(cl, acc, x) && |MoreLens(acc, x)| <= total
    requires Written(data, p, LensBits(cl, x))
    ensures ReadLengths(cl, data, p, total, acc) == ReadLengths(cl, data, p + |LensBits(cl, x)|, total, MoreLens(acc, x))
  {
    hide Written, Peek, Element, SymbolBits, NextSymbol, Decodable, Pow2;
    var s := LensSymbol(x);
    var q := p + cl[s];
    ReadLensSymbol(cl, data, p, x);
    Pow2Values();
    match x
    case Plain(_) =>
    case Again(n) =>
      ReadElement(data, q, n - 3, 2);
      assert Repeat(acc[|acc| - 1], n) == seq(n, _ => acc[|acc| - 1]);
    case FewZeros(n) =>
      ReadElement(data, q, n - 3, 3);
      assert Repeat(0, n) == seq(n, _ => 0);
    case ManyZeros(n) =>
      ReadElement(data, q, n - 11, 7);
      assert Repeat(0, n) == seq(n, _ => 0);
  }

  lemma ReadLensSymbol(cl: Lengths, data: seq<Byte>, p: nat, x: Lens)
    requires Decodable(cl) && HasCode(cl, LensSymbol(x)) && (x.Again? || x.FewZeros? ==> x.n >= 3) && (x.ManyZeros? ==> x.n >= 11)
    requires Written(data, p, LensBits(cl, x))
    ensures var q := p + cl[LensSymbol(x)];
            && NextSymbol(cl, data, p) == Got(LensSymbol(x), q)
            && (x.Again? ==> Written(data, q, Element(x.n - 3, 2)))
            && (x.FewZeros? ==> Written(data, q, Element(x.n - 3, 3)))
            && (x.ManyZeros? ==> Written(data, q, Element(x.n - 11, 7)))
  {
    hide Written, Element, SymbolBits, NextSymbol, Decodable;
    var bits := SymbolBits(cl, LensSymbol(x));
    WrittenSplit(data, p, bits, LensBits(cl, x)[|bits|..]);
    assert LensBits(cl, x) == bits + LensBits(cl, x)[|bits|..];
    ReadSymbol(cl, data, p, LensSymbol(x));
  }

  lemma {:induction false} ReadAllLens(cl: Lengths, data: seq<Byte>, p: nat, acc: Lengths, xs: seq<Lens>, all: Lengths)
    requires Decodable(cl) && Puts(cl, acc, xs, all) && Written(data, p, AllLensBits(cl, acc, xs, all))
    ensures ReadLengths(cl, data, p, |all|, acc) == Got(all, p + |AllLensBits(cl, acc, xs, all)|)
    decreases |xs|
  {
    hide Written, Decodable, LensBits, NextSymbol, ReadLengths, CanonicalCode.Kraft;
    PutsGrows(cl, acc, xs, all);
    if xs == [] {
      AllRead(cl, data, p, all);
    } else {
      var acc' := MoreLens(acc, xs[0]);
      PutsGrows(cl, acc', xs[1..], all);
      WrittenSplit(data, p, LensBits(cl, xs[0]), AllLensBits(cl, acc', xs[1..], all));
      ReadOne(cl, data, p, |all|, acc, xs[0]);
      ReadAllLens(cl, data, p + |LensBits(cl, xs[0])|, acc', xs[1..], all);
    }
  }

  lemma AllRead(cl: Lengths, data: seq<Byte>, p: nat, all: Lengths)
    ensures ReadLengths(cl, data, p, |all|, all) == Got(all, p)
  {
    hide NextSymbol;
  }

  /** A header: codes, code length code in n fields, and how the lengths are put. */
  datatype Header = Header(lit: Lengths, dist: Lengths, cl: Lengths, n: nat, xs: seq<Lens>)

  /** Whatever the codes are, they can be put in a header. */
  predicate Shaped(h: Header) {
    257 <= |h.lit| <= 288 && 1 <= |h.dist| <= 32 && CodeLengths(h.cl, h.n) && Puts(h.cl, [], h.xs, h.lit + h.dist)
  }

  predicate LegalHeader(h: Header) {
    Shaped(h) && Decodable(h.lit) && Decodable(h.dist)
  }

  function HeaderBits(h: Header): seq<Bit>
    requires Shaped(h)
  {
    Element(|h.lit| - 257, 5) + (Element(|h.dist| - 1, 5) + (Element(h.n - 4, 4) +
    (FieldBits(h.cl, h.n) + AllLensBits(h.cl, [], h.xs, h.lit + h.dist))))
  }

  /** Every header reads back as its codes, unless one of them has more codes than there is room
      for: then it is refused. */
  lemma ReadHeader(h: Header, data: seq<Byte>, p: nat)
    requires Shaped(h) && Written(data, p, HeaderBits(h))
    ensures DynamicCodes(data, p) ==
            if Decodable(h.lit) && Decodable(h.dist) then Got(Codes(h.lit, h.dist), p + |HeaderBits(h)|) else Invalid
  {
    hide Written, Element, Decodable, Peek, Pow2, FieldBits, AllLensBits, CodeLengthCode, ReadLengths, Puts;
    var lens := AllLensBits(h.cl, [], h.xs, h.lit + h.dist);
    var fields := FieldBits(h.cl, h.n);
    var count := Element(h.n - 4, 4);
    WrittenSplit(data, p, Element(|h.lit| - 257, 5), Element(|h.dist| - 1, 5) + (count + (fields + lens)));
    WrittenSplit(data, p + 5, Element(|h.dist| - 1, 5), count + (fields + lens));
    WrittenSplit(data, p + 10, count, fields + lens);
    WrittenSplit(data, p + 14, fields, lens);
    Pow2Values();
    ReadElement(data, p, |h.lit| - 257, 5);
    ReadElement(data, p + 5, |h.dist| - 1, 5);
    ReadElement(data, p + 10, h.n - 4, 4);
    ReadCodeLengths(h.cl, h.n, data, p + 14);
    ReadAllLens(h.cl, data, p + 14 + 3 * h.n, [], h.xs, h.lit + h.dist);
    assert (h.lit + h.dist)[..|h.lit|] == h.lit && (h.lit + h.dist)[|h.lit|..] == h.dist;
  }

  // ----- fixed blocks

  function TableBits(s: nat): seq<Bit>
    requires s < 288
  {
    CodeBits(TableCode(s).0, TableCode(s).1)
  }

  lemma LengthSymbolBound(len: nat)
    requires 3 <= len <= 258
    ensures 257 <= LengthSymbol(len).0 <= 285
  {
    hide SplitOf;
    if len < 258 {
      Shifted();
      SplitBound(len - 3, 8, 5);
    }
  }

  lemma DistanceSymbolBound(dist: nat)
    requires 1 <= dist <= 32768
    ensures DistanceSymbol(dist).0 <= 29
  {
    hide SplitOf;
    Shifted();
    SplitBound(dist - 1, 4, 13);
  }

  /** A token by the table of fixed codes; distance symbols in five bits. */
  function FixedTokenBits(t: Token): seq<Bit>
    requires Expressible(t)
  {
    if t.Literal? then TableBits(t.b)
    else
      var (l, le) := LengthSymbol(t.len);
      var (d, de) := DistanceSymbol(t.dist);
      LengthSymbolBound(t.len);
      TableBits(l) + (le + (CodeBits(d, 5) + de))
  }

  predicate AllExpressible(tokens: seq<Token>) {
    forall i :: 0 <= i < |tokens| ==> Expressible(tokens[i])
  }

  function FixedBits(tokens: seq<Token>): seq<Bit>
    requires AllExpressible(tokens)
  {
    if tokens == [] then TableBits(256) else FixedTokenBits(tokens[0]) + FixedBits(tokens[1..])
  }

  lemma FixedToken(t: Token)
    requires Expressible(t)
    ensures Covered(FixedLengths(), FixedDistances(), t)
    ensures FixedTokenBits(t) == TokenBits(FixedLengths(), FixedDistances(), t)
  {
    hide CodeBits, LengthSymbol, DistanceSymbol, FixedLengths, FixedDistances, CodeOf, TableCode;
    if t.Literal? {
      FixedCodes(t.b);
      TableSizes(t.b);
    } else {
      LengthSymbolBound(t.len);
      DistanceSymbolBound(t.dist);
      FixedCodes(LengthSymbol(t.len).0);
      TableSizes(LengthSymbol(t.len).0);
      FixedDistanceCodes(DistanceSymbol(t.dist).0);
    }
  }

  lemma TableSizes(s: nat)
    requires s < 288
    ensures TableCode(s).1 > 0
  {
  }

  lemma {:induction false} FixedBlock(tokens: seq<Token>)
    requires AllExpressible(tokens)
    ensures AllCovered(FixedLengths(), FixedDistances(), tokens)
    ensures FixedBits(tokens) == BlockBits(FixedLengths(), FixedDistances(), tokens)
    decreases |tokens|
  {
    hide FixedTokenBits, TokenBits, FixedLengths, FixedDistances, Covered, CodeBits, CodeOf, TableCode;
    if tokens == [] {
      FixedCodes(256);
      TableSizes(256);
    } else {
      FixedToken(tokens[0]);
      FixedBlock(tokens[1..]);
      assert forall i :: 0 < i < |tokens| ==> tokens[i] == tokens[1..][i - 1];
    }
  }

  // ----- whole streams

  /** A block: tokens under the fixed codes, or under those of a header. */
  datatype Piece = Fixed(tokens: seq<Token>) | Dynamic(h: Header, tokens: seq<Token>)

  predicate LegalPiece(b: Piece) {
    if b.Fixed? then AllExpressible(b.tokens)
    else LegalHeader(b.h) && AllCovered(b.h.lit, b.h.dist, b.tokens)
  }

  function PieceBits(b: Piece, last: bool): seq<Bit>
    requires LegalPiece(b)
  {
    Element(if last then 1 else 0, 1) +
    if b.Fixed? then Element(1, 2) + FixedBits(b.tokens)
    else Element(2, 2) + (HeaderBits(b.h) + BlockBits(b.h.lit, b.h.dist, b.tokens))
  }

  lemma ReadKind(data: seq<Byte>, p: nat, last: bool, kind: nat, rest: seq<Bit>)
    requires kind < 4 && Written(data, p, Element(if last then 1 else 0, 1) + (Element(kind, 2) + rest))
    ensures Peek(data, p, 1) == (if last then 1 else 0) && Peek(data, p + 1, 2) == kind && Written(data, p + 3, rest)
  {
    hide Written, Element, Peek, Pow2;
    Pow2Values();
    WrittenSplit(data, p, Element(if last then 1 else 0, 1), Element(kind, 2) + rest);
    WrittenSplit(data, p + 1, Element(kind, 2), rest);
    ReadElement(data, p, if last then 1 else 0, 1);
    ReadElement(data, p + 1, kind, 2);
  }

  lemma ReadPiece(b: Piece, last: bool, data: seq<Byte>, p: nat, out: seq<Byte>)
    requires LegalPiece(b) && Sound(out, b.tokens) && Written(data, p, PieceBits(b, last))
    ensures Peek(data, p, 1) == if last then 1 else 0
    ensures AnyBlock(data, p, out) == Done(Expand(out, b.tokens), p + |PieceBits(b, last)|)
  {
    hide Written, Element, Peek, Block, DynamicCodes, FixedLengths, FixedDistances, HeaderBits, BlockBits, FixedBits, Shaped,
      AllCovered, AllExpressible, Sound, Expand, Decodable, Stored;
    if b.Fixed? {
      ReadKind(data, p, last, 1, FixedBits(b.tokens));
      FixedBlock(b.tokens);
      FixedCodesDecodable();
      ReadBlock(FixedLengths(), FixedDistances(), data, p + 3, out, b.tokens);
    } else {
      var header, tokens := HeaderBits(b.h), BlockBits(b.h.lit, b.h.dist, b.tokens);
      ReadKind(data, p, last, 2, header + tokens);
      WrittenSplit(data, p + 3, header, tokens);
      ReadHeader(b.h, data, p + 3);
      HeaderCodes(b.h);
      ReadBlock(b.h.lit, b.h.dist, data, p + 3 + |header|, out, b.tokens);
    }
  }

  lemma HeaderCodes(h: Header)
    requires LegalHeader(h)
    ensures Decodable(h.lit) && Decodable(h.dist)
  {
  }

  /** The blocks follow each other, and each match stays inside what is out. */
  predicate LegalStream(out: seq<Byte>, bs: seq<Piece>)
    decreases |bs|
  {
    bs == [] || (LegalPiece(bs[0]) && Sound(out, bs[0].tokens) && LegalStream(Expand(out, bs[0].tokens), bs[1..]))
  }

  function StreamBits(out: seq<Byte>, bs: seq<Piece>): seq<Bit>
    requires LegalStream(out, bs)
    decreases |bs|
  {
    if bs == [] then []
    else PieceBits(bs[0], |bs| == 1) + StreamBits(Expand(out, bs[0].tokens), bs[1..])
  }

  function ExpandAll(out: seq<Byte>, bs: seq<Piece>): seq<Byte>
    requires LegalStream(out, bs)
    decreases |bs|
  {
    if bs == [] then out else ExpandAll(Expand(out, bs[0].tokens), bs[1..])
  }

  /** Whatever is compressed, by matches and literals under any codes, comes back. */
  lemma {:induction false} CompressRoundTrip(bs: seq<Piece>, data: seq<Byte>, p: nat, out: seq<Byte>)
    requires bs != [] && LegalStream(out, bs) && Written(data, p, StreamBits(out, bs))
    ensures Inflate(data, p, out) == Done(ExpandAll(out, bs), p + |StreamBits(out, bs)|)
    decreases |bs|
  {
    hide Written, Inflate, AnyBlock, Peek, PieceBits, LegalPiece, Sound, Expand;
    var bits, next := PieceBits(bs[0], |bs| == 1), Expand(out, bs[0].tokens);
    InflateUnfold(data, p, out);
    WrittenSplit(data, p, bits, StreamBits(next, bs[1..]));
    ReadPiece(bs[0], |bs| == 1, data, p, out);
    if |bs| > 1 {
      CompressRoundTrip(bs[1..], data, p + |bits|, next);
    }
  }

  // ----- for any codes, and any bytes

  /** A code length code for all 19 symbols. */
  const EVERY: Lengths := seq(19, s => if s < 13 then 4 else 5)

  lemma EveryDecodable()
    ensures |EVERY| == 19 && Decodable(EVERY)
  {
    var a := [] + Repeat(4, 13);
    assert EVERY == a + Repeat(5, 6);
    Pow2Values();
    hide Kraft, Pow2;
    KraftEmpty();
    KraftRepeat([], 4, 13);
    KraftRepeat(a, 5, 6);
  }

  function OneByOne(lens: Lengths): (xs: seq<Lens>)
    ensures |xs| == |lens|
  {
    seq(|lens|, i requires 0 <= i < |lens| => Plain(lens[i]))
  }

  lemma {:induction false} PutsOneByOne(acc: Lengths, lens: Lengths)
    ensures Puts(EVERY, acc, OneByOne(lens), acc + lens)
    decreases |lens|
  {
    if lens == [] {
      assert acc + lens == acc;
    } else {
      PutsOneByOne(acc + [lens[0]], lens[1..]);
      assert OneByOne(lens)[1..] == OneByOne(lens[1..]);
      assert acc + [lens[0]] + lens[1..] == acc + lens;
    }
  }

  /** Any two decodable codes have a header. */
  lemma SomeHeader(lit: Lengths, dist: Lengths) returns (h: Header)
    requires 257 <= |lit| <= 288 && 1 <= |dist| <= 32 && Decodable(lit) && Decodable(dist)
    ensures LegalHeader(h) && h.lit == lit && h.dist == dist
  {
    hide Decodable, Puts;
    EveryDecodable();
    PutsOneByOne([], lit + dist);
    assert [] + (lit + dist) == lit + dist;
    h := Header(lit, dist, EVERY, 19, OneByOne(lit + dist));
  }

  function Literals(bytes: seq<Byte>): (tokens: seq<Token>)
    ensures |tokens| == |bytes| && forall i :: 0 <= i < |tokens| ==> tokens[i] == Literal(bytes[i])
  {
    seq(|bytes|, i requires 0 <= i < |bytes| => Literal(bytes[i]))
  }

  lemma {:induction false} LiteralsExpand(out: seq<Byte>, bytes: seq<Byte>)
    ensures Sound(out, Literals(bytes)) && Expand(out, Literals(bytes)) == out + bytes
    decreases |bytes|
  {
    if bytes == [] {
      assert out + bytes == out;
    } else {
      LiteralsExpand(out + [bytes[0]], bytes[1..]);
      assert Literals(bytes)[1..] == Literals(bytes[1..]);
      assert out + [bytes[0]] + bytes[1..] == out + bytes;
    }
  }

  /** Any bytes, as the literals of one fixed block, come back. */
  lemma LiteralsRoundTrip(bytes: seq<Byte>, data: seq<Byte>, p: nat)
    requires Written(data, p, Element(1, 1) + (Element(1, 2) + FixedBits(Literals(bytes))))
    ensures var r := Inflate(data, p, []); r.Done? && r.out == bytes
  {
    hide Written, Inflate, FixedBits, Element, Expand, Sound;
    var b := Fixed(Literals(bytes));
    LiteralsExpand([], bytes);
    assert [] + bytes == bytes;
    assert [b][1..] == [];
    OneBlock(b, []);
    CompressRoundTrip([b], data, p, []);
  }

  lemma OneBlock(b: Piece, out: seq<Byte>)
    requires LegalPiece(b) && Sound(out, b.tokens)
    ensures LegalStream(out, [b]) && StreamBits(out, [b]) == PieceBits(b, true)
    ensures ExpandAll(out, [b]) == Expand(out, b.tokens)
  {
    hide PieceBits, LegalPiece, Sound, Expand;
    assert [b][1..] == [];
    assert PieceBits(b, true) + [] == PieceBits(b, true);
  }

  // ----- what is refused

  /** A block of the reserved kind 3. */
  lemma KindThreeRefused(data: seq<Byte>, p: nat, last: bool, rest: seq<Bit>, out: seq<Byte>)
    requires Written(data, p, Element(if last then 1 else 0, 1) + (Element(3, 2) + rest))
    ensures Inflate(data, p, out) == Corrupt
  {
    hide Inflate, Written, Element, Peek, Stored, Block, DynamicCodes, FixedLengths, FixedDistances;
    ReadKind(data, p, last, 3, rest);
    InflateUnfold(data, p, out);
  }

  /** A dynamic block whose codes are too many for their lengths. */
  lemma OverfullRefused(data: seq<Byte>, p: nat, last: bool, h: Header, rest: seq<Bit>, out: seq<Byte>)
    requires Shaped(h) && !(Decodable(h.lit) && Decodable(h.dist))
    requires Written(data, p, Element(if last then 1 else 0, 1) + (Element(2, 2) + (HeaderBits(h) + rest)))
    ensures Inflate(data, p, out) == Corrupt
  {
    hide Inflate, Written, Element, Peek, Stored, Block, DynamicCodes, FixedLengths, FixedDistances, HeaderBits, Shaped, Decodable;
    ReadKind(data, p, last, 2, HeaderBits(h) + rest);
    WrittenSplit(data, p + 3, HeaderBits(h), rest);
    ReadHeader(h, data, p + 3);
    InflateUnfold(data, p, out);
  }

  /** A match that reaches back before the output. */
  lemma FarMatchRefused(lit: Lengths, dist: Lengths, data: seq<Byte>, p: nat, t: Token, out: seq<Byte>)
    requires Expressible(t) && t.Match? && t.dist > |out| && Covered(lit, dist, t) && Decodable(lit) && Decodable(dist)
    requires Written(data, p, TokenBits(lit, dist, t))
    ensures Block(lit, dist, data, p, out) == Corrupt
  {
    hide Written, Block, NextToken, TokenBits, Covered, Decodable;
    ReadToken(lit, dist, data, p, t);
    BlockUnfold(lit, dist, data, p, out);
  }

  /** A repeated length where there is none before it, and more lengths than there are to be. */
  lemma BadRunRefused(cl: Lengths, data: seq<Byte>, p: nat, total: nat, acc: Lengths, x: Lens)
    requires Decodable(cl) && HasCode(cl, LensSymbol(x)) && |acc| < total
    requires match x
             case Plain(_) => false
             case Again(n) => 3 <= n <= 6 && (acc == [] || |acc| + n > total)
             case FewZeros(n) => 3 <= n <= 10 && |acc| + n > total
             case ManyZeros(n) => 11 <= n <= 138 && |acc| + n > total
    requires Written(data, p, LensBits(cl, x))
    ensures ReadLengths(cl, data, p, total, acc) == Invalid
  {
    hide Written, Peek, Element, SymbolBits, NextSymbol, Decodable, Pow2;
    var q := p + cl[LensSymbol(x)];
    ReadLensSymbol(cl, data, p, x);
    Pow2Values();
    match x
    case Again(n) => ReadElement(data, q, n - 3, 2);
    case FewZeros(n) => ReadElement(data, q, n - 3, 3);
    case ManyZeros(n) => ReadElement(data, q, n - 11, 7);
    case Plain(_) =>
  }

  // ----- zlib streams

  /** The two bytes of a zlib header (section 2.2 of RFC 1950): method 8, the window size, no
      preset dictionary, a compression level, and the check bits that make it a multiple of 31. */
  function ZlibBytes(cinfo: nat, level: nat): (h: seq<Byte>)
    requires cinfo < 16 && level < 4
    ensures |h| == 2
  {
    var cmf := 8 + 16 * cinfo;
    var check := (256 * cmf + 64 * level) % 31;
    [cmf, 64 * level + (if check == 0 then 0 else 31 - check)]
  }

  lemma ZlibBytesAccepted(cinfo: nat, level: nat, rest: seq<Byte>)
    requires cinfo < 16 && level < 4 && rest != []
    ensures ZlibHeader(ZlibBytes(cinfo, level) + rest)
  {
    hide And, BitOf;
    var h := ZlibBytes(cinfo, level);
    Multiple31(8 + 16 * cinfo, level);
    FlagBit(h[1]);
    LevelBits(level, h[1] - 64 * level);
  }

  lemma Multiple31(cmf: nat, level: nat)
    ensures var check := (256 * cmf + 64 * level) % 31;
            (cmf * 256 + (64 * level + (if check == 0 then 0 else 31 - check))) % 31 == 0
  {
  }

  /** The flag is bit 5. */
  lemma FlagBit(flg: nat)
    ensures And(flg, 32) == 32 * BitOf(flg, 5)
  {
    hide And, BitOf, Pow2;
    Pow2Values();
    AndPow2(flg, 5);
  }

  lemma {:induction false} AndPow2(v: nat, i: nat)
    ensures And(v, Pow2(i)) == BitOf(v, i) * Pow2(i)
  {
    if v == 0 {
      BitOfZero(i);
    } else if i > 0 {
      AndPow2(v / 2, i - 1);
    } else {
      AndZero(v / 2);
    }
  }

  lemma AndZero(v: nat)
    ensures And(v, 0) == 0
  {
  }

  lemma LevelBits(level: nat, check: nat)
    requires level < 4 && check < 31
    ensures BitOf(64 * level + check, 5) == 0
  {
    hide Shr, Pow2;
    var v := 64 * level + check;
    Pow2Values();
    ShrDiv(v, 5);
    BitOfShr(v, 5, 0);
  }

  function ZlibStream(cinfo: nat, level: nat, bs: seq<Piece>, checksum: seq<Byte>): seq<Byte>
    requires cinfo < 16 && level < 4 && LegalStream([], bs)
  {
    ZlibBytes(cinfo, level) + Bytes(StreamBits([], bs)) + checksum
  }

  lemma ZlibRoundTrip(cinfo: nat, level: nat, bs: seq<Piece>, checksum: seq<Byte>)
    requires cinfo < 16 && level < 4 && bs != [] && LegalStream([], bs) && |checksum| == 4
    ensures var data := ZlibStream(cinfo, level, bs, checksum);
            ZlibHeader(data) && var r := Inflate(data, 16, []);
            r.Done? && r.out == ExpandAll([], bs) && r.p + 16 <= 8 * |data|
  {
    hide ZlibHeader, ZlibBytes, Inflate, Written, LegalStream, StreamBits, Bytes, ExpandAll;
    var bits := StreamBits([], bs);
    var body := Bytes(bits);
    var data := ZlibStream(cinfo, level, bs, checksum);
    assert data == ZlibBytes(cinfo, level) + (body + checksum);
    ZlibBytesAccepted(cinfo, level, body + checksum);
    assert data[2..2 + |body|] == body;
    BytesWritten(data, 2, bits);
    CompressRoundTrip(bs, data, 16, []);
    BytesSize(bits);
  }

  /** The reader itself returns what was compressed, from any zlib stream of fixed and dynamic
      blocks whose output fits. */
  method DecodeCompressed(cinfo: nat, level: nat, bs: seq<Piece>, checksum: seq<Byte>, obuf: array<Byte>, exp: bool)
    returns (z: ZBuf)
    requires cinfo < 16 && level < 4 && bs != [] && LegalStream([], bs) && |checksum| == 4
    requires 0 < obuf.Length <= UINT_MAX
    requires |ExpandAll([], bs)| <= if exp then 0x7FFF_FFFF else obuf.Length
    modifies obuf
    ensures z.zout <= z.buf.Length && z.Out() == ExpandAll([], bs)
  {
    hide LegalStream, ExpandAll, ZlibStream, Inflate, ZlibHeader, Peek;
    var data := ZlibStream(cinfo, level, bs, checksum);
    ZlibRoundTrip(cinfo, level, bs, checksum);
    z := new ZBuf(data, obuf, exp);
    var ok, _ := z.ParseZlib(true);
  }
}
