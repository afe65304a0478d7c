/** The table-driven Huffman decoder of the zlib reader: building the tables from code
    lengths, the 9-bit fast table and the slow path behind it. */
module ZHuffman {
  import opened Bits
  import opened BitReverse
  import opened CanonicalCode

  const FAST_BITS: nat := 9
  const MAX_SYMBOLS: nat := 288

  datatype Tables = Tables(fast: seq<nat>, firstcode: seq<nat>, maxcode: seq<nat>,
                           firstsymbol: seq<nat>, size: seq<nat>, value: seq<nat>)

  predicate Shape(z: Tables) {
    |z.fast| == 512 && |z.firstcode| == 16 && |z.maxcode| == 17 && |z.firstsymbol| == 16 &&
    |z.size| == MAX_SYMBOLS && |z.value| == MAX_SYMBOLS
  }

  /** Number of symbols with a shorter, nonzero length. */
  function FirstSymbol(lens: Lengths, l: nat): nat {
    if l <= 1 then 0 else FirstSymbol(lens, l - 1) + BlCount(lens, l - 1)
  }

  /** Position of symbol i in the list sorted by (length, symbol). */
  function Slot(lens: Lengths, i: nat): nat
    requires i < |lens|
  {
    FirstSymbol(lens, lens[i]) + Rank(lens, i)
  }

  /** What one entry of the fast table says about the first n symbols: the symbol whose code,
      of at most 9 bits, starts the window j; or 0 when there is none. */
  ghost predicate FastEntry(lens: Lengths, n: nat, j: nat, e: nat) {
    if e != 0 then
      e % 512 < n && 0 < e / 512 <= FAST_BITS && Matches(lens, e % 512, j) && lens[e % 512] == e / 512
    else
      forall i: nat :: i < n && i < |lens| && lens[i] <= FAST_BITS ==> !Matches(lens, i, j)
  }

  ghost predicate LengthTables(z: Tables, lens: Lengths)
    requires Shape(z)
  {
    z.maxcode[16] == 0x10000 &&
    forall l: nat :: 1 <= l <= 15 ==>
      && z.firstcode[l] == FirstCode(lens, l)
      && z.firstsymbol[l] == FirstSymbol(lens, l)
      && z.maxcode[l] == Start(lens, l + 1)
  }

  ghost predicate SymbolTables(size: seq<nat>, value: seq<nat>, lens: Lengths, n: nat)
    requires |size| == |value| == MAX_SYMBOLS && n <= |lens|
  {
    forall i: nat :: i < n && lens[i] > 0 ==>
      Slot(lens, i) < MAX_SYMBOLS && size[Slot(lens, i)] == lens[i] && value[Slot(lens, i)] == i
  }

  ghost predicate FastTable(fast: seq<nat>, lens: Lengths, n: nat)
    requires |fast| == 512
  {
    forall j: nat :: j < 512 ==> FastEntry(lens, n, j, fast[j])
  }

  /** z holds the decoding tables of the canonical code with these lengths. */
  ghost predicate TablesFor(z: Tables, lens: Lengths) {
    && Shape(z) && Decodable(lens)
    && LengthTables(z, lens)
    && SymbolTables(z.size, z.value, lens, |lens|)
    && FastTable(z.fast, lens, |lens|)
  }

  // ----- slots

  lemma {:induction false} FirstSymbolMono(lens: Lengths, a: nat, b: nat)
    requires a <= b
    ensures FirstSymbol(lens, a) <= FirstSymbol(lens, b)
  {
    if a < b {
      FirstSymbolMono(lens, a, b - 1);
    }
  }

  lemma {:induction false} FirstSymbolAppend(lens: Lengths, x: nat, l: nat)
    requires x <= 15
    ensures FirstSymbol(lens + [x], l) == FirstSymbol(lens, l) + (if 0 < x < l then 1 else 0)
  {
    if l > 1 {
      FirstSymbolAppend(lens, x, l - 1);
      CountAppend(lens, x, l - 1);
    }
  }

  lemma {:induction false} FirstSymbolBound(lens: Lengths, l: nat)
    ensures FirstSymbol(lens, l) <= |lens|
  {
    if |lens| == 0 {
      FirstSymbolEmpty(l);
    } else {
      var init, x := lens[..|lens| - 1], lens[|lens| - 1];
      FirstSymbolBound(init, l);
      FirstSymbolAppend(init, x, l);
      assert lens == init + [x];
    }
  }

  lemma {:induction false} FirstSymbolEmpty(l: nat)
    ensures FirstSymbol([], l) == 0
  {
    if l > 1 {
      FirstSymbolEmpty(l - 1);
    }
  }

  lemma SlotBound(lens: Lengths, i: nat)
    requires i < |lens| && lens[i] > 0
    ensures FirstSymbol(lens, lens[i]) <= Slot(lens, i) < FirstSymbol(lens, lens[i] + 1)
    ensures Slot(lens, i) < |lens|
  {
    RankBound(lens, i);
    FirstSymbolBound(lens, lens[i] + 1);
  }

  lemma SlotInjective(lens: Lengths, i: nat, j: nat)
    requires i < |lens| && j < |lens| && lens[i] > 0 && lens[j] > 0
    ensures Slot(lens, i) == Slot(lens, j) ==> i == j
  {
    SlotBound(lens, i);
    SlotBound(lens, j);
    if lens[i] == lens[j] {
      RankInjective(lens, i, j);
    } else if lens[i] < lens[j] {
      FirstSymbolMono(lens, lens[i] + 1, lens[j]);
    } else {
      FirstSymbolMono(lens, lens[j] + 1, lens[i]);
    }
  }

  // ----- building

  /** First pass: how many symbols have each length, with length 0 not counted. */
  method CountSizes(lens: Lengths) returns (sizes: seq<nat>)
    ensures |sizes| == 17
    ensures forall l: nat :: l <= 15 ==> sizes[l] == BlCount(lens, l)
  {
    sizes := seq(17, _ => 0);
    for i := 0 to |lens|
      invariant |sizes| == 17
      invariant forall l: nat :: l <= 15 ==> sizes[l] == Count(lens[..i], l)
    {
      forall l: nat | l <= 15
        ensures Count(lens[..i + 1], l) == Count(lens[..i], l) + (if lens[i] == l then 1 else 0)
      {
        CountStep(lens, i, l);
      }
      sizes := sizes[lens[i] := sizes[lens[i]] + 1];
    }
    assert lens[..|lens|] == lens;
    sizes := sizes[0 := 0];
  }

  lemma OversubscribedAt(lens: Lengths, l: nat)
    requires 1 <= l <= 15 && FirstCode(lens, l) + Count(lens, l) > Pow2(l)
    ensures !Decodable(lens)
  {
    if Decodable(lens) {
      FirstCodeFits(lens, l);
    }
  }

  // n is a parameter so that the verifier does not unroll Pow2 on a literal.
  lemma FullyChecked(lens: Lengths, n: nat)
    requires n == 16 && FirstCode(lens, n) <= Pow2(n)
    ensures Decodable(lens)
  {
    StartIsFirstCode(lens, n);
    StartIsKraft(lens);
    assert Pow2(n) == 2 * Pow2(n - 1);
  }

  lemma LengthStep(lens: Lengths, l: nat)
    ensures FirstCode(lens, l + 1) == 2 * (FirstCode(lens, l) + BlCount(lens, l))
    ensures FirstSymbol(lens, l + 1) == FirstSymbol(lens, l) + BlCount(lens, l)
    ensures Pow2(l + 1) == 2 * Pow2(l)
    ensures FirstCode(lens, 0) == 0 && FirstSymbol(lens, 0) == 0
  {
  }

  /** The per-length step stores a code space that ends where the next length's begins. */
  lemma MaxcodeIsStart(lens: Lengths, l: nat)
    requires 1 <= l <= 15
    ensures Shl(FirstCode(lens, l) + Count(lens, l), 16 - l) == Start(lens, l + 1)
  {
    hide FirstCode, Count, Shl;
    StartIsFirstCode(lens, l);
    ShlAdd(FirstCode(lens, l), Count(lens, l), 16 - l);
  }

  /** No length may have more codes than bit patterns. */
  method CheckSizes(lens: Lengths, sizes: seq<nat>) returns (ok: bool)
    requires |sizes| == 17 && forall l: nat :: l <= 15 ==> sizes[l] == BlCount(lens, l)
    ensures !ok ==> !Decodable(lens)
    ensures ok ==> forall l: nat :: 1 <= l <= 15 ==> sizes[l] <= Pow2(l)
  {
    hide Count, FirstCode, Kraft, Pow2;
    for i := 1 to 16
      invariant 1 <= i
      invariant forall l: nat :: 1 <= l < i ==> sizes[l] <= Pow2(l)
    {
      if sizes[i] > Pow2(i) {
        OversubscribedAt(lens, i);
        return false;
      }
    }
    ok := true;
  }

  ghost predicate LengthRows(firstcode: seq<nat>, firstsymbol: seq<nat>, maxcode: seq<nat>, lens: Lengths, n: nat)
    requires |firstcode| == 16 && |firstsymbol| == 16 && |maxcode| == 17 && n <= 16
  {
    forall l: nat :: 1 <= l < n ==>
      && firstcode[l] == FirstCode(lens, l)
      && firstsymbol[l] == FirstSymbol(lens, l)
      && maxcode[l] == Start(lens, l + 1)
  }

  /** Second pass: first code, first symbol and preshifted end of every length; fails exactly
      when the lengths ask for more codes than there are. */
  method BuildLengthTables(z: Tables, lens: Lengths, sizes: seq<nat>) returns (ok: bool, z': Tables)
    requires Shape(z) && |lens| <= MAX_SYMBOLS
    requires |sizes| == 17 && forall l: nat :: l <= 15 ==> sizes[l] == BlCount(lens, l)
    ensures ok <==> Decodable(lens)
    ensures Shape(z') && z'.fast == z.fast && z'.size == z.size && z'.value == z.value
    ensures ok ==> LengthTables(z', lens)
  {
    hide Kraft, Start, Shl, Count, FirstCode, FirstSymbol, Pow2;
    z' := z;
    ok := CheckSizes(lens, sizes);
    if !ok {
      return;
    }
    LengthStep(lens, 0);
    var code: nat, k: nat := 0, 0;
    var firstcode: seq<nat>, firstsymbol: seq<nat>, maxcode: seq<nat> := z.firstcode, z.firstsymbol, z.maxcode;
    for i := 1 to 16
      invariant 1 <= i
      invariant |firstcode| == 16 && |firstsymbol| == 16 && |maxcode| == 17
      invariant code == FirstCode(lens, i) <= Pow2(i)
      invariant k == FirstSymbol(lens, i)
      invariant LengthRows(firstcode, firstsymbol, maxcode, lens, i)
      invariant i == 16 ==> Decodable(lens)
    {
      NoTruncation(lens, i);
      LengthStep(lens, i);
      firstcode := firstcode[i := code % 0x10000];
      firstsymbol := firstsymbol[i := k % 0x10000];
      code := code + sizes[i];
      if sizes[i] != 0 && code - 1 >= Pow2(i) {
        OversubscribedAt(lens, i);
        return false, z';
      }
      MaxcodeIsStart(lens, i);
      maxcode := maxcode[i := Shl(code, 16 - i)];
      code := 2 * code;
      k := k + sizes[i];
      if i == 15 {
        FullyChecked(lens, i + 1);
      }
    }
    z' := z.(firstcode := firstcode, firstsymbol := firstsymbol, maxcode := maxcode[16 := 0x10000]);
    ok := true;
  }

  /** The 16-bit table cells lose nothing. */
  lemma NoTruncation(lens: Lengths, l: nat)
    requires 1 <= l <= 15 && |lens| <= MAX_SYMBOLS && FirstCode(lens, l) <= Pow2(l)
    ensures FirstCode(lens, l) % 0x10000 == FirstCode(lens, l)
    ensures FirstSymbol(lens, l) % 0x10000 == FirstSymbol(lens, l)
  {
    assert Pow2(l) <= 0x8000 by {
      Pow2Mono(l, 15);
      Pow2Values();
    }
    FirstSymbolBound(lens, l);
    SmallMod(FirstCode(lens, l));
    SmallMod(FirstSymbol(lens, l));
  }

  /** Writes one code's entry at every 9-bit window whose low s bits are `start`. */
  method FillFast(fast: seq<nat>, start: nat, s: nat, fastv: nat) returns (fast': seq<nat>)
    requires |fast| == 512 && start < Pow2(s)
    ensures |fast'| == 512
    ensures forall k: nat :: k < 512 ==> fast'[k] == if Mask(k, s) == start then fastv else fast[k]
  {
    fast' := fast;
    var j := start;
    MaskSmall(start, s);
    forall k: nat | Mask(k, s) == start
      ensures k >= start
    {
      MaskLeast(k, s);
    }
    while j < 512
      invariant |fast'| == 512
      invariant Mask(j, s) == start
      invariant forall k: nat :: k < 512 ==> fast'[k] == if Mask(k, s) == start && k < j then fastv else fast[k]
    {
      MaskStep(j, s);
      forall k: nat | Mask(k, s) == start && k < j + Pow2(s)
        ensures k <= j
      {
        if j < k {
          MaskGap(j, k, s);
        }
      }
      fast' := fast'[j := fastv];
      j := j + Pow2(s);
    }
  }

  /** Adding symbol i's entries keeps the fast table right for one symbol more. */
  lemma FastTableStep(fast: seq<nat>, fast': seq<nat>, lens: Lengths, i: nat, fastv: nat)
    requires |fast| == 512 == |fast'| && i < |lens| <= MAX_SYMBOLS && Decodable(lens)
    requires FastTable(fast, lens, i)
    requires 0 < lens[i] <= FAST_BITS && fastv == i + lens[i] * 512
    requires forall k: nat :: k < 512 ==>
      fast'[k] == if Mask(k, lens[i]) == Rev(CodeOf(lens, i), lens[i]) then fastv else fast[k]
    ensures FastTable(fast', lens, i + 1)
  {
    CodeFits(lens, i);
    assert fastv % 512 == i && fastv / 512 == lens[i];
    forall j: nat | j < 512
      ensures FastEntry(lens, i + 1, j, fast'[j])
    {
      RevMatches(j, CodeOf(lens, i), lens[i]);
      assert FastEntry(lens, i, j, fast[j]);
    }
  }

  lemma FastTableSkip(fast: seq<nat>, lens: Lengths, i: nat)
    requires |fast| == 512 && i < |lens| && (lens[i] == 0 || lens[i] > FAST_BITS)
    requires FastTable(fast, lens, i)
    ensures FastTable(fast, lens, i + 1)
  {
    forall j: nat | j < 512
      ensures FastEntry(lens, i + 1, j, fast[j])
    {
      assert FastEntry(lens, i, j, fast[j]);
    }
  }

  lemma SymbolTablesSkip(size: seq<nat>, value: seq<nat>, lens: Lengths, i: nat)
    requires |size| == |value| == MAX_SYMBOLS && i < |lens| && lens[i] == 0
    requires SymbolTables(size, value, lens, i)
    ensures SymbolTables(size, value, lens, i + 1)
  {
  }

  lemma EmptyTables(size: seq<nat>, value: seq<nat>, lens: Lengths)
    requires |size| == |value| == MAX_SYMBOLS
    ensures FastTable(seq(512, _ => 0), lens, 0)
    ensures SymbolTables(size, value, lens, 0)
  {
  }

  /** Third pass: the sorted symbol list and the fast table. Old contents of the symbol list
      beyond the symbols of this code are left in place. */
  method BuildSymbolTables(z: Tables, lens: Lengths) returns (z': Tables)
    requires Shape(z) && |lens| <= MAX_SYMBOLS && Decodable(lens)
    requires LengthTables(z, lens) && z.fast == seq(512, _ => 0)
    ensures TablesFor(z', lens)
  {
    hide FirstCode, Kraft, Start, Or, Shl, FastTable, SymbolTables;
    var next_code := z.firstcode;
    var fast, size, value := z.fast, z.size, z.value;
    EmptyTables(size, value, lens);
    for i := 0 to |lens|
      invariant |next_code| == 16 && |fast| == 512 && |size| == |value| == MAX_SYMBOLS
      invariant forall l: nat :: 1 <= l <= 15 ==> next_code[l] == FirstCode(lens, l) + Count(lens[..i], l)
      invariant SymbolTables(size, value, lens, i)
      invariant FastTable(fast, lens, i)
    {
      var s := lens[i];
      forall l: nat | l <= 15
        ensures Count(lens[..i + 1], l) == Count(lens[..i], l) + (if lens[i] == l then 1 else 0)
      {
        CountStep(lens, i, l);
      }
      if s != 0 {
        assert next_code[s] == CodeOf(lens, i);
        var c := next_code[s] - z.firstcode[s] + z.firstsymbol[s];
        assert c == Slot(lens, i);
        SlotBound(lens, i);
        var fastv := Or(i, Shl(s, FAST_BITS)) % 0x10000;
        size, value := SetSlot(size, value, lens, i, c);
        if s <= FAST_BITS {
          fast := BuildFastEntry(fast, lens, i, next_code[s], fastv);
        } else {
          FastTableSkip(fast, lens, i);
        }
        next_code := next_code[s := next_code[s] + 1];
      } else {
        FastTableSkip(fast, lens, i);
        SymbolTablesSkip(size, value, lens, i);
      }
    }
    z' := z.(fast := fast, size := size, value := value);
  }

  method SetSlot(size: seq<nat>, value: seq<nat>, lens: Lengths, i: nat, c: nat)
    returns (size': seq<nat>, value': seq<nat>)
    requires |size| == |value| == MAX_SYMBOLS && i < |lens| <= MAX_SYMBOLS && lens[i] > 0
    requires c == Slot(lens, i) && SymbolTables(size, value, lens, i)
    ensures |size'| == |value'| == MAX_SYMBOLS
    ensures SymbolTables(size', value', lens, i + 1)
  {
    SlotBound(lens, i);
    size', value' := size[c := lens[i]], value[c := i];
    forall k: nat | k < i + 1 && lens[k] > 0
      ensures Slot(lens, k) < MAX_SYMBOLS && size'[Slot(lens, k)] == lens[k] && value'[Slot(lens, k)] == k
    {
      SlotInjective(lens, k, i);
    }
  }

  lemma Shl9(v: nat)
    ensures Shl(v, 9) == v * 512
  {
    Pow2Values();
    ShlMul(v, 9);
  }

  lemma FastValue(i: nat, s: nat)
    requires i < MAX_SYMBOLS && s <= 15
    ensures Or(i, Shl(s, FAST_BITS)) % 0x10000 == i + s * 512
  {
    hide Or, Shl, Pow2;
    Pow2Values();
    OrDisjoint(i, s, FAST_BITS);
    Shl9(s);
  }

  method BuildFastEntry(fast: seq<nat>, lens: Lengths, i: nat, code: nat, fastv: nat)
    returns (fast': seq<nat>)
    requires |fast| == 512 && i < |lens| <= MAX_SYMBOLS && Decodable(lens)
    requires 0 < lens[i] <= FAST_BITS && code == CodeOf(lens, i)
    requires fastv == Or(i, Shl(lens[i], FAST_BITS)) % 0x10000
    requires FastTable(fast, lens, i)
    ensures |fast'| == 512 && FastTable(fast', lens, i + 1)
  {
    CodeFits(lens, i);
    FastValue(i, lens[i]);
    ReverseBitsIsRev(code, lens[i]);
    fast' := FillFast(fast, ReverseBits(code, lens[i]), lens[i], fastv);
    FastTableStep(fast, fast', lens, i, fastv);
  }

  /** Builds the tables in z for the given code lengths; succeeds exactly when the lengths
      satisfy Kraft's inequality. */
  method Build(z: Tables, lens: Lengths) returns (ok: bool, z': Tables)
    requires Shape(z) && |lens| <= MAX_SYMBOLS
    ensures Shape(z')
    ensures ok <==> Decodable(lens)
    ensures ok ==> TablesFor(z', lens)
  {
    var sizes := CountSizes(lens);
    ok, z' := BuildLengthTables(z.(fast := seq(512, _ => 0)), lens, sizes);
    if ok {
      z' := BuildSymbolTables(z', lens);
    }
  }

  // ----- decoding

  lemma {:induction false} ShortWindow(lens: Lengths, l: nat, v: nat)
    requires l <= FAST_BITS + 1 && Rev(v, 16) < Start(lens, l)
    ensures exists i: nat :: i < |lens| && lens[i] <= FAST_BITS && Matches(lens, i, v)
  {
    if Rev(v, 16) < Start(lens, l - 1) {
      ShortWindow(lens, l - 1, v);
    } else {
      var i := WindowHasSymbol(lens, l - 1, v);
    }
  }

  /** The slow path: finds the code length by comparing the 16-bit window with the preshifted
      end of each length above 9. Its two corruption checks never fire. */
  method DecodeSlow(z: Tables, v: nat, ghost lens: Lengths) returns (sym: int, s: nat)
    requires TablesFor(z, lens) && |lens| <= MAX_SYMBOLS
    requires forall i: nat :: i < |lens| && lens[i] <= FAST_BITS ==> !Matches(lens, i, v)
    ensures sym >= 0 ==> Matches(lens, sym, v) && s == lens[sym]
    ensures sym < 0 ==> sym == -1 && forall i: nat :: !Matches(lens, i, v)
  {
    ReverseBitsIsRev16(v);
    var k := ReverseBits(v, 16);
    s := FAST_BITS + 1;
    if Rev(v, 16) < Start(lens, s) {
      ShortWindow(lens, s, v);
      assert false;
    }
    Pow2Values();
    while k >= z.maxcode[s]
      invariant FAST_BITS < s <= 16
      invariant k >= Start(lens, s)
      decreases 16 - s
    {
      s := s + 1;
    }
    if s >= 16 {
      NoSymbol(lens, v);
      return -1, s;
    }
    ghost var i := WindowHasSymbol(lens, s, v);
    SlotBound(lens, i);
    var b := Shr(k, 16 - s) - z.firstcode[s] + z.firstsymbol[s];
    assert b == Slot(lens, i);
    if b >= MAX_SYMBOLS || z.size[b] != s {
      assert false;
    }
    sym := z.value[b];
  }

  lemma ReverseBitsIsRev16(v: nat)
    ensures ReverseBits(v, 16) == Rev(v, 16)
  {
    BitReverse16IsRev(v);
  }

  lemma FastFields(b: nat)
    ensures And(b, 511) == b % 512 && Shr(b, 9) == b / 512
  {
    hide And, Shr, Mask, Pow2;
    Pow2Values();
    AndMask(b, 9);
    MaskMod(b, 9);
    ShrDiv(b, 9);
  }

  /** Decodes the symbol whose code starts the window v, by the fast table if it can. */
  method Decode(z: Tables, v: nat, ghost lens: Lengths) returns (sym: int, s: nat)
    requires TablesFor(z, lens) && |lens| <= MAX_SYMBOLS
    ensures sym >= 0 ==> Matches(lens, sym, v) && s == lens[sym]
    ensures sym < 0 ==> sym == -1 && forall i: nat :: !Matches(lens, i, v)
  {
    Pow2Values();
    AndMask(v, FAST_BITS);
    var j := And(v, Pow2(FAST_BITS) - 1);
    var b := z.fast[j];
    assert FastEntry(lens, |lens|, j, b);
    forall i: nat | i < |lens| && lens[i] <= FAST_BITS
      ensures Matches(lens, i, j) <==> Matches(lens, i, v)
    {
      RevMask(v, lens[i], FAST_BITS);
    }
    if b != 0 {
      FastFields(b);
      return And(b, 511), Shr(b, 9);
    }
    sym, s := DecodeSlow(z, v, lens);
  }
}
