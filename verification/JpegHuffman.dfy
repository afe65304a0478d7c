/** The JPEG reader's Huffman tables: the code list, the preshifted ends per length, the 9-bit
    fast table, the lookup that uses them and the combined table for small AC values. */
module JpegHuffman {
  import opened Bits
  import opened JpegStream
  import opened JpegCode

  const FAST_BITS: nat := 9

  datatype Huffman = Huffman(fast: seq<nat>, code: seq<nat>, values: seq<Byte>, size: seq<nat>,
                             maxcode: seq<nat>, delta: seq<int>)

  predicate Shape(h: Huffman) {
    && |h.fast| == 512 && |h.code| == 256 && |h.values| == 256
    && |h.size| == 257 && |h.maxcode| == 18 && |h.delta| == 17
  }

  /** The size list that 16 counts stand for. */
  function SizeList(count: seq<nat>, n: nat): (r: seq<nat>)
    requires n <= |count|
    ensures forall i :: 0 <= i < |r| ==> 1 <= r[i] <= n
    ensures forall i, j :: 0 <= i <= j < |r| ==> r[i] <= r[j]
  {
    if n == 0 then [] else SizeList(count, n - 1) + seq(count[n - 1], _ => n)
  }

  function SizesOf(count: seq<nat>): (s: Sizes)
    requires |count| == 16
  {
    SizeList(count, 16)
  }

  lemma {:induction false} SizeListMono(count: seq<nat>, a: nat, b: nat)
    requires a <= b <= |count|
    ensures |SizeList(count, a)| <= |SizeList(count, b)|
  {
    if a < b {
      SizeListMono(count, a, b - 1);
    }
  }

  /** There are as many codes of each size as its count says. */
  lemma {:induction false} SizesCounted(count: seq<nat>, n: nat, l: nat)
    requires n <= |count|
    ensures multiset(SizeList(count, n))[l] == if 1 <= l <= n then count[l - 1] else 0
    decreases n
  {
    if n > 0 {
      SizesCounted(count, n - 1, l);
      CountSame(n, count[n - 1], l);
    }
  }

  lemma {:induction false} CountSame(x: nat, k: nat, l: nat)
    ensures multiset(seq(k, _ => x))[l] == if x == l then k else 0
    decreases k
  {
    if k > 0 {
      CountSame(x, k - 1, l);
      assert seq(k, _ => x) == seq(k - 1, _ => x) + [x];
    }
  }

  // ----- what the tables hold

  ghost predicate SizeCells(size: seq<nat>, s: Sizes) {
    |size| == 257 && |s| <= 256 && size[..|s|] == s && size[|s|] == 0
  }

  /** The 16-bit cells hold the codes, truncated. */
  ghost predicate CodeCells(code: seq<nat>, s: Sizes, n: nat) {
    |code| == 256 && n <= |s| <= 256 && forall i: nat :: i < n ==> code[i] == Code(s, i) % 0x10000
  }

  /** Row l says where the codes of at most l bits end, and by how much symbol numbers and
      codes of l bits differ. */
  ghost predicate LengthRow(maxcode: nat, delta: int, s: Sizes, l: nat)
    requires 1 <= l <= 16
  {
    && maxcode == Low(s, End(s, l))
    && delta <= End(s, l - 1) && Shl(End(s, l - 1) - delta, 16 - l) == Low(s, End(s, l - 1))
  }

  ghost predicate LengthRows(maxcode: seq<nat>, delta: seq<int>, s: Sizes, n: nat)
    requires n <= 17
  {
    && |maxcode| == 18 && |delta| == 17
    && forall l: nat :: 1 <= l < n ==> LengthRow(maxcode[l], delta[l], s, l)
  }

  /** Entry e for the 9-bit window c, when n codes have been entered. Since 255 marks an empty
      entry, code number 255 leaves none. */
  ghost predicate FastEntry(s: Sizes, n: nat, c: nat, e: nat) {
    && (e < 255 ==> e < n && Matches(s, e, c, FAST_BITS))
    && (e >= 255 ==> e == 255 && forall i: nat :: i < n && i != 255 ==> !Matches(s, i, c, FAST_BITS))
  }

  ghost predicate FastTable(fast: seq<nat>, s: Sizes, n: nat) {
    |fast| == 512 && forall c: nat :: c < 512 ==> FastEntry(s, n, c, fast[c])
  }

  ghost predicate TablesFor(h: Huffman, s: Sizes) {
    && Shape(h) && Fits(s)
    && SizeCells(h.size, s) && CodeCells(h.code, s, |s|)
    && LengthRows(h.maxcode, h.delta, s, 17) && h.maxcode[17] == 0xFFFF_FFFF
    && FastTable(h.fast, s, |s|)
  }

  /** The sizes for which the tables decode every window: code number 255, if there is one,
      must be too long for the fast table. */
  predicate Faithful(s: Sizes) {
    |s| <= 255 || s[255] > FAST_BITS
  }

  // ----- building

  method BuildSizes(size: seq<nat>, count: seq<nat>) returns (size': seq<nat>)
    requires |count| == 16 && |SizesOf(count)| <= 256 && |size| == 257
    ensures SizeCells(size', SizesOf(count))
  {
    size' := size;
    var k := 0;
    for i := 0 to 16
      invariant |size'| == 257 && k == |SizeList(count, i)| <= 256
      invariant size'[..k] == SizeList(count, i)
    {
      SizeListMono(count, i + 1, 16);
      ghost var done := SizeList(count, i);
      for j := 0 to count[i]
        invariant |size'| == 257 && k == |done| + j
        invariant size'[..k] == done + seq(j, _ => i + 1)
      {
        size' := size'[k := i + 1];
        k := k + 1;
      }
    }
    size' := size'[k := 0];
  }

  lemma SameCode(s: Sizes, k: nat, c: nat)
    requires k < |s| && Shl(c, 16 - s[k]) == Low(s, k)
    ensures c == Code(s, k)
  {
    LowIsCode(s, k);
    ShlMono(c, Code(s, k), 16 - s[k]);
    ShlMono(Code(s, k), c, 16 - s[k]);
  }

  /** Numbers all codes of size j, from c on. */
  method AssignLength(code: seq<nat>, size: seq<nat>, j: nat, k: nat, c: nat, ghost s: Sizes)
    returns (code': seq<nat>, k': nat, c': nat)
    requires SizeCells(size, s) && 1 <= j <= 16
    requires k == End(s, j - 1) && Shl(c, 16 - j) == Low(s, k) && CodeCells(code, s, k)
    ensures k' == End(s, j) && Shl(c', 16 - j) == Low(s, k') && CodeCells(code', s, k')
    ensures c' >= c + (if k < |s| && size[k] == j then 1 else 0)
    ensures k' == k ==> c' == c
  {
    hide Shl, Code, Low;
    code', k', c' := code, k, c;
    while size[k'] == j
      invariant k <= k' <= |s| && (forall i :: k <= i < k' ==> s[i] == j)
      invariant Shl(c', 16 - j) == Low(s, k')
      invariant CodeCells(code', s, k')
      invariant c' == c + (k' - k)
      decreases 257 - k'
    {
      assert s[k'] == size[k'];
      SameCode(s, k', c');
      SameSizeRun(s, k', k' + 1, j);
      ShlAdd(c', 1, 16 - j);
      code' := code'[k' := c' % 0x10000];
      k', c' := k' + 1, c' + 1;
    }
    assert k' < |s| ==> s[k'] == size[k'];
    EndIs(s, j, k');
  }

  lemma TooMany(s: Sizes, k: nat, j: nat, c: nat)
    requires k <= |s| && 1 <= j <= 16 && Shl(c, 16 - j) == Low(s, k) && c > Pow2(j)
    ensures !Fits(s)
  {
    hide Shl, Low, Pow2;
    ShlMono(c, Pow2(j), 16 - j);
    ShlPow2(j, 16 - j);
    Pow2Values();
    LowMono(s, k, |s|);
  }

  lemma Enough(s: Sizes, k: nat, j: nat, c: nat)
    requires k <= |s| && 1 <= j <= 16 && Shl(c, 16 - j) == Low(s, k) && c <= Pow2(j)
    ensures Low(s, k) <= 0x10000
  {
    hide Shl, Low, Pow2;
    ShlMono(c, Pow2(j), 16 - j);
    ShlPow2(j, 16 - j);
    Pow2Values();
  }

  lemma NextLength(s: Sizes, j: nat, c: nat)
    requires 1 <= j <= 16
    ensures Shl(c, 17 - j) == 2 * Shl(c, 16 - j) && Shl(2 * c, 16 - j) == 2 * Shl(c, 16 - j)
    ensures Pow2(j) == 2 * Pow2(j - 1)
  {
    ShlDouble(c, 16 - j);
  }

  lemma FirstLength(s: Sizes)
    ensures End(s, 0) == 0 && Low(s, 0) == 0 && Shl(0, 16) == 0 && Pow2(1) == 2
  {
    ShlZero(16);
  }

  /** Numbers the codes length by length; fails exactly when the counts ask for more codes than
      there are. */
  method AssignCodes(h: Huffman, ghost s: Sizes) returns (ok: bool, h': Huffman, k: nat)
    requires Shape(h) && SizeCells(h.size, s)
    ensures ok <==> Fits(s)
    ensures Shape(h') && h'.size == h.size && h'.values == h.values
    ensures ok ==> CodeCells(h'.code, s, |s|) && LengthRows(h'.maxcode, h'.delta, s, 17)
    ensures ok ==> h'.maxcode[17] == 0xFFFF_FFFF && k == |s|
  {
    hide Shl, Code, Low, Pow2;
    h', k := h, 0;
    FirstLength(s);
    var c: nat := 0;
    var code: seq<nat>, maxcode: seq<nat>, delta := h.code, h.maxcode, h.delta;
    for j := 1 to 17
      invariant k == End(s, j - 1) && Shl(c, 17 - j) == 2 * Low(s, k)
      invariant c <= Pow2(j) && Low(s, k) <= 0x10000
      invariant CodeCells(code, s, k) && LengthRows(maxcode, delta, s, j)
    {
      NextLength(s, j, c);
      delta := delta[j := k - c];
      if h.size[k] == j {
        code, k, c := AssignLength(code, h.size, j, k, c, s);
        if c - 1 >= Pow2(j) {
          TooMany(s, k, j, c);
          return false, h', k;
        }
      } else {
        assert k < |s| ==> s[k] == h.size[k];
        EndIs(s, j, k);
      }
      Enough(s, k, j, c);
      NextLength(s, j, c);
      maxcode := maxcode[j := Shl(c, 16 - j)];
      c := 2 * c;
      DoubleLimit(j);
    }
    EndIs(s, 16, |s|);
    h' := h.(code := code, maxcode := maxcode[17 := 0xFFFF_FFFF], delta := delta);
    ok := true;
  }

  lemma DoubleLimit(j: nat)
    ensures Pow2(j + 1) == 2 * Pow2(j)
  {
  }

  /** Writes i at every 9-bit window that starts with the l-bit code c. */
  method FillFast(fast: seq<nat>, c: nat, l: nat, i: nat) returns (fast': seq<nat>)
    requires |fast| == 512 && l <= FAST_BITS && c < Pow2(l)
    ensures |fast'| == 512
    ensures forall w: nat :: w < 512 ==> fast'[w] == if Shr(w, FAST_BITS - l) == c then i else fast[w]
  {
    hide Shl, Shr, Pow2;
    var start, m := Shl(c, FAST_BITS - l), Pow2(FAST_BITS - l);
    FillRange(c, l);
    fast' := fast;
    for j := 0 to m
      invariant |fast'| == 512
      invariant forall w: nat :: w < 512 ==> fast'[w] == if start <= w < start + j then i else fast[w]
    {
      fast' := fast'[start + j := i];
    }
    var d := FAST_BITS - l;
    forall w: nat | w < 512
      ensures Shr(w, d) == c <==> start <= w < start + m
    {
      ShrInterval(w, d, c);
    }
  }

  lemma FillRange(c: nat, l: nat)
    requires l <= FAST_BITS && c < Pow2(l)
    ensures Shl(c, FAST_BITS - l) + Pow2(FAST_BITS - l) == Shl(c + 1, FAST_BITS - l) <= 512
  {
    hide Shl, Pow2;
    ShlAdd(c, 1, FAST_BITS - l);
    ShlOne(FAST_BITS - l);
    ShlMono(c + 1, Pow2(l), FAST_BITS - l);
    ShlPow2(l, FAST_BITS - l);
    Pow2Values();
  }

  /** No two codes start the same 9-bit window. */
  lemma PrefixFree9(s: Sizes, i: nat, j: nat, c: nat)
    requires Matches(s, i, c, FAST_BITS) && Matches(s, j, c, FAST_BITS)
    ensures i == j
  {
    hide Matches;
    var w := Shl(c, 7);
    Unpack(0, c, 7);
    WidenBoth(s, i, j, c, w);
    PrefixFree(s, i, j, w);
  }

  lemma WidenBoth(s: Sizes, i: nat, j: nat, c: nat, w: nat)
    requires Matches(s, i, c, FAST_BITS) && Matches(s, j, c, FAST_BITS) && Shr(w, 7) == c
    ensures Matches(s, i, w, 16) && Matches(s, j, w, 16)
  {
    hide Shr, Code;
    Narrow(s, i, w, FAST_BITS, 16);
    Narrow(s, j, w, FAST_BITS, 16);
  }

  lemma EntryStep(s: Sizes, i: nat, c: nat, e: nat)
    requires FastEntry(s, i, c, e) && i <= 255
    ensures FastEntry(s, i + 1, c, if Matches(s, i, c, FAST_BITS) then i else e)
  {
    hide Matches;
    if Matches(s, i, c, FAST_BITS) {
      forall k: nat | k < i && Matches(s, k, c, FAST_BITS)
        ensures false
      {
        PrefixFree9(s, i, k, c);
      }
    }
  }

  lemma FastStep(fast: seq<nat>, fast': seq<nat>, s: Sizes, i: nat)
    requires FastTable(fast, s, i) && |fast'| == 512 && i < |s| <= 256 && s[i] <= FAST_BITS
    requires forall w: nat :: w < 512 ==>
      fast'[w] == if Shr(w, FAST_BITS - s[i]) == Code(s, i) then i else fast[w]
    ensures FastTable(fast', s, i + 1)
  {
    hide Shr, Code, FastEntry;
    forall c: nat | c < 512
      ensures FastEntry(s, i + 1, c, fast'[c])
    {
      EntryStep(s, i, c, fast[c]);
    }
  }

  lemma FastSkip(fast: seq<nat>, s: Sizes, i: nat)
    requires FastTable(fast, s, i) && i < |s| && s[i] > FAST_BITS
    ensures FastTable(fast, s, i + 1)
  {
    hide Shr, Code;
    forall c: nat | c < 512
      ensures FastEntry(s, i + 1, c, fast[c])
    {
      assert FastEntry(s, i, c, fast[c]);
    }
  }

  /** The cell keeps the whole code. */
  lemma WholeCode(s: Sizes, i: nat)
    requires Fits(s) && i < |s|
    ensures Code(s, i) % 0x10000 == Code(s, i) < Pow2(s[i])
  {
    CodeFits(s, i);
    Pow2Mono(s[i], 16);
    Pow2Values();
    SmallMod(Code(s, i));
  }

  method BuildFast(h: Huffman, n: nat, ghost s: Sizes) returns (fast: seq<nat>)
    requires Shape(h) && SizeCells(h.size, s) && CodeCells(h.code, s, |s|) && n == |s| && Fits(s)
    ensures FastTable(fast, s, |s|)
  {
    hide Shr, Code, Low, FastTable, FastEntry, Matches;
    fast := seq(512, _ => 255);
    EmptyFast(s);
    for i := 0 to n
      invariant |fast| == 512 && FastTable(fast, s, i)
    {
      var l := h.size[i];
      assert l == s[i];
      if l <= FAST_BITS {
        WholeCode(s, i);
        var fast' := FillFast(fast, h.code[i], l, i);
        FastStep(fast, fast', s, i);
        fast := fast';
      } else {
        FastSkip(fast, s, i);
      }
    }
  }

  lemma EmptyFast(s: Sizes)
    ensures FastTable(seq(512, _ => 255), s, 0)
  {
  }

  /** Builds the tables for 16 counts; succeeds exactly when they satisfy Kraft's inequality. */
  method Build(h: Huffman, count: seq<nat>) returns (ok: bool, h': Huffman)
    requires Shape(h) && |count| == 16 && |SizesOf(count)| <= 256
    ensures Shape(h') && h'.values == h.values
    ensures ok <==> Fits(SizesOf(count))
    ensures ok ==> TablesFor(h', SizesOf(count))
  {
    hide SizeCells, CodeCells, LengthRows, FastTable, Fits, SizesOf;
    ghost var s := SizesOf(count);
    var size := BuildSizes(h.size, count);
    CellsShape(size, s);
    var n;
    ok, h', n := AssignCodes(h.(size := size), s);
    if ok {
      var fast := BuildFast(h', n, s);
      FastShape(fast, s);
      h' := h'.(fast := fast);
    }
  }

  lemma CellsShape(size: seq<nat>, s: Sizes)
    requires SizeCells(size, s)
    ensures |size| == 257
  {
  }

  lemma FastShape(fast: seq<nat>, s: Sizes)
    requires FastTable(fast, s, |s|)
    ensures |fast| == 512
  {
  }

  // ----- looking a code up

  /** What the lookup found in window w: symbol number k with a code of len bits, or k < 0. */
  ghost predicate Found(s: Sizes, w: nat, k: int, len: nat) {
    if k >= 0 then Matches(s, k, w, 16) && len == s[k] else forall i: nat :: !Matches(s, i, w, 16)
  }

  /** The slow path: the first length above 9 whose codes end above the window. */
  method LookupSlow(h: Huffman, w: nat, ghost s: Sizes) returns (k: int, len: nat)
    requires TablesFor(h, s) && w < 0x10000
    requires forall i: nat :: i != 255 && i < |s| && s[i] <= FAST_BITS ==> !Matches(s, i, w, 16)
    ensures k < 256
    ensures Faithful(s) || !Matches(s, 255, w, 16) ==> Found(s, w, k, len)
    ensures !Faithful(s) && Matches(s, 255, w, 16) ==> k >= 0 && len == FAST_BITS + 1
  {
    hide Shl, Shr, Low, Code, Pow2, Matches;
    ghost var lost := !Faithful(s) && Matches(s, 255, w, 16);
    if w < Low(s, End(s, FAST_BITS)) {
      LowAtZero(s);
      ghost var i := Tiling(s, 0, End(s, FAST_BITS), w);
      assert lost;
    }
    len := FAST_BITS + 1;
    assert LengthRow(h.maxcode[len], h.delta[len], s, len);
    if lost {
      LostCode(s, w, len, h.delta[len]);
    }
    while w >= h.maxcode[len]
      invariant FAST_BITS < len <= 17
      invariant if lost then len == FAST_BITS + 1 else w >= Low(s, End(s, len - 1))
      decreases 17 - len
    {
      assert LengthRow(h.maxcode[len], h.delta[len], s, len);
      len := len + 1;
    }
    if len == 17 {
      EndIs(s, 16, |s|);
      NoMatch(s, w);
      return -1, len;
    }
    assert LengthRow(h.maxcode[len], h.delta[len], s, len);
    k := Shr(w, 16 - len) + h.delta[len];
    if !lost {
      SymbolNumber(s, w, len, h.delta[len]);
    }
  }

  /** With 256 codes of at most 9 bits, the windows of the last code fall through to length 10,
      where they read as one of the last few symbols. (`ten` is a parameter so that the verifier
      does not unroll shifts by a literal.) */
  lemma LostCode(s: Sizes, w: nat, ten: nat, delta: int)
    requires |s| == 256 && s[255] <= FAST_BITS && Fits(s) && Matches(s, 255, w, 16) && ten == 10
    requires delta <= 256 && Shl(256 - delta, 16 - ten) == Low(s, 256)
    ensures End(s, ten - 1) == End(s, ten) == 256 && w < Low(s, 256)
    ensures 252 <= Shr(w, 16 - ten) + delta < 256
  {
    hide Shl, Shr, Low, Code, Pow2, Matches;
    EndIs(s, ten - 1, 256);
    EndIs(s, ten, 256);
    MatchInterval(s, 255, w);
    LastIsLong(s);
    var e, q := 256 - delta, Shr(w, 16 - ten);
    ShrInterval(w, 16 - ten, q);
    if q >= e {
      ShlMono(e, q, 16 - ten);
    }
    if q + 4 < e {
      SameSizeRun(s, 255, 256, s[255]);
      ShlOne(16 - s[255]);
      Pow2Mono(16 - s[255], 8);
      Pow2Values();
      ShlMono(q + 1 + 4, e, 16 - ten);
      ShlAdd(q + 1, 4, 16 - ten);
      Four(16 - ten);
    }
  }

  lemma Four(n: nat)
    requires n == 6
    ensures Shl(4, n) == 256
  {
  }

  /** 256 codes need at least 8 bits for the longest. */
  lemma LastIsLong(s: Sizes)
    requires |s| == 256 && Fits(s)
    ensures s[255] >= 8
  {
    hide Shl, Low, Pow2;
    var l := s[255];
    if l < 8 {
      LowAtLeast(s, 256, l);
      ShlPow2(8, 16 - l);
      Pow2Values();
      DoubleLimit(16);
      Pow2Mono(17, 24 - l);
    }
  }

  lemma {:induction false} LowAtLeast(s: Sizes, i: nat, l: nat)
    requires i <= |s| && l <= 16 && forall k :: 0 <= k < i ==> s[k] <= l
    ensures Low(s, i) >= Shl(i, 16 - l)
  {
    if i == 0 {
      ShlZero(16 - l);
    } else {
      LowAtLeast(s, i - 1, l);
      ShlAdd(i - 1, 1, 16 - l);
      ShlOne(16 - l);
      Pow2Mono(16 - l, 16 - s[i - 1]);
    }
  }

  lemma LowAtZero(s: Sizes)
    ensures Low(s, 0) == 0
  {
  }

  /** A window among the codes of l bits gives its symbol number by adding delta. */
  lemma SymbolNumber(s: Sizes, w: nat, l: nat, delta: int)
    requires 1 <= l <= 16 && Low(s, End(s, l - 1)) <= w < Low(s, End(s, l))
    requires delta <= End(s, l - 1) && Shl(End(s, l - 1) - delta, 16 - l) == Low(s, End(s, l - 1))
    ensures 0 <= Shr(w, 16 - l) + delta < |s|
    ensures Matches(s, Shr(w, 16 - l) + delta, w, 16) && s[Shr(w, 16 - l) + delta] == l
  {
    hide Shl, Shr, Low, Code;
    var a := End(s, l - 1);
    if End(s, l) < a {
      LowMono(s, End(s, l), a);
    }
    var i := Tiling(s, a, End(s, l), w);
    SameSizeRun(s, a, i, l);
    ShlAdd(a - delta, i - a, 16 - l);
    SameCode(s, i, i - delta);
  }

  /** Finds the code that starts the 32-bit buffer, by its first 9 bits if that is enough. The
      answer is right unless code number 255 has at most 9 bits and starts the buffer: then 10
      bits are taken for it. */
  method Lookup(h: Huffman, cb: nat, ghost s: Sizes) returns (k: int, len: nat)
    requires TablesFor(h, s) && Shr(cb, 16) < 0x10000
    ensures k < 256
    ensures Faithful(s) || !Matches(s, 255, Shr(cb, 16), 16) ==> Found(s, Shr(cb, 16), k, len)
    ensures !Faithful(s) && Matches(s, 255, Shr(cb, 16), 16) ==> k >= 0 && len == FAST_BITS + 1
  {
    hide Shl, Shr, Low, Code, Pow2, Matches, And;
    var w := Shr(cb, 16);
    FirstNine(cb);
    var c := And(Shr(cb, 32 - FAST_BITS), 511);
    k := h.fast[c];
    assert FastEntry(s, |s|, c, k);
    forall i: nat | i < |s| && s[i] <= FAST_BITS
      ensures Matches(s, i, w, 16) <==> Matches(s, i, c, FAST_BITS)
    {
      Narrow(s, i, w, FAST_BITS, 16);
    }
    if k < 255 {
      MatchFacts(s, k, c);
      len := h.size[k];
      assert len == s[k];
      if |s| == 256 && Matches(s, 255, w, 16) {
        PrefixFree(s, k, 255, w);
      }
      return;
    }
    forall i: nat | i != 255 && i < |s| && s[i] <= FAST_BITS
      ensures !Matches(s, i, w, 16)
    {
      assert !Matches(s, i, c, FAST_BITS);
    }
    k, len := LookupSlow(h, w, s);
  }

  lemma MatchFacts(s: Sizes, i: nat, c: nat)
    requires Matches(s, i, c, FAST_BITS)
    ensures i < |s| && s[i] <= FAST_BITS
  {
  }

  lemma FirstNine(cb: nat)
    requires Shr(cb, 16) < 0x10000
    ensures And(Shr(cb, 32 - FAST_BITS), 511) == Shr(Shr(cb, 16), 16 - FAST_BITS) < 512
  {
    hide Shr, And, Pow2, Mask, Shl;
    var w := Shr(cb, 16);
    var c := Shr(w, 16 - FAST_BITS);
    ShrShr(cb, 16, 16 - FAST_BITS);
    Pow2Values();
    ShrInterval(w, 16 - FAST_BITS, c);
    if c >= 512 {
      ShlMono(Pow2(FAST_BITS), c, 16 - FAST_BITS);
      ShlPow2(FAST_BITS, 16 - FAST_BITS);
    }
    AndMask(c, FAST_BITS);
    MaskSmall(c, FAST_BITS);
  }

  /** Counts that are accepted and yet not decoded faithfully: 256 codes of 8 bits each, whose
      last code is read wrong. (`eight` is a parameter for the same reason.) */
  lemma FullTableIsNotFaithful(eight: nat)
    requires eight == 8
    ensures var s := seq(256, _ => eight); IsSizes(s) && Fits(s) && !Faithful(s) && Matches(s, 255, 0xFF00, 16)
  {
    hide Shl, Low, Matches, Code;
    var s: Sizes := seq(256, _ => eight);
    LowAtZero(s);
    SameSizeRun(s, 0, 255, eight);
    SameSizeRun(s, 0, 256, eight);
    Pow2Values();
    ShlMul(255, eight);
    ShlMul(256, eight);
    MatchInterval(s, 255, 0xFF00);
  }

  // ----- small AC values in one go

  /** EXTEND of figure F.12 of ITU-T T.81: n magnitude bits as a signed value. */
  function Extend(v: nat, n: nat): (r: int)
    requires v < Pow2(n)
    ensures n > 0 ==> 0 < r + Pow2(n) && r < Pow2(n) && r != 0
  {
    if n == 0 then 0 else if v < Pow2(n - 1) then v - Pow2(n) + 1 else v
  }

  /** The mag bits that follow the first len bits of a 9-bit window. */
  function Field(c: nat, len: nat, mag: nat): (r: nat)
    requires len + mag <= FAST_BITS
    ensures r < Pow2(mag)
  {
    Mask(Shr(c, FAST_BITS - len - mag), mag)
  }

  /** What the combined table says about window c: that the code found there leaves room for
      its magnitude bits, and then value, run and total length. */
  ghost predicate AcMeans(h: Huffman, s: Sizes, c: nat, e: int)
    requires Shape(h) && c < 512
  {
    var i := h.fast[c];
    i < |s| && i < 255 &&
    var run, mag := h.values[i] / 16, h.values[i] % 16;
    && mag > 0 && s[i] + mag <= FAST_BITS
    && e == 256 * Extend(Field(c, s[i], mag), mag) + 16 * run + s[i] + mag
    && -32768 <= e < 32768
  }

  ghost predicate AcSound(fac: seq<int>, h: Huffman, s: Sizes)
    requires Shape(h)
  {
    |fac| == 512 && forall c: nat :: c < 512 && fac[c] != 0 ==> AcMeans(h, s, c, fac[c])
  }

  lemma {:induction false} Repack(v: nat, n: nat)
    ensures v == Mask(v, n) + Shl(Shr(v, n), n)
  {
    if n > 0 {
      Repack(v / 2, n - 1);
    }
  }

  /** The shift-mask-shift expression for the magnitude bits. */
  lemma FieldIs(c: nat, len: nat, mag: nat)
    requires len + mag <= FAST_BITS && c < 512
    ensures Shr(And(Shl(c, len), 511), FAST_BITS - mag) == Field(c, len, mag)
  {
    hide Shl, Shr, Mask, Pow2, And;
    var r := FAST_BITS - len - mag;
    var low, q := Mask(c, r), Shr(c, r);
    var mid, hi := Mask(q, mag), Shr(q, mag);
    Repack(c, r);
    Repack(q, mag);
    var x, y, z := Shl(low, len), Shl(mid, r + len), Shl(hi, FAST_BITS);
    ShlShl(q, r, len);
    ShlAdd(low, Shl(q, r), len);
    ShlShl(hi, mag, r + len);
    ShlAdd(mid, Shl(hi, mag), r + len);
    assert Shl(c, len) == x + y + z;
    ShiftBound(low, r, len);
    Unpack(x, mid, r + len);
    ShiftedSum(x, mid, r + len, mag);
    Pow2Values();
    AndMask(x + y + z, FAST_BITS);
    Unpack(x + y, hi, FAST_BITS);
  }

  lemma ShiftBound(v: nat, a: nat, n: nat)
    requires v < Pow2(a)
    ensures Shl(v, n) < Pow2(a + n)
  {
    hide Shl, Pow2;
    ShlMono(Pow2(a), v, n);
    ShlPow2(a, n);
  }

  lemma ShiftedSum(x: nat, mid: nat, n: nat, m: nat)
    requires x < Pow2(n) && mid < Pow2(m)
    ensures x + Shl(mid, n) < Pow2(n + m)
  {
    hide Shl, Pow2;
    ShlMono(mid + 1, Pow2(m), n);
    ShlAdd(mid, 1, n);
    ShlOne(n);
    ShlPow2(m, n);
  }

  /** Makes the combined table: an entry is nonzero exactly when a code of the fast table and
      its magnitude bits fit in 9 bits and the value in 8. */
  method BuildFastAc(h: Huffman, ghost s: Sizes) returns (fac: seq<int>)
    requires TablesFor(h, s)
    ensures AcSound(fac, h, s)
    ensures forall c: nat :: c < 512 && fac[c] == 0 ==> !exists e: int :: AcMeans(h, s, c, e)
  {
    hide Shl, Shr, And, Pow2, FastEntry, LengthRow, Low, Code;
    fac := seq(512, _ => 0);
    for i := 0 to 512
      invariant |fac| == 512
      invariant forall c: nat :: c < i && fac[c] != 0 ==> AcMeans(h, s, c, fac[c])
      invariant forall c: nat :: i <= c < 512 ==> fac[c] == 0
      invariant forall c: nat, e: int :: c < i && AcMeans(h, s, c, e) ==> fac[c] != 0
    {
      var e := FastAcEntry(h, i, s);
      fac := fac[i := e];
    }
  }

  method FastAcEntry(h: Huffman, i: nat, ghost s: Sizes) returns (e: int)
    requires TablesFor(h, s) && i < 512
    ensures e != 0 ==> AcMeans(h, s, i, e)
    ensures forall x: int :: AcMeans(h, s, i, x) ==> e == x != 0
  {
    hide Shl, Shr, And, Pow2, LengthRow, Low, Code, Matches;
    e := 0;
    var fast := h.fast[i];
    assert FastEntry(s, |s|, i, fast);
    if fast < 255 {
      MatchFacts(s, fast, i);
      var rs := h.values[fast];
      var run, magbits := rs / 16, rs % 16;
      var len := h.size[fast];
      assert len == s[fast];
      if magbits != 0 && len + magbits <= FAST_BITS {
        FieldIs(i, len, magbits);
        var k: int := Shr(And(Shl(i, len), 511), FAST_BITS - magbits);
        var m := Pow2(magbits - 1);
        if k < m {
          k := k - Pow2(magbits) + 1;
        }
        assert k == Extend(Field(i, len, magbits), magbits);
        if -128 <= k <= 127 {
          e := 256 * k + 16 * run + (len + magbits);
        }
      }
    }
  }

  /** A table without entries is sound: every coefficient then takes the slow path. */
  lemma NoEntriesIsSound(h: Huffman, s: Sizes)
    requires Shape(h)
    ensures AcSound(seq(512, _ => 0), h, s)
  {
  }
}
