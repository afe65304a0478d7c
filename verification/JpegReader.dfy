/** The JPEG reader's bit reservoir and block decoder, proved against the coded bit stream:
    refilling with byte unstuffing, code lookup, receive-and-extend and the fast AC path. */
module JpegReader {
  import opened Bits
  import opened JpegStream
  import opened JpegCode
  import opened JpegHuffman
  import opened JpegBlock
  import opened JpegFetch

  const MARKER_NONE: Byte := 0xFF

  /** bias[n] = 1 - 2^n, with bias[0] = 0. */
  const JBIAS: seq<int> := [0, -1, -3, -7, -15, -31, -63, -127, -255, -511, -1023, -2047, -4095, -8191, -16383, -32767]

  lemma JBias(n: nat)
    requires 1 <= n <= 15
    ensures JBIAS[n] == 1 - Pow2(n)
  {
    Pow2Values();
  }

  /** What is left of the coded bytes after k of them. */
  function Rest(s: seq<Byte>, k: nat): seq<Byte> {
    if k <= |s| then s[k..] else []
  }

  /** A 32-bit left shift. */
  function Shl32(v: nat, n: nat): nat {
    Mask(Shl(v, n), 32)
  }

  lemma Shl32Is(v: nat, n: nat)
    requires n <= 32
    ensures Shl32(v, n) == Shl(Mask(v, 32 - n), n)
  {
    hide Shl, Shr, Mask, Pow2;
    var lo, hi := Mask(v, 32 - n), Shr(v, 32 - n);
    Repack(v, 32 - n);
    ShlAdd(lo, Shl(hi, 32 - n), n);
    ShlShl(hi, 32 - n, n);
    ShiftBound(lo, 32 - n, n);
    Unpack(Shl(lo, n), hi, 32);
  }

  /** `v & ~((1 << n) - 1)` on 32 bits clears the low n bits. */
  lemma {:induction false} AndHigh(v: nat, x: nat, n: nat)
    ensures And(v, Shl(x, n)) == Shl(And(Shr(v, n), x), n)
  {
    if n > 0 {
      AndHigh(v / 2, x, n - 1);
      AndEven(v, Shl(x, n - 1));
    }
  }

  lemma AndEven(v: nat, x: nat)
    ensures And(v, 2 * x) == 2 * And(v / 2, x)
  {
    var y := 2 * x;
    assert y / 2 == x && y % 2 == 0;
    if v != 0 && y != 0 {
      assert And(v, y) == 2 * And(v / 2, y / 2);
    }
  }

  /** `~((1 << n) - 1)` on 32 bits. */
  function NotMask(n: nat): nat
    requires n <= 32
  {
    Pow2Mono(n, 32);
    Pow2(32) - Pow2(n)
  }

  lemma ClearLow(hi: nat, lo: nat, n: nat)
    requires n <= 32 && lo < Pow2(n) && hi < Pow2(32 - n)
    ensures And(lo + Shl(hi, n), NotMask(n)) == Shl(hi, n)
  {
    hide Shl, Shr, Mask, Pow2, And;
    var ones := Pow2(32 - n) - 1;
    ShlAdd(ones, 1, n);
    ShlOne(n);
    ShlPow2(32 - n, n);
    AndHigh(lo + Shl(hi, n), ones, n);
    Unpack(lo, hi, n);
    AndMask(hi, 32 - n);
    MaskSmall(hi, 32 - n);
  }

  /** Rotating a 32-bit word left by n brings its first n bits to the bottom. */
  lemma Rotate(cb: nat, n: nat)
    requires cb < Pow2(32) && 1 <= n <= 32
    ensures var k := Or(Shl32(cb, n), Shr(cb, 32 - n));
            And(k, Pow2(n) - 1) == Shr(cb, 32 - n) && And(k, NotMask(n)) == Shl32(cb, n)
  {
    hide Shl, Shr, Mask, Pow2, And, Or, Shl32;
    var lo, hi := Mask(cb, 32 - n), Shr(cb, 32 - n);
    Repack(cb, 32 - n);
    Shl32Is(cb, n);
    HighPart(cb, n);
    OrLow(hi, lo, n);
    AndMask(hi + Shl(lo, n), n);
    Unpack(hi, lo, n);
    ClearLow(lo, hi, n);
  }

  lemma HighPart(cb: nat, n: nat)
    requires cb < Pow2(32) && n <= 32
    ensures Shr(cb, 32 - n) < Pow2(n)
  {
    hide Shl, Shr, Pow2;
    var q := Shr(cb, 32 - n);
    ShrInterval(cb, 32 - n, q);
    ShlMono(Pow2(n), q, 32 - n);
    ShlPow2(n, 32 - n);
  }

  lemma HoldsBound(cb: nat, s: seq<Byte>, p: nat, m: nat)
    requires Holds(cb, s, p, m)
    ensures cb < Pow2(32)
  {
    hide Shl, Pow2, Top;
    ShiftBound(Top(s, p, m), m, 32 - m);
  }

  /** The sign bit tells the two halves of EXTEND's range apart. */
  lemma FirstBit(bytes: seq<Byte>, p: nat, n: nat)
    requires n >= 1
    ensures Top(bytes, p, 1) == 1 <==> Top(bytes, p, n) >= Pow2(n - 1)
  {
    var v := Top(bytes, p, n);
    hide Top, Shl, Shr;
    TopPrefix(bytes, p, 1, n);
    ShrInterval(v, n - 1, 0);
    ShlZero(n - 1);
    ShlOne(n - 1);
  }

  class Jpeg {
    const data: seq<Byte>
    var at: nat
    var code_buffer: nat
    var code_bits: int
    var marker: Byte
    var nomore: bool
    var dc_pred: seq<int>

    ghost var coded: seq<Byte>
    ghost var ending: Byte
    ghost var tail: seq<Byte>
    ghost var fetched: nat

    constructor (input: seq<Byte>)
      ensures data == input && at == 0 && Valid() && Position() == 0 && coded == Entropy(input)
    {
      data, at := input, 0;
      code_buffer, code_bits, marker, nomore := 0, 0, MARKER_NONE, false;
      dc_pred := [0, 0, 0, 0];
      coded, ending, tail, fetched := Entropy(input), MarkerAfter(input), AfterMarker(input), 0;
      new;
      StartsEmpty();
    }

    /** Bits of the coded stream consumed since the last reset. */
    ghost function Position(): int
      reads this`fetched, this`code_bits
    {
      8 * fetched - code_bits
    }

    /** How far ahead of that the reader is, and the run it is in. */
    ghost function Now(): Ahead
      reads this`fetched, this`nomore
    {
      Ahead(fetched, nomore)
    }

    ghost function Current(): Run
      reads this`coded, this`ending
    {
      Run(|coded|, ending != 0)
    }

    /** How many bits of the buffer can be relied on. */
    ghost function Trusted(): int
      reads this`code_bits, this`nomore
    {
      if nomore then 32 else code_bits
    }

    /** The unread input d has what is left of the coded bytes after the first n, then the marker
        and what follows it; only at the end of the input are bytes made up. */
    static ghost predicate Unread(d: seq<Byte>, coded: seq<Byte>, ending: Byte, tail: seq<Byte>, n: nat) {
      && Rest(coded, n) == Entropy(d) && ending == MarkerAfter(d) && tail == AfterMarker(d)
      && (n > |coded| ==> d == [])
    }

    /** The buffer holds the next bits of the coded stream. Before a marker is met the unread
        input has the remaining coded bytes; after it, all of them are behind the buffer's end
        and the count may run below zero, the zeros shifted in being the stream's padding. */
    ghost predicate Reservoir()
      reads this`at, this`code_buffer, this`code_bits, this`marker, this`nomore
      reads this`coded, this`ending, this`tail, this`fetched
    {
      && at <= |data| && -16 <= code_bits <= 32 && Position() >= 0 && Trusted() >= 0
      && Holds(code_buffer, coded, Position(), Trusted())
      && (if nomore then Position() + 32 >= 8 * |coded| && marker == ending && data[at..] == tail
          else Unread(data[at..], coded, ending, tail, fetched) && marker == MARKER_NONE)
    }

    ghost predicate Valid()
      reads this
    {
      Reservoir() && |dc_pred| == 4
    }

    lemma StartsEmpty()
      requires at <= |data| && code_buffer == 0 && code_bits == 0 && !nomore && fetched == 0 && marker == MARKER_NONE
      requires coded == Entropy(data[at..]) && ending == MarkerAfter(data[at..]) && tail == AfterMarker(data[at..])
      ensures Reservoir()
    {
      ShlZero(32);
    }

    /** Starts a new run of coded data at the current place of the input. */
    method Reset()
      requires at <= |data|
      modifies this
      ensures Valid() && Position() == 0 && Now() == Ahead(0, false) && at == old(at) && dc_pred == [0, 0, 0, 0]
      ensures coded == Entropy(data[at..]) && ending == MarkerAfter(data[at..]) && tail == AfterMarker(data[at..])
    {
      code_bits, code_buffer, nomore, marker := 0, 0, false, MARKER_NONE;
      dc_pred := [0, 0, 0, 0];
      coded, ending, tail, fetched := Entropy(data[at..]), MarkerAfter(data[at..]), AfterMarker(data[at..]), 0;
      StartsEmpty();
    }

    // ----- refilling

    method Get8() returns (b: Byte)
      requires at <= |data|
      modifies this`at
      ensures old(at) < |data| ==> b == data[old(at)] && at == old(at) + 1
      ensures old(at) == |data| ==> b == 0 && at == old(at)
    {
      if at < |data| {
        b := data[at];
        at := at + 1;
      } else {
        b := 0;
      }
    }

    /** Reads on to the first byte that is not fill. */
    method SkipFillBytes() returns (c: Byte)
      requires at <= |data|
      modifies this`at
      ensures old(at) <= at <= |data|
      ensures SkipFill(data[old(at)..]) == [] ==> c == 0 && at == |data|
      ensures SkipFill(data[old(at)..]) != [] ==> SkipFill(data[old(at)..]) == [c] + data[at..]
    {
      ghost var r := SkipFill(data[at..]);
      ghost var before := at;
      c := Get8();
      while c == 0xFF
        invariant before <= at <= |data| && old(at) <= before
        invariant r == SkipFill(data[before..])
        invariant if before < |data| then at == before + 1 && c == data[before] else c == 0 && at == before
        decreases |data| - before
      {
        assert data[before..][1..] == data[at..];
        before := at;
        c := Get8();
      }
      if before < |data| {
        assert data[before..] == [c] + data[at..];
      }
    }

    /** Takes the next coded byte, or stops at a marker. */
    method NextCoded() returns (b: Byte)
      requires at <= |data| && !nomore
      requires Unread(data[at..], coded, ending, tail, fetched)
      modifies this`at, this`marker, this`nomore
      ensures old(at) <= at <= |data|
      ensures nomore ==> |coded| <= fetched && marker == ending != 0 && data[at..] == tail
      ensures !nomore ==> b == CodedByte(coded, fetched) && marker == old(marker)
      ensures !nomore ==> Unread(data[at..], coded, ending, tail, fetched + 1)
    {
      ghost var d := data[at..];
      b := Get8();
      assert |d| > 0 ==> d[1..] == data[at..];
      if b == 0xFF {
        var c := SkipFillBytes();
        ghost var r := SkipFill(d[1..]);
        assert |r| > 0 ==> r[1..] == data[at..];
        if c != 0 {
          marker := c;
          nomore := true;
          return;
        }
      }
    }

    /** Refills the buffer to more than 24 bits, or as far as the next marker. After a marker it
        refills with zeros. */
    method GrowBuffer()
      requires Reservoir() && code_bits <= 24
      modifies this`at, this`code_buffer, this`code_bits, this`marker, this`nomore, this`fetched
      ensures Reservoir() && Position() == old(Position()) && code_bits >= old(code_bits)
      ensures code_bits > 24 || (nomore && !old(nomore))
      ensures old(nomore) ==> nomore
      ensures Now() == Refill(Current(), old(Position()), old(Now()))
    {
      hide Holds, Or, Shl, Unread;
      var more := true;
      while more
        invariant Reservoir() && Position() == old(Position()) && code_bits >= old(code_bits)
        invariant if more then code_bits <= 24 else code_bits > 24
        invariant nomore == old(nomore)
        decreases 32 - code_bits
      {
        var b: Byte := 0;
        if nomore {
          OrZero(code_buffer, 24 - code_bits);
        } else {
          WithinRun();
          b := NextCoded();
          if nomore {
            HoldsPad(code_buffer, coded, Position(), code_bits);
            return;
          }
          HoldsByte(code_buffer, coded, Position(), code_bits, fetched, 8);
        }
        code_buffer := Or(code_buffer, Shl(b, 24 - code_bits));
        code_bits := code_bits + 8;
        fetched := fetched + 1;
        more := code_bits <= 24;
      }
      WithinRun();
    }

    /** Before a marker is met, no more bytes are taken than the run has. */
    lemma WithinRun()
      requires Reservoir()
      ensures !nomore && ending != 0 ==> fetched <= |coded|
    {
      hide Holds;
    }

    static lemma OrZero(v: nat, n: nat)
      ensures Or(v, Shl(0, n)) == v
    {
      ShlZero(n);
    }

    // ----- taking bits

    /** Shifting n trusted bits out of the buffer moves the position on by n. */
    lemma Shifted(n: nat)
      requires Reservoir() && n <= Trusted() && n <= 16
      ensures Holds(Shl32(code_buffer, n), coded, Position() + n, if nomore then 32 else code_bits - n)
    {
      hide Holds, Shl, Shl32, Unread;
      Shl32Is(code_buffer, n);
      HoldsShift(code_buffer, coded, Position(), Trusted(), n);
      if nomore {
        HoldsPad(Shl32(code_buffer, n), coded, Position() + n, 32 - n);
      }
    }

    /** The next n bits stand at the top of the buffer. */
    lemma TopBits(n: nat)
      requires Reservoir() && n <= Trusted() && n <= 32
      ensures Shr(code_buffer, 32 - n) == Top(coded, Position(), n)
    {
      hide Holds, Shl, Shr, Top, Unread;
      HoldsTop(code_buffer, coded, Position(), Trusted(), n);
    }

    /** The first 16 bits of the buffer show every code the stream continues with. */
    lemma WindowShowsCodes(s: Sizes)
      requires Reservoir() && Trusted() >= 16
      ensures Shr(code_buffer, 16) < 0x10000
      ensures forall k: nat :: Matches(s, k, Shr(code_buffer, 16), 16) <==> CodeHere(s, coded, Position(), k)
    {
      hide Holds, Shl, Shr, Top, Unread, Matches, CodeHere;
      TopBits(16);
      WindowBound(coded, Position());
      forall k: nat
        ensures Matches(s, k, Shr(code_buffer, 16), 16) <==> CodeHere(s, coded, Position(), k)
      {
        MatchIsHere(s, coded, Position(), k, 16);
      }
    }

    /** Decodes the next code to its value; -1 says that the stream continues with no code. The
        guard against codes longer than the buffer never fires. */
    method HuffDecode(h: Huffman, ghost s: Sizes) returns (sym: int, ghost i: nat)
      requires Reservoir() && TablesFor(h, s) && Faithful(s) && (nomore || code_bits >= 16)
      modifies this`at, this`code_buffer, this`code_bits, this`marker, this`nomore, this`fetched
      ensures sym >= 0 ==> Reservoir() && CodeHere(s, coded, old(Position()), i)
      ensures sym >= 0 ==> Now() == Have(Current(), old(Position()), old(Now()), 16)
      ensures sym >= 0 ==> i < 256 && sym == h.values[i] && Position() == old(Position()) + s[i] && code_bits >= 0
      ensures sym < 0 ==> forall k: nat :: !CodeHere(s, coded, old(Position()), k)
    {
      hide Holds, Shl, Shr, Top, Unread, TablesFor, Matches, Shl32, CodeHere, Faithful;
      i := 0;
      if code_bits < 16 {
        GrowBuffer();
      }
      ghost var p: nat := Position();
      WindowShowsCodes(s);
      var k, len := Lookup(h, code_buffer, s);
      if k < 0 {
        code_bits := code_bits - 16;
        return -1, i;
      }
      i := k;
      HereFacts(s, coded, p, i);
      TablesShape(h, s);
      if len > code_bits {
        assert false;
      }
      Shifted(len);
      code_buffer := Shl32(code_buffer, len);
      code_bits := code_bits - len;
      sym := h.values[k];
    }

    static lemma WindowBound(bytes: seq<Byte>, p: nat)
      ensures Top(bytes, p, 16) < 0x10000 && Top(bytes, p, FAST_BITS) < 512
    {
      Pow2Values();
    }

    static lemma HereFacts(s: Sizes, bytes: seq<Byte>, p: nat, i: nat)
      requires CodeHere(s, bytes, p, i)
      ensures i < |s| && s[i] <= 16
    {
    }

    static lemma TablesShape(h: Huffman, s: Sizes)
      requires TablesFor(h, s)
      ensures Shape(h) && |s| <= 256
    {
    }

    /** Reads n magnitude bits as a signed value; more than 16 bits are refused unread. */
    method ExtendReceive(n: nat) returns (v: int)
      requires Reservoir() && 1 <= n <= 24 && n != 16
      modifies this`at, this`code_buffer, this`code_bits, this`marker, this`nomore, this`fetched
      ensures Reservoir()
      ensures n < 16 ==> Position() == old(Position()) + n && v == Magnitude(coded, old(Position()), n)
      ensures n > 16 ==> Position() == old(Position()) && v == 0
      ensures Now() == Have(Current(), old(Position()), old(Now()), n)
    {
      hide Holds, Shl, Shr, Top, Unread, Shl32, And, Or, Pow2, NotMask;
      if code_bits < n {
        GrowBuffer();
      }
      if n > 16 {
        return 0;
      }
      ghost var p: nat := Position();
      TopBits(n);
      TopBits(1);
      FirstBit(coded, p, n);
      Shifted(n);
      HoldsBound(code_buffer, coded, p, Trusted());
      Rotate(code_buffer, n);
      JBias(n);
      var sgn := Shr(code_buffer, 31);
      var k := Or(Shl32(code_buffer, n), Shr(code_buffer, 32 - n));
      code_buffer := And(k, NotMask(n));
      k := And(k, Pow2(n) - 1);
      code_bits := code_bits - n;
      v := if sgn == 1 then k else k + JBIAS[n];
    }

    // ----- one block

    /** The slow path of one AC coefficient: a code and then its magnitude bits. */
    method AcSlow(hac: Huffman, ghost s: Sizes, k: nat, block: array<int>, dequant: seq<nat>)
      returns (ok: bool, more: bool, k': nat)
      requires Valid() && TablesFor(hac, s) && Faithful(s) && (nomore || code_bits >= 16)
      requires block.Length == 64 == |dequant| && k < 64 && |s| <= 256 == |hac.values|
      modifies this`at, this`code_buffer, this`code_bits, this`marker, this`nomore, this`fetched, block
      ensures StepDone(AcStep(s, hac.values, dequant, coded, old(Position()), k, old(block[..])),
                       ok, more, k', Position(), old(block[..]), block[..])
      ensures ok ==> Valid()
      ensures ok ==> Now() == AheadSlow(s, hac.values, Current(), coded, old(Position()), old(Now()))
    {
      hide Holds, Shl, Shr, Top, Unread, TablesFor, Magnitude, ToShort, Faithful, CodeHere, Reservoir, Dezigzag, Have;
      PositionIsNat();
      ghost var p: nat := Position();
      var rs, i := HuffDecode(hac, s);
      if rs < 0 {
        return false, false, k;
      }
      NextCodeIs(s, coded, p, i);
      HereFacts(s, coded, p, i);
      var size, r := rs % 16, rs / 16;
      if size == 0 {
        if rs != 0xF0 {
          return true, false, k;
        }
        return true, true, k + 16;
      }
      var zig := Dezigzag(k + r);
      var v := ExtendReceive(size);
      block[zig] := ToShort(v * dequant[zig]);
      return true, true, k + r + 1;
    }

    /** The fast path: an entry of the combined table. */
    method AcFast(r: int, ghost hac: Huffman, ghost s: Sizes, k: nat, block: array<int>, dequant: seq<nat>)
      returns (k': nat)
      requires Valid() && TablesFor(hac, s) && (nomore || code_bits >= 16) && code_bits >= 0
      requires block.Length == 64 == |dequant| && k < 64 && |s| <= 256 == |hac.values|
      requires Top(coded, Position(), FAST_BITS) < 512 && AcMeans(hac, s, Top(coded, Position(), FAST_BITS), r)
      modifies this`code_buffer, this`code_bits, block
      ensures Valid()
      ensures StepDone(AcStep(s, hac.values, dequant, coded, old(Position()), k, old(block[..])),
                       true, true, k', Position(), old(block[..]), block[..])
    {
      hide Holds, Shl, Shr, Top, Unread, TablesFor, ToShort, AcMeans, AcStep, Shl32;
      FastAgrees(hac, s, r, dequant, coded, Position(), k, block[..]);
      var len := r % 16;
      Shifted(len);
      code_buffer := Shl32(code_buffer, len);
      code_bits := code_bits - len;
      var zig := Dezigzag(k + r / 16 % 16);
      block[zig] := ToShort(r / 256 * dequant[zig]);
      k' := k + r / 16 % 16 + 1;
    }

    /** One step of the loop did what the format says. */
    static ghost predicate StepDone(r: Step, ok: bool, more: bool, k: nat, p: int, before: seq<int>, data: seq<int>) {
      match r
      case BadCode => !ok
      case EndOfBlock(p') => ok && !more && p == p' && data == before
      case Next(k', p', data') => ok && more && k == k' && p == p' && data == data'
    }

    /** One AC coefficient, by the combined table where it has an entry. */
    method AcOne(hac: Huffman, fac: seq<int>, ghost s: Sizes, k: nat, block: array<int>, dequant: seq<nat>)
      returns (ok: bool, more: bool, k': nat)
      requires Valid() && TablesFor(hac, s) && Faithful(s) && |s| <= 256 == |hac.values|
      requires AcSound(fac, hac, s)
      requires block.Length == 64 == |dequant| && k < 64
      modifies this`at, this`code_buffer, this`code_bits, this`marker, this`nomore, this`fetched, block
      ensures StepDone(AcStep(s, hac.values, dequant, coded, old(Position()), k, old(block[..])),
                       ok, more, k', Position(), old(block[..]), block[..])
      ensures ok ==> Valid()
      ensures ok ==> Now() == AheadAc(s, hac.values, fac, Current(), coded, old(Position()), old(Now()))
    {
      hide Holds, Shl, Shr, Top, Unread, TablesFor, AcMeans, And, AcStep, StepDone, Faithful, Refill, AheadSlow;
      if code_bits < 16 {
        GrowBuffer();
      }
      TopBits(FAST_BITS);
      WindowBound(coded, Position());
      MaskNine(Shr(code_buffer, 32 - FAST_BITS));
      var c := And(Shr(code_buffer, 32 - FAST_BITS), 511);
      var r := fac[c];
      if r != 0 {
        k' := AcFast(r, hac, s, k, block, dequant);
        ok, more := true, true;
      } else {
        ok, more, k' := AcSlow(hac, s, k, block, dequant);
      }
    }

    static lemma MaskNine(c: nat)
      requires c < 512
      ensures And(c, 511) == c
    {
      hide And, Mask, Pow2;
      Pow2Values();
      AndMask(c, FAST_BITS);
      MaskSmall(c, FAST_BITS);
    }

    /** The DC coefficient of component b: its difference from the last one. */
    method DecodeDc(hdc: Huffman, ghost s: Sizes, b: nat) returns (ok: bool, dc: int)
      requires Valid() && TablesFor(hdc, s) && Faithful(s) && |s| <= 256 == |hdc.values| && b < 4
      requires forall i :: 0 <= i < |s| ==> hdc.values[i] <= 24 && hdc.values[i] != 16
      modifies this`at, this`code_buffer, this`code_bits, this`marker, this`nomore, this`fetched, this`dc_pred
      ensures ok <==> DcDifference(s, hdc.values, coded, old(Position())).Diff?
      ensures ok ==> Valid() && dc_pred == old(dc_pred)[b := dc]
      ensures ok ==> Diff(dc - old(dc_pred)[b], Position()) == DcDifference(s, hdc.values, coded, old(Position()))
      ensures ok ==> Now() == AheadDc(s, hdc.values, Current(), coded, old(Position()), old(Now()))
    {
      hide Holds, Shl, Shr, Top, Unread, TablesFor, CodeHere, Faithful, Magnitude, Refill, Reservoir;
      PositionIsNat();
      dc := 0;
      ghost var p: nat := Position();
      if code_bits < 16 {
        GrowBuffer();
      }
      var t, i := HuffDecode(hdc, s);
      if t < 0 {
        return false, 0;
      }
      NextCodeIs(s, coded, p, i);
      HereFacts(s, coded, p, i);
      NoBits(coded, p + s[i]);
      var diff := 0;
      if t != 0 {
        diff := ExtendReceive(t);
      }
      dc := dc_pred[b] + diff;
      dc_pred := dc_pred[b := dc];
      ok := true;
    }

    static lemma NoBits(bytes: seq<Byte>, p: nat)
      ensures Magnitude(bytes, p, 0) == 0
    {
    }

    /** Decodes one block of component b. Whatever the combined table holds, as long as its
        entries are sound, the coefficients, the prediction and the bits used are those of the
        coded stream; and failure means that the stream has no code where one is due. */
    method DecodeBlock(block: array<int>, hdc: Huffman, hac: Huffman, fac: seq<int>, b: nat, dequant: seq<nat>,
                       ghost sdc: Sizes, ghost sac: Sizes) returns (ok: bool)
      requires Valid() && block.Length == 64 == |dequant| && b < 4
      requires TablesFor(hdc, sdc) && Faithful(sdc) && TablesFor(hac, sac) && Faithful(sac)
      requires |sdc| <= 256 == |hdc.values| && |sac| <= 256 == |hac.values|
      requires forall i :: 0 <= i < |sdc| ==> hdc.values[i] <= 24 && hdc.values[i] != 16
      requires AcSound(fac, hac, sac)
      modifies this`at, this`code_buffer, this`code_bits, this`marker, this`nomore, this`fetched, this`dc_pred, block
      ensures var p, pred := old(Position()), old(dc_pred)[b];
              var r := BlockAt(sdc, hdc.values, sac, hac.values, dequant, coded, p, pred);
              if ok then Valid() && r == Block(block[..], Position()) else r == Bad
      ensures ok ==> Now() == AheadBlock(sdc, hdc.values, sac, hac.values, fac, dequant, Current(), coded,
                                         old(Position()), old(dc_pred)[b], old(Now()))
      ensures ok ==> Diff(dc_pred[b] - old(dc_pred)[b], DcDifference(sdc, hdc.values, coded, old(Position())).p)
                     == DcDifference(sdc, hdc.values, coded, old(Position()))
      ensures ok ==> forall c :: 0 <= c < 4 && c != b ==> dc_pred[c] == old(dc_pred)[c]
      ensures ok ==> block[0] == ToShort(dc_pred[b] * dequant[0])
    {
      hide Holds, Shl, Shr, Top, Unread, TablesFor, AcStep, Reservoir, Faithful, ToShort, AcSound, DcDifference, AheadDc, AheadAc;
      var dc;
      ok, dc := DecodeDc(hdc, sdc, b);
      if !ok {
        return;
      }
      ClearBlock(block);
      block[0] := ToShort(dc * dequant[0]);
      assert block[..] == seq(64, _ => 0)[0 := ToShort(dc * dequant[0])];
      PositionIsNat();
      ghost var whole := AcCoefficients(sac, hac.values, dequant, coded, Position(), 1, block[..]);
      ghost var ahead := AheadAcs(sac, hac.values, fac, dequant, Current(), coded, Position(), 1, block[..], Now());
      DcStays(sac, hac.values, dequant, coded, Position(), 1, block[..]);
      var k: nat, more := 1, true;
      while more && k < 64
        invariant Valid() && ok && Position() >= 0 && dc_pred == old(dc_pred)[b := dc]
        invariant if more then whole == AcCoefficients(sac, hac.values, dequant, coded, Position(), k, block[..])
                  else whole == Block(block[..], Position())
        invariant ahead == if more then AheadAcs(sac, hac.values, fac, dequant, Current(), coded, Position(), k, block[..], Now())
                           else Now()
        decreases more, if k < 64 then 64 - k else 0
      {
        ghost var step := AcStep(sac, hac.values, dequant, coded, Position(), k, block[..]);
        ok, more, k := AcOne(hac, fac, sac, k, block, dequant);
        if !ok {
          return;
        }
        PositionIsNat();
      }
    }

    lemma PositionIsNat()
      requires Reservoir()
      ensures Position() >= 0
    {
    }

    static method ClearBlock(block: array<int>)
      modifies block
      ensures block[..] == seq(block.Length, _ => 0)
    {
      for i := 0 to block.Length
        invariant forall j :: 0 <= j < i ==> block[j] == 0
      {
        block[i] := 0;
      }
    }
  }
}
