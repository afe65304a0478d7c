/** The in-memory zlib reader: the bit reservoir, symbol decoding, the growing output buffer
    and the block loop, proved against the DEFLATE format. */
module ZlibReader {
  import opened Bits
  import opened BitStream
  import opened CanonicalCode
  import opened Deflate
  import opened DeflateFetch
  import opened ZHuffman

  const UINT_MAX: nat := 0xFFFF_FFFF

  /** Why the reader gave up. */
  datatype Failure = BadData | OutOfInput | OutputLimit | ReservedCode

  /** What each reason to give up says about the meaning r of the stream and about how far the
      reader gets ahead of it: it is corrupt; it uses a reserved symbol; the reader is starved,
      which it can only be within 16 bits of the end of the input or beyond; its output does not
      fit. */
  predicate Explains(why: Failure, r: Outcome, data: seq<Byte>, room: nat, fetch: Fetch) {
    match why
    case BadData => r == Corrupt
    case ReservedCode => r == ReservedSymbol
    case OutOfInput => fetch == Starved && (r.Done? ==> r.p + 16 > 8 * |data|)
    case OutputLimit => r.Done? ==> |r.out| > room
  }

  /** The size that doubling a buffer of n bytes can reach. */
  function Grown(n: nat): (m: nat)
    ensures m >= n && (n <= UINT_MAX ==> m <= UINT_MAX)
    ensures n > 0 ==> m > UINT_MAX / 2
    decreases UINT_MAX - n
  {
    if n == 0 || n > UINT_MAX / 2 then n else Grown(2 * n)
  }

  const LENGTH_BASE: seq<nat> := [
    3, 4, 5, 6, 7, 8, 9, 10, 11, 13, 15, 17, 19, 23, 27, 31,
    35, 43, 51, 59, 67, 83, 99, 115, 131, 163, 195, 227, 258, 0, 0]

  const LENGTH_EXTRA: seq<nat> := [
    0, 0, 0, 0, 0, 0, 0, 0, 1, 1, 1, 1, 2, 2, 2, 2, 3, 3, 3, 3, 4, 4, 4, 4, 5, 5, 5, 5, 0, 0, 0]

  const DIST_BASE: seq<nat> := [
    1, 2, 3, 4, 5, 7, 9, 13, 17, 25, 33, 49, 65, 97, 129, 193, 257, 385, 513, 769, 1025, 1537,
    2049, 3073, 4097, 6145, 8193, 12289, 16385, 24577, 0, 0]

  const DIST_EXTRA: seq<nat> := [
    0, 0, 0, 0, 1, 1, 2, 2, 3, 3, 4, 4, 5, 5, 6, 6, 7, 7, 8, 8, 9, 9, 10, 10, 11, 11, 12, 12, 13, 13, 0, 0]

  lemma Pow2Table(e: nat)
    requires e <= 13
    ensures Pow2(e) == STEPS[e]
  {
    Pow2Values();
  }

  lemma {:induction false} LengthTable(s: nat)
    requires 257 <= s <= 285
    ensures LENGTH_BASE[s - 257] == LengthBase(s) && LENGTH_EXTRA[s - 257] == LengthExtra(s)
  {
    LengthExtraRow(s);
    if 257 < s < 285 {
      LengthTable(s - 1);
      LengthRow(s);
      hide Pow2;
      Pow2Table(LengthExtra(s - 1));
    }
  }

  lemma LengthExtraRow(s: nat)
    requires 257 <= s <= 285
    ensures LENGTH_EXTRA[s - 257] == LengthExtra(s) <= 5
  {
  }

  const STEPS: seq<nat> := [1, 2, 4, 8, 16, 32, 64, 128, 256, 512, 1024, 2048, 4096, 8192]

  /** Each row of the length table starts where the one before it ends. */
  lemma LengthRow(s: nat)
    requires 257 < s < 285
    ensures LENGTH_EXTRA[s - 258] < 14
    ensures LENGTH_BASE[s - 257] == LENGTH_BASE[s - 258] + STEPS[LENGTH_EXTRA[s - 258]]
  {
    if s < 264 {
    } else if s < 271 {
    } else if s < 278 {
    } else {
    }
  }

  lemma {:induction false} DistTable(d: nat)
    requires d <= 29
    ensures DIST_BASE[d] == DistBase(d) && DIST_EXTRA[d] == DistExtra(d)
  {
    DistExtraRow(d);
    if d > 0 {
      DistTable(d - 1);
      DistRow(d);
      hide Pow2;
      Pow2Table(DistExtra(d - 1));
    }
  }

  lemma DistExtraRow(d: nat)
    requires d <= 29
    ensures DIST_EXTRA[d] == DistExtra(d) <= 13
  {
  }

  lemma DistRow(d: nat)
    requires 0 < d <= 29
    ensures DIST_EXTRA[d - 1] < 14
    ensures DIST_BASE[d] == DIST_BASE[d - 1] + STEPS[DIST_EXTRA[d - 1]]
  {
    if d < 15 {
      DistRowLow(d);
    } else {
      DistRowHigh(d);
    }
  }

  lemma DistRowLow(d: nat)
    requires 0 < d < 15
    ensures DIST_EXTRA[d - 1] < 14
    ensures DIST_BASE[d] == DIST_BASE[d - 1] + STEPS[DIST_EXTRA[d - 1]]
  {
    if d < 8 {
    } else {
    }
  }

  lemma DistRowHigh(d: nat)
    requires 15 <= d <= 29
    ensures DIST_EXTRA[d - 1] < 14
    ensures DIST_BASE[d] == DIST_BASE[d - 1] + STEPS[DIST_EXTRA[d - 1]]
  {
    if d < 22 {
    } else {
    }
  }

  /** The bits in the window are enough to find the next symbol. */
  lemma WindowSymbol(lens: Lengths, data: seq<Byte>, p: nat, n: nat, i: nat)
    requires n >= 15
    ensures Matches(lens, i, Peek(data, p, n)) <==> SymbolAt(lens, data, p, i)
  {
    hide CodeOf, CodeAt, Peek, Rev;
    if i < |lens| {
      CodeAtIsRev(data, p, n, lens[i]);
    }
  }

  class ZBuf {
    const data: seq<Byte>
    var pos: nat
    var num_bits: nat
    var code_buffer: nat
    ghost var fetched: nat

    var buf: array<Byte>
    var zout: nat
    const expandable: bool

    var z_length: Tables
    var z_distance: Tables

    constructor (input: seq<Byte>, obuf: array<Byte>, exp: bool)
      requires 0 < obuf.Length <= UINT_MAX
      ensures data == input && buf == obuf && expandable == exp
      ensures Valid() && pos == fetched == 0 && zout == 0 && num_bits == 0
    {
      data, buf, expandable := input, obuf, exp;
      pos, num_bits, code_buffer, fetched, zout := 0, 0, 0, 0, 0;
      var blank := Tables(seq(512, _ => 0), seq(16, _ => 0), seq(17, _ => 0), seq(16, _ => 0),
                          seq(MAX_SYMBOLS, _ => 0), seq(MAX_SYMBOLS, _ => 0));
      z_length, z_distance := blank, blank;
    }

    /** Bits of the stream consumed so far. */
    ghost function Position(): int
      reads this`fetched, this`num_bits
    {
      8 * fetched - num_bits
    }

    /** The reservoir holds the next num_bits bits of the zero-extended input, and nothing
        above them; `fetched` counts the padding zeros too. */
    ghost predicate Reservoir()
      reads this`fetched, this`num_bits, this`pos, this`code_buffer
    {
      && num_bits <= 32 && Position() >= 0
      && pos == (if fetched < |data| then fetched else |data|)
      && code_buffer == Peek(data, Position(), num_bits)
    }

    ghost predicate Valid()
      reads this
    {
      Reservoir() && zout <= buf.Length && 0 < buf.Length <= UINT_MAX && Shape(z_length) && Shape(z_distance)
    }

    ghost function Out(): seq<Byte>
      requires zout <= buf.Length
      reads this, buf
    {
      buf[..zout]
    }

    /** Bytes of output for which there is room. */
    ghost function Room(): nat
      reads this`buf
    {
      if expandable then Grown(buf.Length) else buf.Length
    }

    lemma PositionIsNat()
      requires Reservoir()
      ensures Position() >= 0
    {
    }

    // ----- the reservoir

    method ZGet8() returns (b: Byte)
      requires pos == (if fetched < |data| then fetched else |data|)
      modifies this`pos, this`fetched
      ensures fetched == old(fetched) + 1 && b == ByteAt(data, old(fetched))
      ensures pos == (if fetched < |data| then fetched else |data|)
    {
      fetched := fetched + 1;
      if pos >= |data| {
        return 0;
      }
      b := data[pos];
      pos := pos + 1;
    }

    /** Refills to more than 24 bits. The guard against stray high bits never fires. */
    method FillBits()
      requires Reservoir() && num_bits <= 24
      modifies this`pos, this`num_bits, this`code_buffer, this`fetched
      ensures Reservoir() && Position() == old(Position()) && 24 < num_bits <= 32
      ensures fetched == Refill(Position())
    {
      hide Peek, Or, Shl, Pow2;
      var more := true;
      while more
        invariant Reservoir() && Position() == old(Position())
        invariant if more then num_bits <= 24 else num_bits > 24
        decreases 32 - num_bits
      {
        if code_buffer >= Pow2(num_bits) {
          assert false;
        }
        WindowExtend(data, Position(), num_bits, fetched, 8);
        var b := ZGet8();
        code_buffer := Or(code_buffer, Shl(b, num_bits));
        num_bits := num_bits + 8;
        more := num_bits <= 24;
      }
      RefillIs(Position(), fetched, num_bits);
    }

    method ZReceive(n: nat) returns (k: nat)
      requires Reservoir() && n <= 16
      modifies this`pos, this`num_bits, this`code_buffer, this`fetched
      ensures Reservoir() && Position() == old(Position()) + n && num_bits + n <= 32
      ensures k == Peek(data, old(Position()), n) && fetched == FetchBits(old(Position()), old(fetched), n)
    {
      hide Peek, And, Shr, Pow2, Refill;
      if num_bits < n {
        FillBits();
      }
      PeekTake(data, Position(), num_bits, n);
      k := And(code_buffer, Pow2(n) - 1);
      code_buffer := Shr(code_buffer, n);
      num_bits := num_bits - n;
    }

    /** Decodes the next symbol. -1 says that no code matches, or that the reader is starved. */
    method ZHuffmanDecode(z: Tables, ghost lens: Lengths) returns (sym: int)
      requires Reservoir() && TablesFor(z, lens) && |lens| <= MAX_SYMBOLS
      modifies this`pos, this`num_bits, this`code_buffer, this`fetched
      ensures Reservoir()
      ensures sym >= 0 ==> SymbolAt(lens, data, old(Position()), sym) && Position() == old(Position()) + lens[sym]
      ensures sym < 0 ==> Position() == old(Position())
      ensures var g := FetchSymbol(data, old(Position()), old(fetched));
              if g == Starved then sym < 0 && Position() + 16 > 8 * |data|
              else g == Fetched(fetched) && (sym < 0 ==> NextSymbol(lens, data, Position()) == Invalid)
    {
      hide Peek, Shr, Matches, SymbolAt, TablesFor, Refill;
      if num_bits < 16 {
        if pos >= |data| {
          return -1;
        }
        FillBits();
      }
      forall i: nat
        ensures Matches(lens, i, code_buffer) <==> SymbolAt(lens, data, Position(), i)
      {
        WindowSymbol(lens, data, Position(), num_bits, i);
      }
      var s;
      sym, s := Decode(z, code_buffer, lens);
      if sym >= 0 {
        SymbolFacts(lens, data, Position(), sym);
        PeekTake(data, Position(), num_bits, s);
        code_buffer := Shr(code_buffer, s);
        num_bits := num_bits - s;
      }
    }

    static lemma SymbolFacts(lens: Lengths, data: seq<Byte>, p: nat, i: nat)
      requires SymbolAt(lens, data, p, i)
      ensures i < |lens| && 0 < lens[i] <= 15
    {
    }

    // ----- the output buffer

    /** Makes room for n more bytes after the first zo by doubling the buffer. */
    method ZExpand(zo: nat, n: nat) returns (ok: bool)
      requires 0 < buf.Length <= UINT_MAX && zo <= buf.Length < zo + n
      modifies this`buf, this`zout
      ensures 0 < buf.Length <= UINT_MAX && zout == zo && zo <= buf.Length
      ensures ok ==> expandable && fresh(buf) && zo + n <= buf.Length && buf[..zo] == old(buf[..zo])
      ensures !ok ==> buf == old(buf) && zo + n > Room()
      ensures Room() == old(Room())
    {
      zout := zo;
      if !expandable {
        return false;
      }
      var limit := buf.Length;
      if UINT_MAX - zo < n {
        return false;
      }
      while zo + n > limit
        invariant 0 < limit <= UINT_MAX
        invariant buf.Length <= limit && zout == zo && Grown(limit) == Grown(buf.Length)
        decreases zo + n - limit
      {
        if limit > UINT_MAX / 2 {
          return false;
        }
        limit := 2 * limit;
      }
      var q := new Byte[limit];
      for i := 0 to buf.Length
        invariant buf == old(buf) && fresh(q) && zout == zo
        invariant q[..i] == buf[..i]
      {
        q[i] := buf[i];
      }
      assert q[..zo] == q[..buf.Length][..zo] == buf[..zo];
      buf := q;
      ok := true;
    }

    /** Copies len bytes from dist bytes back, byte by byte; a distance of 1 repeats one byte. */
    method CopyMatch(zo: nat, len: nat, dist: nat)
      requires 1 <= dist <= zo && zo + len <= buf.Length
      modifies buf
      ensures buf[..zo + len] == Copy(old(buf[..zo]), len, dist)
    {
      if dist == 1 {
        RepeatByte(zo, len);
      } else {
        CopyBytes(zo, len, dist);
      }
    }

    method RepeatByte(zo: nat, len: nat)
      requires 1 <= zo && zo + len <= buf.Length
      modifies buf
      ensures buf[..zo + len] == Copy(old(buf[..zo]), len, 1)
    {
      ghost var all := Copy(buf[..zo], len, 1);
      var o, n := zo, len;
      var v := buf[zo - 1];
      while n > 0
        invariant o + n == zo + len && zo <= o && buf[o - 1] == v
        invariant all == Copy(buf[..o], n, 1)
      {
        ghost var before := buf[..o];
        buf[o] := v;
        assert buf[..o + 1] == before + [before[|before| - 1]];
        o, n := o + 1, n - 1;
      }
    }

    method CopyBytes(zo: nat, len: nat, dist: nat)
      requires 1 <= dist <= zo && zo + len <= buf.Length
      modifies buf
      ensures buf[..zo + len] == Copy(old(buf[..zo]), len, dist)
    {
      ghost var all := Copy(buf[..zo], len, dist);
      var o, n, p := zo, len, zo - dist;
      while n > 0
        invariant o + n == zo + len && p + dist == o && zo <= o
        invariant all == Copy(buf[..o], n, dist)
      {
        ghost var before := buf[..o];
        buf[o] := buf[p];
        assert buf[..o + 1] == before + [before[|before| - dist]];
        o, n, p := o + 1, n - 1, p + 1;
      }
    }

    // ----- compressed blocks

    /** Reads the extra bits of a length or distance, if it has any. */
    method ReadExtra(base: nat, extra: nat) returns (v: nat)
      requires Reservoir() && extra <= 16
      modifies this`pos, this`num_bits, this`code_buffer, this`fetched
      ensures Reservoir() && Position() == old(Position()) + extra
      ensures v == base + Peek(data, old(Position()), extra)
      ensures fetched == FetchBits(old(Position()), old(fetched), extra)
    {
      v := base;
      if extra != 0 {
        var k := ZReceive(extra);
        v := v + k;
      }
    }

    /** Reads the distance that completes a match of length len. */
    method ReadDistance(len: nat, ghost dist: Lengths) returns (ok: bool, d: nat, ghost why: Failure)
      requires Reservoir() && TablesFor(z_distance, dist) && |dist| <= MAX_SYMBOLS
      modifies this`pos, this`num_bits, this`code_buffer, this`fetched
      ensures Reservoir()
      ensures ok ==> NextDistance(dist, data, old(Position()), len) == Got(Match(len, d), Position()) && d >= 1
      ensures ok ==> FetchDistance(dist, data, old(Position()), old(fetched)) == Fetched(fetched)
      ensures !ok ==> TokenFails(why, NextDistance(dist, data, old(Position()), len), data,
                                 FetchDistance(dist, data, old(Position()), old(fetched)))
    {
      hide Peek, SymbolAt, TablesFor, NextSymbol, DistBase, DistExtra, Reservoir, FetchSymbol, FetchBits;
      PositionIsNat();
      ghost var q: nat := Position();
      var z := ZHuffmanDecode(z_distance, dist);
      NextSymbolAdvances(dist, data, q);
      if z < 0 {
        return false, 0, if FetchSymbol(data, q, old(fetched)) == Starved then OutOfInput else BadData;
      }
      NextSymbolIs(dist, data, q, z);
      if z > 29 {
        return false, 0, ReservedCode;
      }
      DistTable(z);
      DistAtLeast1(z);
      d := ReadExtra(DIST_BASE[z], DIST_EXTRA[z]);
      ok, why := true, BadData;
    }

    /** Reads the rest of a match after its length symbol. */
    method ReadMatch(sym: nat, ghost start: nat, ghost f: nat, ghost lit: Lengths, ghost dist: Lengths)
      returns (ok: bool, len: nat, d: nat, ghost why: Failure)
      requires Reservoir() && TablesFor(z_distance, dist) && |dist| <= MAX_SYMBOLS
      requires 257 <= sym && SymbolAt(lit, data, start, sym) && Position() == start + lit[sym]
      requires FetchSymbol(data, start, f) == Fetched(fetched)
      modifies this`pos, this`num_bits, this`code_buffer, this`fetched
      ensures Reservoir()
      ensures ok ==> NextToken(lit, dist, data, start) == Got(Match(len, d), Position()) && len >= 3 && d >= 1
      ensures ok ==> FetchToken(lit, dist, data, start, f) == Fetched(fetched)
      ensures !ok ==> TokenFails(why, NextToken(lit, dist, data, start), data, FetchToken(lit, dist, data, start, f))
    {
      hide Peek, SymbolAt, TablesFor, NextSymbol, LengthBase, LengthExtra, NextDistance, Reservoir, FetchSymbol, FetchBits,
        FetchDistance;
      NextSymbolIs(lit, data, start, sym);
      if sym > 285 {
        return false, 0, 0, ReservedCode;
      }
      LengthTable(sym);
      LengthAtLeast3(sym);
      len := ReadExtra(LENGTH_BASE[sym - 257], LENGTH_EXTRA[sym - 257]);
      ok, d, why := ReadDistance(len, dist);
    }

    /** Appends one literal byte, growing the buffer if it is full. */
    method PutLiteral(zo: nat, b: Byte) returns (ok: bool)
      requires 0 < buf.Length <= UINT_MAX && zo <= buf.Length && zout <= buf.Length
      modifies this`buf, this`zout, buf
      ensures 0 < buf.Length <= UINT_MAX && zo <= buf.Length && zout <= buf.Length
      ensures (buf == old(buf) || fresh(buf)) && Room() == old(Room())
      ensures ok ==> zo < buf.Length && buf[..zo + 1] == old(buf[..zo]) + [b]
      ensures !ok ==> zo + 1 > Room()
    {
      ghost var before := buf[..zo];
      ok := true;
      if zo >= buf.Length {
        ok := ZExpand(zo, 1);
        if !ok {
          return;
        }
      }
      buf[zo] := b;
      assert buf[..zo] == before;
    }

    /** Appends a match, growing the buffer if it does not fit. */
    method PutMatch(zo: nat, len: nat, dist: nat) returns (ok: bool)
      requires 0 < buf.Length <= UINT_MAX && 1 <= dist <= zo <= buf.Length && zout <= buf.Length
      modifies this`buf, this`zout, buf
      ensures 0 < buf.Length <= UINT_MAX && zo <= buf.Length && zout <= buf.Length
      ensures (buf == old(buf) || fresh(buf)) && Room() == old(Room())
      ensures ok ==> zo + len <= buf.Length && buf[..zo + len] == Copy(old(buf[..zo]), len, dist)
      ensures !ok ==> zo + len > Room()
    {
      ok := true;
      if zo + len > buf.Length {
        ok := ZExpand(zo, len);
        if !ok {
          return;
        }
      }
      CopyMatch(zo, len, dist);
    }

    /** Decodes one token and appends what it stands for to the first zo bytes. */
    method ParseToken(zo: nat, ghost lit: Lengths, ghost dist: Lengths, ghost start: nat)
      returns (step: Step, zo': nat, ghost why: Failure)
      requires Reservoir() && start == Position()
      requires 0 < buf.Length <= UINT_MAX && zo <= buf.Length && zout <= buf.Length
      requires |lit| <= MAX_SYMBOLS && |dist| <= MAX_SYMBOLS
      requires TablesFor(z_length, lit) && TablesFor(z_distance, dist)
      modifies this`pos, this`num_bits, this`code_buffer, this`fetched, this`buf, this`zout, buf
      ensures Reservoir() && (buf == old(buf) || fresh(buf)) && Room() == old(Room())
      ensures 0 < buf.Length <= UINT_MAX && zo <= zo' <= buf.Length && zout <= buf.Length
      ensures step == More ==> zo < zo'
      ensures step == More ==>
        Block(lit, dist, data, start, old(buf[..zo])) == Block(lit, dist, data, Position(), buf[..zo'])
      ensures step == End ==> Block(lit, dist, data, start, old(buf[..zo])) == Done(buf[..zo'], Position())
      ensures step == More ==>
        FetchBlock(lit, dist, data, start, old(fetched), old(buf[..zo])) == FetchBlock(lit, dist, data, Position(), fetched, buf[..zo'])
      ensures step == End ==> FetchBlock(lit, dist, data, start, old(fetched), old(buf[..zo])) == Fetched(fetched)
      ensures step == Fail ==> Explains(why, Block(lit, dist, data, start, old(buf[..zo])), data, Room(),
                                        FetchBlock(lit, dist, data, start, old(fetched), old(buf[..zo])))
    {
      hide Peek, SymbolAt, TablesFor, NextSymbol, Reservoir, Block, Copy, NextToken, FetchBlock, FetchToken, FetchSymbol, Room;
      ghost var out, f := buf[..zo], fetched;
      ghost var fetch := FetchBlock(lit, dist, data, start, f, out);
      FetchBlockUnfold(lit, dist, data, start, f, out);
      step, zo', why := Fail, zo, BadData;
      BlockUnfold(lit, dist, data, start, out);
      BlockExtends(lit, dist, data, start, out);
      var z := ZHuffmanDecode(z_length, lit);
      if z < 0 {
        why := NoSymbolReason(lit, dist, data, start, f);
        return;
      }
      TokenOfSymbol(lit, dist, data, start, f, z);
      if z < 256 {
        step, zo', why := StoreLiteral(zo, z, lit, dist, fetch);
      } else if z == 256 {
        step := End;
      } else {
        var ok, len, d;
        ok, len, d, why := ReadMatch(z, start, f, lit, dist);
        if !ok {
          TokenFailure(why, lit, dist, data, start, f, out, Room());
          return;
        }
        if zo < d {
          why := BadData;
          return;
        }
        step, zo', why := StoreMatch(zo, len, d, lit, dist, fetch);
      }
    }

    /** A literal token stored, in terms of what the rest of the block means. */
    method StoreLiteral(zo: nat, b: Byte, ghost lit: Lengths, ghost dist: Lengths, ghost fetch: Fetch)
      returns (step: Step, zo': nat, ghost why: Failure)
      requires Reservoir() && 0 < buf.Length <= UINT_MAX && zo <= buf.Length && zout <= buf.Length
      modifies this`buf, this`zout, buf
      ensures Reservoir() && (buf == old(buf) || fresh(buf)) && Room() == old(Room()) && Position() == old(Position())
      ensures 0 < buf.Length <= UINT_MAX && zo <= zo' <= buf.Length && zout <= buf.Length
      ensures step == More || step == Fail
      ensures step == More ==> zo' == zo + 1 && buf[..zo'] == old(buf[..zo]) + [b]
      ensures step == Fail ==>
        Explains(why, Block(lit, dist, data, Position(), old(buf[..zo]) + [b]), data, Room(), fetch)
    {
      hide Peek, Block;
      BlockExtends(lit, dist, data, Position(), buf[..zo] + [b]);
      step, zo', why := Fail, zo, OutputLimit;
      var ok := PutLiteral(zo, b);
      if ok {
        step, zo' := More, zo + 1;
      }
    }

    method StoreMatch(zo: nat, len: nat, d: nat, ghost lit: Lengths, ghost dist: Lengths, ghost fetch: Fetch)
      returns (step: Step, zo': nat, ghost why: Failure)
      requires Reservoir() && 0 < buf.Length <= UINT_MAX && 1 <= d <= zo <= buf.Length && zout <= buf.Length
      modifies this`buf, this`zout, buf
      ensures Reservoir() && (buf == old(buf) || fresh(buf)) && Room() == old(Room()) && Position() == old(Position())
      ensures 0 < buf.Length <= UINT_MAX && zo <= zo' <= buf.Length && zout <= buf.Length
      ensures step == More || step == Fail
      ensures step == More ==> zo' == zo + len && buf[..zo'] == Copy(old(buf[..zo]), len, d)
      ensures step == Fail ==>
        Explains(why, Block(lit, dist, data, Position(), Copy(old(buf[..zo]), len, d)), data, Room(), fetch)
    {
      hide Peek, Block, Copy;
      BlockExtends(lit, dist, data, Position(), Copy(buf[..zo], len, d));
      CopyIsPeriodic(buf[..zo], len, d);
      step, zo', why := Fail, zo, OutputLimit;
      var ok := PutMatch(zo, len, d);
      if ok {
        step, zo' := More, zo + len;
      }
    }

    /** Decodes tokens up to the end of the block. */
    method ParseHuffmanBlock(ghost lit: Lengths, ghost dist: Lengths) returns (ok: bool, ghost why: Failure)
      requires Valid() && |lit| <= MAX_SYMBOLS && |dist| <= MAX_SYMBOLS
      requires TablesFor(z_length, lit) && TablesFor(z_distance, dist)
      modifies this`pos, this`num_bits, this`code_buffer, this`fetched, this`buf, this`zout, buf
      ensures Valid() && (buf == old(buf) || fresh(buf)) && Room() == old(Room())
      ensures ok ==> Block(lit, dist, data, old(Position()), old(Out())) == Done(Out(), Position())
      ensures ok ==> FetchBlock(lit, dist, data, old(Position()), old(fetched), old(Out())) == Fetched(fetched)
      ensures !ok ==> Explains(why, Block(lit, dist, data, old(Position()), old(Out())), data, Room(),
                               FetchBlock(lit, dist, data, old(Position()), old(fetched), old(Out())))
    {
      hide Peek, SymbolAt, TablesFor, Block, Shape, FetchBlock, Room;
      ghost var r, fetch := Block(lit, dist, data, Position(), Out()), FetchBlock(lit, dist, data, Position(), fetched, Out());
      var zo: nat, step := zout, More;
      why := BadData;
      while step == More
        invariant Reservoir() && 0 < buf.Length <= UINT_MAX && zo <= buf.Length && zout <= buf.Length
        invariant (buf == old(buf) || fresh(buf)) && Room() == old(Room())
        invariant step == More ==> r == Block(lit, dist, data, Position(), buf[..zo])
        invariant step == More ==> fetch == FetchBlock(lit, dist, data, Position(), fetched, buf[..zo])
        invariant step == End ==> r == Done(buf[..zo], Position()) && fetch == Fetched(fetched)
        invariant step == Fail ==> Explains(why, r, data, Room(), fetch)
        decreases step == More, UINT_MAX - zo
      {
        step, zo, why := ParseToken(zo, lit, dist, Position());
      }
      ok := step == End;
      if ok {
        zout := zo;
      }
    }

    // ----- stored blocks

    /** Drops the bits up to the next byte boundary, byte k of the stream. */
    method AlignToByte() returns (ghost k: nat)
      requires Reservoir() && num_bits <= 30
      modifies this`pos, this`num_bits, this`code_buffer, this`fetched
      ensures Reservoir() && num_bits % 8 == 0 && num_bits <= 24
      ensures Position() == 8 * k == Align(old(Position()))
    {
      hide Peek, And, Align, Reservoir;
      PositionIsNat();
      And7(num_bits);
      AlignOf(fetched, num_bits);
      k := fetched - num_bits / 8;
      var drop := And(num_bits, 7);
      if drop != 0 {
        var _ := ZReceive(drop);
      }
      WholeBytes(fetched, num_bits, k);
    }

    /** Reads the four bytes of LEN and NLEN; at most three of them come from the reservoir. */
    method ReadStoredHeader(ghost k: nat) returns (header: seq<Byte>)
      requires Reservoir() && num_bits % 8 == 0 && num_bits <= 24 && Position() == 8 * k
      modifies this`pos, this`num_bits, this`code_buffer, this`fetched
      ensures Reservoir() && num_bits == 0 && Position() == 8 * (k + 4)
      ensures header == BytesAt(data, k, 4)
    {
      hide Peek, And, Shr, Pow2, BytesAt;
      header := [];
      while num_bits > 0
        invariant Reservoir() && num_bits % 8 == 0 && 8 * |header| + num_bits == old(num_bits)
        invariant Position() == 8 * (k + |header|)
        invariant forall i :: 0 <= i < |header| ==> header[i] == ByteAt(data, k + i)
      {
        Pow2Values();
        PeekTake(data, Position(), num_bits, 8);
        PeekByte(data, k + |header|, 8);
        header := header + [And(code_buffer, 255)];
        code_buffer := Shr(code_buffer, 8);
        num_bits := num_bits - 8;
      }
      assert |header| <= 3;
      while |header| < 4
        invariant Reservoir() && num_bits == 0 && |header| <= 4
        invariant Position() == 8 * (k + |header|)
        invariant forall i :: 0 <= i < |header| ==> header[i] == ByteAt(data, k + i)
      {
        PeekNothing(data, Position());
        var b := ZGet8();
        header := header + [b];
        PeekNothing(data, Position());
      }
    }

    /** Copies len input bytes to the output buffer. */
    method CopyInput(len: nat)
      requires pos + len <= |data| && zout + len <= buf.Length
      modifies buf
      ensures buf[..zout + len] == old(buf[..zout]) + data[pos..pos + len]
    {
      for i := 0 to len
        invariant buf[..zout + i] == old(buf[..zout]) + data[pos..pos + i]
      {
        ghost var before := buf[..zout + i];
        buf[zout + i] := data[pos + i];
        assert buf[..zout + (i + 1)] == before + [data[pos + i]];
        assert data[pos..pos + (i + 1)] == data[pos..pos + i] + [data[pos + i]];
      }
    }

    method CopyStored(len: nat, ghost k: nat)
      requires Reservoir() && num_bits == 0 && Position() == 8 * k && pos + len <= |data|
      requires 0 < buf.Length <= UINT_MAX && zout + len <= buf.Length
      modifies this`pos, this`fetched, this`zout, buf
      ensures Reservoir() && Position() == 8 * (k + len) && zout == old(zout) + len
      ensures Out() == old(Out()) + BytesAt(data, k, len)
    {
      hide Peek;
      CopyInput(len);
      assert data[pos..pos + len] == BytesAt(data, k, len);
      PeekNothing(data, Position());
      pos, fetched, zout := pos + len, fetched + len, zout + len;
      PeekNothing(data, Position());
    }

    method ParseUncompressedBlock() returns (ok: bool, ghost why: Failure)
      requires Valid() && num_bits <= 30
      modifies this`pos, this`num_bits, this`code_buffer, this`fetched, this`buf, this`zout, buf
      ensures Valid() && (buf == old(buf) || fresh(buf)) && Room() == old(Room())
      ensures ok ==> Stored(data, old(Position()), old(Out())) == Done(Out(), Position())
      ensures ok ==> FetchStored(data, old(Position())) == Fetched(fetched)
      ensures !ok ==> Explains(why, Stored(data, old(Position()), old(Out())), data, Room(), FetchStored(data, old(Position())))
    {
      hide Peek, Xor, Shape, Align, Stored, BytesAt, FetchStored, Grown;
      ok, why := false, BadData;
      ghost var p0: nat, out0 := Position(), Out();
      ghost var k := AlignToByte();
      var header := ReadStoredHeader(k);
      var len: nat, nlen: nat :=
        header[1] as int * 256 + header[0] as int, header[3] as int * 256 + header[2] as int;
      StoredMeans(data, p0, k, out0, len, nlen);
      Complement(len);
      if nlen != Xor(len, 0xFFFF) {
        return;
      }
      if pos + len > |data| {
        why := OutOfInput;
        return;
      }
      if zout + len > buf.Length {
        var expanded := ZExpand(zout, len);
        if !expanded {
          why := OutputLimit;
          return;
        }
      }
      CopyStored(len, k + 4);
      ok := true;
    }

    // ----- dynamic codes

    /** Reads the lengths of the code length code. */
    method ReadCodeLengthSizes(hclen: nat) returns (sizes: Lengths)
      requires Reservoir() && hclen <= 19
      modifies this`pos, this`num_bits, this`code_buffer, this`fetched
      ensures Reservoir() && Position() == old(Position()) + 3 * hclen
      ensures sizes == CodeLengthCode(data, old(Position()), hclen)
      ensures fetched == FetchFields(old(Position()), old(fetched), hclen)
    {
      hide Peek, CodeLengthCode, Reservoir, FetchBits, FetchFields;
      PositionIsNat();
      ghost var start: nat, f := Position(), fetched;
      sizes := seq(19, _ => 0);
      NoCodeLengths(data, start);
      for i := 0 to hclen
        invariant Reservoir() && Position() == start + 3 * i
        invariant |sizes| == 19 && sizes == CodeLengthCode(data, start, i)
        invariant FetchFields(start, f, hclen) == FetchFields(start + 3 * i, fetched, hclen - i)
      {
        CodeLengthCodeStep(data, start, i);
        FieldsStep(start + 3 * i, fetched, hclen - i);
        var s := ZReceive(3);
        sizes := sizes[CODE_LENGTH_ORDER[i] := s];
      }
      NoFields(start + 3 * hclen, fetched);
    }

    /** Reads one entry of the code length list: a length or a run of lengths. */
    method ReadLengthRun(z: Tables, acc: Lengths, total: nat, ghost cl: Lengths, ghost start: nat)
      returns (ok: bool, acc': Lengths, ghost why: Failure)
      requires Reservoir() && start == Position() && TablesFor(z, cl) && |cl| <= MAX_SYMBOLS && |acc| < total
      modifies this`pos, this`num_bits, this`code_buffer, this`fetched
      ensures Reservoir()
      ensures |acc'| <= total && (ok ==> |acc| < |acc'|)
      ensures ok ==> ReadLengths(cl, data, start, total, acc) == ReadLengths(cl, data, Position(), total, acc')
      ensures ok ==>
        FetchLengths(cl, data, start, old(fetched), total, acc) == FetchLengths(cl, data, Position(), fetched, total, acc')
      ensures !ok ==> LengthsFail(why, ReadLengths(cl, data, start, total, acc), data,
                                  FetchLengths(cl, data, start, old(fetched), total, acc))
    {
      hide Peek, SymbolAt, TablesFor, NextSymbol, Reservoir, ReadLengths, FetchLengths, FetchSymbol, FetchBits;
      ghost var f := fetched;
      Pow2Values();
      ok, acc', why := false, acc, BadData;
      ReadLengthsAdvances(cl, data, start, total, acc);
      var c := ZHuffmanDecode(z, cl);
      if c < 0 || c >= 19 {
        if c >= 19 {
          NextSymbolIs(cl, data, start, c);
        }
        why := LengthFailure(cl, data, start, f, total, acc, c);
        return;
      }
      NextSymbolIs(cl, data, start, c);
      UnfoldLengths(cl, data, start, total, acc);
      UnfoldFetchLengths(cl, data, start, f, total, acc, fetched);
      PositionIsNat();
      if c < 16 {
        return true, acc + [c], BadData;
      }
      var fill := 0;
      if c == 16 {
        if |acc| == 0 {
          return;
        }
        var k := ZReceive(2);
        c := k + 3;
        fill := acc[|acc| - 1];
      } else if c == 17 {
        var k := ZReceive(3);
        c := k + 3;
      } else {
        var k := ZReceive(7);
        c := k + 11;
      }
      if total - |acc| < c {
        return;
      }
      ok, acc' := true, acc + Repeat(fill, c);
    }

    method ReadAllLengths(z: Tables, total: nat, ghost cl: Lengths, ghost start: nat)
      returns (ok: bool, lens: Lengths, ghost why: Failure)
      requires Reservoir() && start == Position() && TablesFor(z, cl) && |cl| <= MAX_SYMBOLS
      modifies this`pos, this`num_bits, this`code_buffer, this`fetched
      ensures Reservoir()
      ensures ok ==> |lens| == total && ReadLengths(cl, data, start, total, []) == Got(lens, Position())
      ensures ok ==> FetchLengths(cl, data, start, old(fetched), total, []) == Fetched(fetched)
      ensures !ok ==> LengthsFail(why, ReadLengths(cl, data, start, total, []), data,
                                  FetchLengths(cl, data, start, old(fetched), total, []))
    {
      hide Peek, SymbolAt, TablesFor, NextSymbol, Reservoir, ReadLengths, FetchLengths;
      ghost var fetch := FetchLengths(cl, data, start, fetched, total, []);
      ok, lens, why := true, [], BadData;
      while ok && |lens| < total
        invariant Reservoir() && Position() >= 0 && |lens| <= total
        invariant ok ==> ReadLengths(cl, data, start, total, []) == ReadLengths(cl, data, Position(), total, lens)
        invariant ok ==> fetch == FetchLengths(cl, data, Position(), fetched, total, lens)
        invariant !ok ==> LengthsFail(why, ReadLengths(cl, data, start, total, []), data, fetch)
        decreases ok, total - |lens|
      {
        ok, lens, why := ReadLengthRun(z, lens, total, cl, Position());
        PositionIsNat();
      }
      if ok {
        LengthsComplete(cl, data, Position(), fetched, total, lens);
      }
    }

    /** Reads the header of a dynamic block, up to the list of all code lengths. */
    method ReadDynamicHeader(ghost start: nat) returns (ok: bool, hlit: nat, lens: Lengths, ghost why: Failure)
      requires Reservoir() && start == Position() && Shape(z_length)
      modifies this`pos, this`num_bits, this`code_buffer, this`fetched
      ensures Reservoir()
      ensures ok ==> hlit <= |lens| <= hlit + 32 && hlit <= MAX_SYMBOLS
      ensures ok ==>
        DynamicCodes(data, start)
        == if Decodable(lens[..hlit]) && Decodable(lens[hlit..])
           then Got(Codes(lens[..hlit], lens[hlit..]), Position()) else Invalid
      ensures ok ==> FetchCodes(data, start, old(fetched)) == Fetched(fetched)
      ensures !ok ==> CodesFail(why, DynamicCodes(data, start), data, FetchCodes(data, start, old(fetched)))
    {
      hide Peek, TablesFor, Reservoir, ReadLengths, Decodable, CodeLengthCode, Shape, Pow2, FetchLengths, FetchFields, FetchBits;
      ok, lens, why := false, [], BadData;
      Pow2Values();
      hlit := ZReceive(5);
      hlit := hlit + 257;
      var hdist := ZReceive(5);
      hdist := hdist + 1;
      var hclen := ZReceive(4);
      hclen := hclen + 4;
      var sizes := ReadCodeLengthSizes(hclen);
      // the stack-allocated table starts with arbitrary contents; any will do
      var built, z_codelength := Build(z_length, sizes);
      if !built {
        return;
      }
      PositionIsNat();
      ok, lens, why := ReadAllLengths(z_codelength, hlit + hdist, sizes, Position());
    }

    /** Reads the two codes of a dynamic block into the tables. */
    method ComputeHuffmanCodes(ghost start: nat) returns (ok: bool, ghost codes: Codes, ghost why: Failure)
      requires Valid() && start == Position()
      modifies this`pos, this`num_bits, this`code_buffer, this`fetched, this`z_length, this`z_distance
      ensures Valid()
      ensures ok ==> DynamicCodes(data, start) == Got(codes, Position())
      ensures ok ==> |codes.lit| <= MAX_SYMBOLS && |codes.dist| <= MAX_SYMBOLS
      ensures ok ==> TablesFor(z_length, codes.lit) && TablesFor(z_distance, codes.dist)
      ensures ok ==> FetchCodes(data, start, old(fetched)) == Fetched(fetched)
      ensures !ok ==> CodesFail(why, DynamicCodes(data, start), data, FetchCodes(data, start, old(fetched)))
    {
      hide TablesFor, Reservoir, Decodable, DynamicCodes, Shape, FetchCodes;
      codes := Codes([], []);
      var hlit, lens;
      ok, hlit, lens, why := ReadDynamicHeader(start);
      if !ok {
        return;
      }
      ok, z_length := Build(z_length, lens[..hlit]);
      if !ok {
        return false, codes, BadData;
      }
      ok, z_distance := Build(z_distance, lens[hlit..]);
      if !ok {
        return false, codes, BadData;
      }
      codes := Codes(lens[..hlit], lens[hlit..]);
    }

    // ----- whole streams

    /** Builds the tables of the fixed codes. */
    method UseFixedCodes()
      requires Valid()
      modifies this`z_length, this`z_distance
      ensures Valid()
      ensures TablesFor(z_length, FixedLengths()) && TablesFor(z_distance, FixedDistances())
    {
      hide Reservoir, TablesFor, Decodable;
      FixedCodesDecodable();
      var ok;
      ok, z_length := Build(z_length, FixedLengths());
      ok, z_distance := Build(z_distance, FixedDistances());
    }

    /** Decodes one block of any kind. */
    method ParseBlock() returns (ok: bool, last: bool, ghost why: Failure)
      requires Valid()
      modifies this`pos, this`num_bits, this`code_buffer, this`fetched, this`z_length, this`z_distance,
               this`buf, this`zout, buf
      ensures Valid() && (buf == old(buf) || fresh(buf)) && Room() == old(Room())
      ensures last <==> Peek(data, old(Position()), 1) == 1
      ensures ok ==> AnyBlock(data, old(Position()), old(Out())) == Done(Out(), Position())
      ensures ok ==> FetchAnyBlock(data, old(Position()), old(fetched), old(Out())) == Fetched(fetched)
      ensures !ok ==> Explains(why, AnyBlock(data, old(Position()), old(Out())), data, Room(),
                               FetchAnyBlock(data, old(Position()), old(fetched), old(Out())))
    {
      hide Peek, TablesFor, Block, Stored, DynamicCodes, Shape, FetchBlock, FetchStored, FetchCodes, FetchBits, Grown;
      ghost var start: nat, out, f := Position(), Out(), fetched;
      var final := ZReceive(1);
      last := final == 1;
      var kind := ZReceive(2);
      ok, why := false, BadData;
      if kind == 0 {
        ok, why := ParseUncompressedBlock();
      } else if kind == 3 {
      } else if kind == 1 {
        UseFixedCodes();
        ok, why := ParseHuffmanBlock(FixedLengths(), FixedDistances());
      } else {
        TwoBits(data, start + 1, kind);
        ghost var codes;
        ok, codes, why := ComputeHuffmanCodes(start + 3);
        if !ok {
          CodesFailure(why, data, start + 3, FetchBits(start + 1, FetchBits(start, f, 1), 2), out, Room());
          return;
        }
        ok, why := ParseHuffmanBlock(codes.lit, codes.dist);
      }
    }

    /** Checks the two bytes of the zlib header (RFC 1950, section 2.2). */
    method ParseZlibHeader() returns (ok: bool)
      requires pos == fetched == 0
      modifies this`pos, this`fetched
      ensures fetched == 2 && pos == (if 2 < |data| then 2 else |data|)
      ensures ok <==> ZlibHeader(data)
    {
      hide And;
      var cmf := ZGet8();
      And15(cmf);
      var cm := And(cmf, 15);
      var flg := ZGet8();
      if pos >= |data| {
        return false;
      }
      if (cmf as int * 256 + flg as int) % 31 != 0 {
        return false;
      }
      if And(flg, 32) != 0 {
        return false;
      }
      ok := cm == 8;
    }

    /** Decodes a whole stream. It succeeds exactly when the header is right, the stream is
        well-formed, its output fits and the reader is never starved. */
    method ParseZlib(parse_header: bool) returns (ok: bool, ghost why: Failure)
      requires Valid() && pos == fetched == 0 && zout == 0
      modifies this, buf
      ensures Valid() && (buf == old(buf) || fresh(buf)) && Room() == old(Room())
      ensures ok ==> Inflate(data, if parse_header then 16 else 0, []) == Done(Out(), Position())
      ensures !ok ==> (parse_header && !ZlibHeader(data))
                      || Explains(why, Inflate(data, if parse_header then 16 else 0, []), data, Room(), Ahead(data, parse_header))
      ensures var r := Inflate(data, if parse_header then 16 else 0, []);
              ok <==> (parse_header ==> ZlibHeader(data)) && r.Done? && |r.out| <= Room() && Ahead(data, parse_header) != Starved
      ensures var r := Inflate(data, if parse_header then 16 else 0, []);
              (parse_header ==> ZlibHeader(data)) && r.Done? && r.p + 16 <= 8 * |data| && |r.out| <= Room() ==> ok
    {
      hide Peek, Inflate, AnyBlock, ZlibHeader, Shape, FetchStream, FetchAnyBlock, Grown;
      why := BadData;
      if parse_header {
        ok := ParseZlibHeader();
        PeekNothing(data, 0);
        PeekNothing(data, Position());
        if !ok {
          return;
        }
      }
      num_bits, code_buffer := 0, 0;
      PeekNothing(data, Position());
      ghost var r, fetch := Inflate(data, Position(), []), FetchStream(data, Position(), fetched, []);
      assert Out() == [];
      var last := false;
      ok := true;
      while ok && !last
        invariant Valid() && (buf == old(buf) || fresh(buf)) && Room() == old(Room())
        invariant ok && !last ==> r == Inflate(data, Position(), Out()) && fetch == FetchStream(data, Position(), fetched, Out())
        invariant ok && last ==> r == Done(Out(), Position()) && fetch == Fetched(fetched)
        invariant !ok ==> Explains(why, r, data, Room(), fetch)
        decreases ok && !last, 8 * |data| - Position()
      {
        ghost var p: nat, out, f := Position(), Out(), fetched;
        InflateUnfold(data, p, out);
        FetchUnfold(data, p, f, out);
        AnyBlockExtends(data, p, out);
        AnyBlockStartsInside(data, p, out);
        ok, last, why := ParseBlock();
        if !ok {
          BlockFailure(why, data, p, f, out, Room());
        }
      }
      FitsItsRoom();
    }

    lemma FitsItsRoom()
      requires Valid()
      ensures |Out()| <= Room()
    {
    }
  }

  /** How far the reader gets ahead of the stream in data, or that it is starved. */
  ghost function Ahead(data: seq<Byte>, parse_header: bool): Fetch {
    if parse_header then FetchStream(data, 16, 2, []) else FetchStream(data, 0, 0, [])
  }

  /** A zlib header for DEFLATE without preset dictionary, followed by something. */
  predicate ZlibHeader(data: seq<Byte>) {
    && |data| > 2
    && (data[0] as int * 256 + data[1] as int) % 31 == 0
    && And(data[1], 32) == 0
    && data[0] % 16 == 8
  }

  lemma And15(n: nat)
    ensures And(n, 15) == n % 16
  {
    hide And, Mask, Pow2;
    Pow2Values();
    AndMask(n, 4);
    MaskMod(n, 4);
  }

  /** A block that could not be decoded explains the failure of its stream. */
  lemma BlockFailure(why: Failure, data: seq<Byte>, p: nat, f: nat, out: seq<Byte>, room: nat)
    requires Explains(why, AnyBlock(data, p, out), data, room, FetchAnyBlock(data, p, f, out))
    ensures Explains(why, Inflate(data, p, out), data, room, FetchStream(data, p, f, out))
  {
    hide Inflate, AnyBlock, Peek, FetchStream, FetchAnyBlock;
    InflateUnfold(data, p, out);
    FetchUnfold(data, p, f, out);
    var b := AnyBlock(data, p, out);
    if b.Done? {
      InflateExtends(data, b.p, b.out);
    }
  }

  /** What a failed read says about the code lengths, or codes, that should have come. */
  predicate LengthsFail(why: Failure, r: Read<Lengths>, data: seq<Byte>, fetch: Fetch) {
    if why == BadData then r == Invalid
    else why == OutOfInput && fetch == Starved && (r.Got? ==> r.p + 16 > 8 * |data|)
  }

  predicate CodesFail(why: Failure, r: Read<Codes>, data: seq<Byte>, fetch: Fetch) {
    if why == BadData then r == Invalid
    else why == OutOfInput && fetch == Starved && (r.Got? ==> r.p + 16 > 8 * |data|)
  }

  lemma TwoBits(data: seq<Byte>, p: nat, kind: nat)
    requires kind == Peek(data, p, 2) && kind != 0 && kind != 1 && kind != 3
    ensures kind == 2
  {
    Pow2Values();
  }

  lemma CodesFailure(why: Failure, data: seq<Byte>, p: nat, f: nat, out: seq<Byte>, room: nat)
    requires CodesFail(why, DynamicCodes(data, p), data, FetchCodes(data, p, f))
    ensures var r := match DynamicCodes(data, p)
                     case Got(c, q) => Block(c.lit, c.dist, data, q, out)
                     case _ => Corrupt;
            Explains(why, r, data, room, FetchDynamic(data, p, f, out))
  {
    hide DynamicCodes, Block, FetchCodes;
    var d := DynamicCodes(data, p);
    if d.Got? {
      BlockExtends(d.v.lit, d.v.dist, data, d.p, out);
    }
  }

  lemma NoCodeLengths(data: seq<Byte>, p: nat)
    ensures CodeLengthCode(data, p, 0) == seq(19, _ => 0)
  {
  }

  ghost function LengthFailure(cl: Lengths, data: seq<Byte>, p: nat, f: nat, total: nat, acc: Lengths, c: int): (why: Failure)
    requires |acc| < total
    ensures FetchSymbol(data, p, f) == Starved ==> why == OutOfInput && FetchLengths(cl, data, p, f, total, acc) == Starved
    ensures FetchSymbol(data, p, f) != Starved ==> why == BadData
    ensures NextSymbol(cl, data, p) == Invalid ==> ReadLengths(cl, data, p, total, acc) == Invalid
    ensures c >= 19 && NextSymbol(cl, data, p).Got? && NextSymbol(cl, data, p).v == c ==>
      ReadLengths(cl, data, p, total, acc) == Invalid
  {
    if FetchSymbol(data, p, f) == Starved then OutOfInput else BadData
  }

  lemma UnfoldFetchLengths(cl: Lengths, data: seq<Byte>, p: nat, f: nat, total: nat, acc: Lengths, g: nat)
    requires |acc| < total && NextSymbol(cl, data, p).Got? && FetchSymbol(data, p, f) == Fetched(g)
    ensures var s, q := NextSymbol(cl, data, p).v, NextSymbol(cl, data, p).p;
            var all := FetchLengths(cl, data, p, f, total, acc);
            && (s < 16 ==> all == FetchLengths(cl, data, q, g, total, acc + [s]))
            && (s == 16 && acc != [] ==>
                  all == FetchRun(cl, data, q + 2, FetchBits(q, g, 2), total, acc, acc[|acc| - 1], 3 + Peek(data, q, 2)))
            && (s == 17 ==> all == FetchRun(cl, data, q + 3, FetchBits(q, g, 3), total, acc, 0, 3 + Peek(data, q, 3)))
            && (s == 18 ==> all == FetchRun(cl, data, q + 7, FetchBits(q, g, 7), total, acc, 0, 11 + Peek(data, q, 7)))
  {
    hide Peek, NextSymbol, FetchBits, FetchSymbol;
  }

  /** One entry of the code length list. */
  lemma UnfoldLengths(cl: Lengths, data: seq<Byte>, p: nat, total: nat, acc: Lengths)
    requires |acc| < total && NextSymbol(cl, data, p).Got?
    ensures var s, q := NextSymbol(cl, data, p).v, NextSymbol(cl, data, p).p;
            && (s < 16 ==> ReadLengths(cl, data, p, total, acc) == ReadLengths(cl, data, q, total, acc + [s]))
            && (s == 16 && acc == [] ==> ReadLengths(cl, data, p, total, acc) == Invalid)
            && (s == 16 && acc != [] ==>
                  ReadLengths(cl, data, p, total, acc)
                  == RunOf(cl, data, q + 2, total, acc, acc[|acc| - 1], 3 + Peek(data, q, 2)))
            && (s == 17 ==>
                  ReadLengths(cl, data, p, total, acc)
                  == RunOf(cl, data, q + 3, total, acc, 0, 3 + Peek(data, q, 3)))
            && (s == 18 ==>
                  ReadLengths(cl, data, p, total, acc)
                  == RunOf(cl, data, q + 7, total, acc, 0, 11 + Peek(data, q, 7)))
  {
    hide Peek, NextSymbol;
  }

  ghost function RunOf(cl: Lengths, data: seq<Byte>, p: nat, total: nat, acc: Lengths, x: nat, n: nat): Read<Lengths>
    requires x <= 15
  {
    if |acc| + n > total then Invalid else ReadLengths(cl, data, p, total, acc + Repeat(x, n))
  }

  lemma LengthsComplete(cl: Lengths, data: seq<Byte>, p: nat, f: nat, total: nat, acc: Lengths)
    requires |acc| >= total
    ensures ReadLengths(cl, data, p, total, acc) == Got(acc, p) && FetchLengths(cl, data, p, f, total, acc) == Fetched(f)
  {
  }

  /** A stored block in terms of its four header bytes. */
  lemma StoredMeans(data: seq<Byte>, p: nat, k: nat, out: seq<Byte>, len: nat, nlen: nat)
    requires Align(p) == 8 * k
    requires len == ByteAt(data, k) + 256 * ByteAt(data, k + 1)
    requires nlen == ByteAt(data, k + 2) + 256 * ByteAt(data, k + 3)
    ensures Stored(data, p, out) ==
            if len + nlen != 0xFFFF then Corrupt else Done(out + BytesAt(data, k + 4, len), 8 * (k + 4 + len))
    ensures FetchStored(data, p) ==
            if len + nlen != 0xFFFF then Fetched(k + 4)
            else if (if k + 4 < |data| then k + 4 else |data|) + len > |data| then Starved
            else Fetched(k + 4 + len)
  {
    hide Peek, Align, BytesAt;
    PeekTwoBytes(data, k, 8);
    PeekTwoBytes(data, k + 2, 8);
  }

  lemma AlignOf(bytes: nat, bits: nat)
    requires bits <= 8 * bytes
    ensures Align(8 * bytes - bits) == 8 * bytes - bits + bits % 8 == 8 * (bytes - bits / 8)
  {
  }

  lemma WholeBytes(bytes: nat, bits: nat, k: nat)
    requires 8 * bytes - bits == 8 * k && bits <= 31
    ensures bits % 8 == 0 && bits <= 24
  {
  }

  lemma And7(n: nat)
    ensures And(n, 7) == n % 8
  {
    hide And, Mask, Pow2;
    Pow2Values();
    AndMask(n, 3);
    MaskMod(n, 3);
  }

  lemma Complement(len: nat)
    requires len <= 0xFFFF
    ensures Xor(len, 0xFFFF) == 0xFFFF - len
  {
    hide Xor;
    Pow2Values();
    XorOnes(len, 16);
  }

  datatype Step = More | End | Fail

  /** The token that a literal or end-of-block symbol stands for. */
  lemma TokenOfSymbol(lit: Lengths, dist: Lengths, data: seq<Byte>, p: nat, f: nat, z: nat)
    requires SymbolAt(lit, data, p, z)
    ensures z < |lit|
    ensures z < 256 ==> NextToken(lit, dist, data, p) == Got(Literal(z), p + lit[z])
    ensures z == 256 ==> NextToken(lit, dist, data, p) == Got(EndOfBlock, p + lit[z])
    ensures z <= 256 ==> FetchToken(lit, dist, data, p, f) == FetchSymbol(data, p, f)
  {
    NextSymbolIs(lit, data, p, z);
    hide NextSymbol, CodeAt, CodeOf, FetchSymbol;
  }

  ghost function NoSymbolReason(lit: Lengths, dist: Lengths, data: seq<Byte>, p: nat, f: nat): (why: Failure)
    ensures FetchSymbol(data, p, f) == Starved ==> why == OutOfInput && FetchToken(lit, dist, data, p, f) == Starved
    ensures FetchSymbol(data, p, f) != Starved ==> why == BadData
    ensures NextSymbol(lit, data, p) == Invalid ==> NextToken(lit, dist, data, p) == Invalid
  {
    if FetchSymbol(data, p, f) == Starved then OutOfInput else BadData
  }

  /** A token that could not be read explains the failure of its block. */
  lemma TokenFailure(why: Failure, lit: Lengths, dist: Lengths, data: seq<Byte>, p: nat, f: nat, out: seq<Byte>, room: nat)
    requires TokenFails(why, NextToken(lit, dist, data, p), data, FetchToken(lit, dist, data, p, f))
    ensures Explains(why, Block(lit, dist, data, p, out), data, room, FetchBlock(lit, dist, data, p, f, out))
  {
    hide NextToken, Block, Copy, FetchBlock, FetchToken;
    BlockUnfold(lit, dist, data, p, out);
    FetchBlockUnfold(lit, dist, data, p, f, out);
    var t := NextToken(lit, dist, data, p);
    if t.Got? && t.v.Literal? {
      BlockExtends(lit, dist, data, t.p, out + [t.v.b]);
    } else if t.Got? && t.v.Match? && 0 < t.v.dist <= |out| {
      BlockExtends(lit, dist, data, t.p, Copy(out, t.v.len, t.v.dist));
    }
  }

  /** What a failed read says about the token that should have come. */
  predicate TokenFails(why: Failure, t: Read<Token>, data: seq<Byte>, fetch: Fetch) {
    match why
    case BadData => t == Invalid
    case ReservedCode => t == Reserved
    case OutOfInput => fetch == Starved && (t.Got? ==> t.p + 16 > 8 * |data|)
    case OutputLimit => false
  }

  lemma PeekNothing(data: seq<Byte>, p: nat)
    ensures Peek(data, p, 0) == 0
  {
  }

  lemma {:induction false} LengthAtLeast3(s: nat)
    requires 257 <= s <= 285
    ensures LengthBase(s) >= 3 && LengthExtra(s) <= 5
  {
    if 257 < s < 285 {
      LengthAtLeast3(s - 1);
    }
  }

  lemma {:induction false} DistAtLeast1(d: nat)
    requires d <= 29
    ensures DistBase(d) >= 1 && DistExtra(d) <= 13
  {
    if d > 0 {
      DistAtLeast1(d - 1);
    }
  }
}
