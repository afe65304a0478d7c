/** The GIF decoder's variable-width LZW code, on the bit sequence of a frame's data sub-blocks,
    with every dictionary entry kept as a string of its own. The table limit is the decoder's;
    GifFormat has that of the format. */
module GifLzw {
  import opened Bits
  import opened BitStream

  const TABLE_SIZE: nat := 8192

  // ----- data sub-blocks; past the end of the file every byte reads as 0

  function Next(data: seq<Byte>, pos: nat): nat {
    if pos < |data| then pos + 1 else pos
  }

  /** The bytes of all sub-blocks from the length byte at pos to the terminator. */
  function SubBlocks(data: seq<Byte>, pos: nat): seq<Byte>
    decreases if pos < |data| then |data| - pos else 0, 0, 0
  {
    if ByteAt(data, pos) == 0 then [] else RestOfBlock(data, Next(data, pos), ByteAt(data, pos))
  }

  /** The same, from inside a sub-block of which len bytes are left. */
  function RestOfBlock(data: seq<Byte>, pos: nat, len: nat): seq<Byte>
    decreases if pos < |data| then |data| - pos else 0, 1, len
  {
    if len == 0 then SubBlocks(data, pos)
    else [ByteAt(data, pos)] + RestOfBlock(data, Next(data, pos), len - 1)
  }

  /** The place behind the terminator of the sub-blocks. */
  function BlocksEnd(data: seq<Byte>, pos: nat): nat
    decreases |data| - pos, 0, 0
  {
    if ByteAt(data, pos) == 0 then Next(data, pos) else RestEnd(data, Next(data, pos), ByteAt(data, pos))
  }

  function RestEnd(data: seq<Byte>, pos: nat, len: nat): nat
    decreases |data| - pos, 1, len
  {
    if len == 0 then BlocksEnd(data, pos) else RestEnd(data, Next(data, pos), len - 1)
  }

  /** Places beyond the end of the data are all the same to a reader. */
  function Clip(data: seq<Byte>, pos: nat): nat {
    if pos < |data| then pos else |data|
  }

  /** The rest of a block may be skipped at once. */
  lemma {:induction false} SkipRest(data: seq<Byte>, pos: nat, len: nat)
    ensures Clip(data, RestEnd(data, pos, len)) == Clip(data, BlocksEnd(data, pos + len))
    decreases len
  {
    if len > 0 {
      SkipRest(data, Next(data, pos), len - 1);
    }
  }

  // ----- the decoder

  datatype Status = Finished | NoClearCode | TooManyCodes | IllegalCode

  datatype Lzw = Lzw(dict: seq<seq<Byte>>, prev: int, width: nat, cleared: bool)

  datatype Step = Stop(status: Status) | Go(st: Lzw, emit: seq<Byte>)

  datatype Decoded = Decoded(px: seq<Byte>, status: Status)

  /** One string per pixel value, then the clear and the end code. */
  function Roots(cs: nat): (dict: seq<seq<Byte>>)
    ensures |dict| == Pow2(cs) + 2
    ensures forall c :: 0 <= c < Pow2(cs) ==> dict[c] == [c % 256]
  {
    seq(Pow2(cs), c => [c % 256]) + [[], []]
  }

  function Initial(cs: nat, cleared: bool): Lzw {
    Lzw(Roots(cs), -1, cs + 1, cleared)
  }

  /** c denotes a string: it is defined and neither the clear nor the end code. */
  predicate IsString(cs: nat, dict: seq<seq<Byte>>, c: int) {
    0 <= c < |dict| && c != Pow2(cs) && c != Pow2(cs) + 1
  }

  ghost predicate Good(cs: nat, st: Lzw) {
    && Pow2(cs) + 2 <= |st.dict| <= TABLE_SIZE && st.width >= 1
    && (forall c :: IsString(cs, st.dict, c) ==> st.dict[c] != [])
    && (st.prev < 0 || IsString(cs, st.dict, st.prev))
    && (st.prev < 0 ==> |st.dict| == Pow2(cs) + 2)
    && (forall c :: 0 <= c < Pow2(cs) ==> st.dict[c] == [c % 256])
  }

  /** When codes get a bit wider: when the low bits of the next free code are zero, as the decoder
      tests it, or when that code needs another bit, as the format states it. */
  datatype Rule = LowBitsZero | PowerReached

  /** Code width once `next` is the next free code. */
  function Grow(rule: Rule, width: nat, next: nat): nat {
    if next <= 0xFFF && (if rule == LowBitsZero then Mask(next, width) == 0 else next == Pow2(width))
    then width + 1 else width
  }

  /** The effect of one code. */
  function StepCode(rule: Rule, cs: nat, st: Lzw, code: nat): (r: Step)
    requires cs <= 12 && Good(cs, st)
    ensures r.Go? ==> Good(cs, r.st)
  {
    var clear := Pow2(cs);
    if code == clear then
      InitialGood(cs);
      Go(Initial(cs, true), [])
    else if code == clear + 1 then Stop(Finished)
    else if code > |st.dict| then Stop(IllegalCode)
    else if !st.cleared then Stop(NoClearCode)
    else if st.prev < 0 then
      if code == |st.dict| then Stop(IllegalCode)
      else Go(Lzw(st.dict, code, Grow(rule, st.width, |st.dict|), true), st.dict[code])
    else if |st.dict| == TABLE_SIZE then Stop(TooManyCodes)
    else
      var source := if code < |st.dict| then st.dict[code] else st.dict[st.prev];
      var dict := st.dict + [st.dict[st.prev] + [source[0]]];
      Go(Lzw(dict, code, Grow(rule, st.width, |dict|), true), dict[code])
  }

  lemma InitialGood(cs: nat)
    requires cs <= 12
    ensures Good(cs, Initial(cs, true)) && Good(cs, Initial(cs, false))
  {
    Pow2Mono(cs, 12);
    Pow2Values();
  }

  /** All codes of the payload from bit p on. */
  function Run(rule: Rule, cs: nat, payload: seq<Byte>, p: nat, st: Lzw, px: seq<Byte>): Decoded
    requires cs <= 12 && Good(cs, st)
    decreases 8 * |payload| - p
  {
    if p + st.width > 8 * |payload| then Decoded(px, Finished)
    else
      match StepCode(rule, cs, st, Peek(payload, p, st.width))
      case Stop(status) => Decoded(px, status)
      case Go(st', emit) => Run(rule, cs, payload, p + st.width, st', px + emit)
  }

  function Decode(rule: Rule, cs: nat, payload: seq<Byte>): Decoded
    requires cs <= 12
  {
    InitialGood(cs);
    Run(rule, cs, payload, 0, Initial(cs, false), [])
  }

  // ----- the two rules for the code width

  /** Free codes do not outgrow the code width. */
  predicate WidthFits(st: Lzw) {
    |st.dict| > 0xFFF || |st.dict| < Pow2(st.width) || (st.prev < 0 && |st.dict| == Pow2(st.width))
  }

  lemma {:induction false} MaskZero(v: nat, n: nat)
    requires 0 < v <= Pow2(n)
    ensures Mask(v, n) == 0 <==> v == Pow2(n)
  {
    if n > 0 {
      MaskZero((v + 1) / 2, n - 1);
      if v % 2 == 0 {
        MaskZero(v / 2, n - 1);
      }
    }
  }

  lemma FirstWidthFits(cs: nat)
    requires 1 <= cs
    ensures WidthFits(Initial(cs, true)) && WidthFits(Initial(cs, false))
  {
    Pow2Mono(1, cs);
  }

  lemma SameGrowth(width: nat, next: nat)
    requires 0 < next && (next > 0xFFF || next <= Pow2(width))
    ensures Grow(LowBitsZero, width, next) == Grow(PowerReached, width, next)
    ensures next > 0xFFF || next < Pow2(Grow(PowerReached, width, next))
  {
    if next <= 0xFFF {
      MaskZero(next, width);
    }
  }

  lemma SameStep(cs: nat, st: Lzw, code: nat)
    requires 1 <= cs <= 12 && Good(cs, st) && WidthFits(st)
    ensures StepCode(LowBitsZero, cs, st, code) == StepCode(PowerReached, cs, st, code)
    ensures var r := StepCode(PowerReached, cs, st, code); r.Go? ==> WidthFits(r.st)
  {
    hide Roots, Grow;
    FirstWidthFits(cs);
    if st.prev < 0 {
      SameGrowth(st.width, |st.dict|);
    } else {
      SameGrowth(st.width, |st.dict| + 1);
    }
  }

  lemma {:induction false} SameRun(cs: nat, payload: seq<Byte>, p: nat, st: Lzw, px: seq<Byte>)
    requires 1 <= cs <= 12 && Good(cs, st) && WidthFits(st)
    ensures Run(LowBitsZero, cs, payload, p, st, px) == Run(PowerReached, cs, payload, p, st, px)
    decreases 8 * |payload| - p
  {
    hide StepCode, Peek;
    if p + st.width <= 8 * |payload| {
      var code := Peek(payload, p, st.width);
      SameStep(cs, st, code);
      var r := StepCode(PowerReached, cs, st, code);
      if r.Go? {
        SameRun(cs, payload, p + st.width, r.st, px + r.emit);
      }
    }
  }

  /** Minimum code sizes from 1 up: testing the low bits widens codes by the rule of the format,
      over every payload. */
  lemma RulesAgree(cs: nat, payload: seq<Byte>)
    requires 1 <= cs <= 12
    ensures Decode(LowBitsZero, cs, payload) == Decode(PowerReached, cs, payload)
  {
    hide Run;
    InitialGood(cs);
    FirstWidthFits(cs);
    SameRun(cs, payload, 0, Initial(cs, false), []);
  }

  lemma {:induction false} RunExtends(rule: Rule, cs: nat, payload: seq<Byte>, p: nat, st: Lzw, px: seq<Byte>)
    requires cs <= 12 && Good(cs, st)
    ensures px <= Run(rule, cs, payload, p, st, px).px
    decreases 8 * |payload| - p
  {
    hide StepCode, Peek;
    if p + st.width <= 8 * |payload| {
      var r := StepCode(rule, cs, st, Peek(payload, p, st.width));
      if r.Go? {
        RunExtends(rule, cs, payload, p + st.width, r.st, px + r.emit);
      }
    }
  }

  /** A payload of the bits 1, 0, 0 and then ones. */
  lemma SampleBits()
    ensures Peek([249], 0, 1) == 1 && Peek([249], 1, 1) == 0 && Peek([249], 2, 1) == 0 && Peek([249], 3, 2) == 3
    ensures forall p: nat :: 3 <= p < 8 ==> Peek([249], p, 1) == 1
  {
    assert StreamBit([249], 0) == BitOf(249, 0) == 1;
    assert StreamBit([249], 1) == BitOf(249, 1) == 0;
    assert StreamBit([249], 2) == BitOf(249, 2) == 0;
    assert StreamBit([249], 3) == BitOf(249, 3) == 1;
    assert StreamBit([249], 4) == BitOf(249, 4) == 1;
    assert StreamBit([249], 5) == BitOf(249, 5) == 1;
    assert StreamBit([249], 6) == BitOf(249, 6) == 1;
    assert StreamBit([249], 7) == BitOf(249, 7) == 1;
  }

  /** Ones are clear codes when the minimum code size is 0. */
  lemma {:induction false} OnlyClears(rule: Rule, p: nat, st: Lzw, px: seq<Byte>)
    requires 3 <= p <= 8 && Good(0, st) && st.width == 1
    ensures Run(rule, 0, [249], p, st, px) == Decoded(px, Finished)
    decreases 8 - p
  {
    SampleBits();
    hide Peek;
    if p < 8 {
      InitialGood(0);
      assert px + [] == px;
      OnlyClears(rule, p + 1, Initial(0, true), px);
    }
  }

  lemma RunGo(rule: Rule, cs: nat, payload: seq<Byte>, p: nat, st: Lzw, px: seq<Byte>, st': Lzw, emit: seq<Byte>)
    requires cs <= 12 && Good(cs, st) && p + st.width <= 8 * |payload|
    requires StepCode(rule, cs, st, Peek(payload, p, st.width)) == Go(st', emit)
    ensures Good(cs, st') && Run(rule, cs, payload, p, st, px) == Run(rule, cs, payload, p + st.width, st', px + emit)
  {
    hide StepCode, Peek;
  }

  const THREE_CODES: seq<seq<Byte>> := [[0], [], []]
  const FOUR_CODES: seq<seq<Byte>> := [[0], [], [], [0, 0]]

  lemma SampleSteps(rule: Rule)
    ensures Initial(0, true) == Lzw(THREE_CODES, -1, 1, true)
    ensures Good(0, Lzw(THREE_CODES, -1, 1, true)) && Good(0, Lzw(THREE_CODES, 0, 1, true))
    ensures StepCode(rule, 0, Lzw(THREE_CODES, -1, 1, true), 0) == Go(Lzw(THREE_CODES, 0, 1, true), [0])
    ensures StepCode(rule, 0, Lzw(THREE_CODES, 0, 1, true), 0)
            == Go(Lzw(FOUR_CODES, 0, if rule == LowBitsZero then 2 else 1, true), [0])
  {
    assert Pow2(0) == 1 && Pow2(1) == 2 && Mask(3, 1) == 1 && Mask(4, 1) == 0;
    assert Initial(0, true).dict == THREE_CODES;
    InitialGood(0);
    assert Good(0, Lzw(THREE_CODES, 0, 1, true));
    assert THREE_CODES[0] + [THREE_CODES[0][0]] == [0, 0];
    assert THREE_CODES + [[0, 0]] == FOUR_CODES;
  }

  lemma FirstClear(rule: Rule)
    ensures Good(0, Initial(0, false)) && StepCode(rule, 0, Initial(0, false), 1) == Go(Initial(0, true), [])
  {
    InitialGood(0);
  }

  /** The first three codes of the sample: both rules reach two pixels and four codes. */
  lemma SampleStart(rule: Rule)
    ensures var st := Lzw(FOUR_CODES, 0, if rule == LowBitsZero then 2 else 1, true);
            Good(0, st) && Decode(rule, 0, [249]) == Run(rule, 0, [249], 3, st, [0, 0])
  {
    hide Peek, StepCode, Run;
    SampleBits();
    InitialGood(0);
    SampleSteps(rule);
    FirstClear(rule);
    var s2, s3 := Lzw(THREE_CODES, 0, 1, true), Lzw(FOUR_CODES, 0, if rule == LowBitsZero then 2 else 1, true);
    RunGo(rule, 0, [249], 0, Initial(0, false), [], Initial(0, true), []);
    RunGo(rule, 0, [249], 1, Initial(0, true), [], s2, [0]);
    RunGo(rule, 0, [249], 2, s2, [0], s3, [0]);
    var none: seq<Byte> := [];
    assert none + none == none && none + [0] == [0] && [0] + [0] == [0, 0];
  }

  /** Minimum code size 0: the low-bits test also fires at twice the power, and the two rules
      read this payload differently. */
  lemma RulesDisagreeAtZero()
    ensures Decode(LowBitsZero, 0, [249]) != Decode(PowerReached, 0, [249])
  {
    SampleBits();
    SampleStart(LowBitsZero);
    SampleStart(PowerReached);
    hide Peek;
    var low, power := Lzw(FOUR_CODES, 0, 2, true), Lzw(FOUR_CODES, 0, 1, true);
    OnlyClears(PowerReached, 3, power, [0, 0]);
    var r := StepCode(LowBitsZero, 0, low, 3);
    assert Pow2(0) == 1;
    assert r.Go? && r.emit == [0, 0];
    RunExtends(LowBitsZero, 0, [249], 5, r.st, [0, 0] + r.emit);
    assert |[0, 0] + r.emit| == 4;
  }
}
