/** The code as Appendix F of GIF89a has it: codes of at most 12 bits, and a table that takes no
    more entries once it has 4096 and stays in use until a clear code comes; against the decoder,
    whose table goes on to 8192 entries and then refuses the stream. */
module GifFormat {
  import opened Bits
  import opened BitStream
  import opened GifLzw

  const FULL: nat := 4096
  const MAX_WIDTH: nat := 12

  /** The format's state: table, previous code and width, and how many string codes have come
      since the last clear code. */
  datatype Format = Format(st: Lzw, strings: nat)

  datatype FormatStep = FormatStop(status: Status) | FormatGo(f: Format, emit: seq<Byte>)

  ghost predicate Sound(cs: nat, f: Format) {
    cs <= 11 && Good(cs, f.st) && |f.st.dict| <= FULL
  }

  /** Code width once `next` is the next free code. */
  function Widen(width: nat, next: nat): nat {
    if next == Pow2(width) && width < MAX_WIDTH then width + 1 else width
  }

  /** The effect of one code. */
  function StepFormat(cs: nat, f: Format, code: nat): (r: FormatStep)
    requires Sound(cs, f)
    ensures r.FormatGo? ==> Sound(cs, r.f)
    ensures r != FormatStop(TooManyCodes)
  {
    var st := f.st;
    if code == Pow2(cs) then
      InitialGood(cs);
      RootsFit(cs);
      FormatGo(Format(Initial(cs, true), 0), [])
    else if code == Pow2(cs) + 1 then FormatStop(Finished)
    else if code > |st.dict| then FormatStop(IllegalCode)
    else if !st.cleared then FormatStop(NoClearCode)
    else if code == |st.dict| && (st.prev < 0 || |st.dict| == FULL) then FormatStop(IllegalCode)
    else if st.prev < 0 then
      FormatGo(Format(Lzw(st.dict, code, Widen(st.width, |st.dict|), true), 1), st.dict[code])
    else if |st.dict| == FULL then
      FormatGo(Format(Lzw(st.dict, code, st.width, true), f.strings + 1), st.dict[code])
    else
      var source := if code < |st.dict| then st.dict[code] else st.dict[st.prev];
      var dict := st.dict + [st.dict[st.prev] + [source[0]]];
      FormatGo(Format(Lzw(dict, code, Widen(st.width, |dict|), true), f.strings + 1), dict[code])
  }

  lemma RootsFit(cs: nat)
    requires cs <= 11
    ensures Pow2(cs) + 2 <= FULL
  {
    Pow2Mono(cs, 11);
    Pow2Values();
  }

  /** All codes of the payload from bit p on. */
  function RunFormat(cs: nat, payload: seq<Byte>, p: nat, f: Format, px: seq<Byte>): Decoded
    requires Sound(cs, f)
    decreases 8 * |payload| - p
  {
    if p + f.st.width > 8 * |payload| then Decoded(px, Finished)
    else
      match StepFormat(cs, f, Peek(payload, p, f.st.width))
      case FormatStop(status) => Decoded(px, status)
      case FormatGo(f', emit) => RunFormat(cs, payload, p + f.st.width, f', px + emit)
  }

  function DecodeFormat(cs: nat, payload: seq<Byte>): Decoded
    requires cs <= 11
  {
    StartSound(cs);
    RunFormat(cs, payload, 0, Format(Initial(cs, false), 0), [])
  }

  lemma StartSound(cs: nat)
    requires cs <= 11
    ensures Sound(cs, Format(Initial(cs, true), 0)) && Sound(cs, Format(Initial(cs, false), 0))
  {
    InitialGood(cs);
    RootsFit(cs);
  }

  /** As many string codes as the decoder takes without a clear code in between. */
  function Limit(cs: nat): int {
    TABLE_SIZE - 1 - Pow2(cs)
  }

  /** No stretch of the payload between clear codes has more string codes than that. */
  predicate Roomy(cs: nat, payload: seq<Byte>, p: nat, f: Format)
    requires Sound(cs, f)
    decreases 8 * |payload| - p
  {
    p + f.st.width > 8 * |payload| ||
    match StepFormat(cs, f, Peek(payload, p, f.st.width))
    case FormatStop(_) => true
    case FormatGo(f', _) => f'.strings <= Limit(cs) && Roomy(cs, payload, p + f.st.width, f')
  }

  predicate RoomyPayload(cs: nat, payload: seq<Byte>)
    requires cs <= 11
  {
    StartSound(cs);
    Roomy(cs, payload, 0, Format(Initial(cs, false), 0))
  }

  // ----- the decoder against the format

  /** The decoder's state and the format's: the same up to the entries the format does not make. */
  ghost predicate Alike(cs: nat, st: Lzw, f: Format) {
    && cs <= 11 && Good(cs, st) && WidthFits(st)
    && f.st == Lzw(if |st.dict| <= FULL then st.dict else st.dict[..FULL], st.prev, st.width, st.cleared)
    && st.width <= MAX_WIDTH && st.prev < FULL
    && |st.dict| == Pow2(cs) + 2 + (if f.strings == 0 then 0 else f.strings - 1)
    && (f.strings == 0 <==> st.prev < 0)
  }

  lemma SameWidth(width: nat, next: nat)
    requires width <= MAX_WIDTH
    ensures Grow(PowerReached, width, next) <= MAX_WIDTH
    ensures next <= FULL ==> Grow(PowerReached, width, next) == Widen(width, next)
    ensures next > FULL ==> Grow(PowerReached, width, next) == width
  {
    Pow2Values();
    if width < MAX_WIDTH {
      Pow2Mono(width, 11);
    }
  }

  lemma CodeBound(cs: nat, st: Lzw, f: Format, code: nat)
    requires Alike(cs, st, f) && code < Pow2(st.width)
    ensures code < FULL
  {
    Pow2Mono(st.width, MAX_WIDTH);
    Pow2Values();
  }

  /** One code: the decoder does what the format says, or refuses exactly the string code that
      exceeds its limit. */
  lemma StepAlike(cs: nat, st: Lzw, f: Format, code: nat)
    requires 1 <= cs && Alike(cs, st, f) && Sound(cs, f) && code < Pow2(st.width)
    ensures var a, b := StepCode(PowerReached, cs, st, code), StepFormat(cs, f, code);
            if a == Stop(TooManyCodes) then b.FormatGo? && b.f.strings > Limit(cs)
            else if a.Stop? then b == FormatStop(a.status)
            else b.FormatGo? && b.emit == a.emit && Alike(cs, a.st, b.f) && b.f.strings <= Limit(cs)
  {
    hide Roots, Grow, Widen, Pow2;
    CodeBound(cs, st, f, code);
    SameStep(cs, st, code);
    RootsFit(cs);
    FirstWidth(cs);
    if st.prev < 0 {
      SameWidth(st.width, |st.dict|);
    } else {
      SameWidth(st.width, |st.dict| + 1);
    }
  }

  lemma FirstWidth(cs: nat)
    requires 1 <= cs <= 11
    ensures Initial(cs, true).width <= MAX_WIDTH && WidthFits(Initial(cs, true)) && Good(cs, Initial(cs, true))
    ensures Limit(cs) >= 0 && |Roots(cs)| == Pow2(cs) + 2
  {
    InitialGood(cs);
    FirstWidthFits(cs);
    RootsFit(cs);
  }

  /** Whole runs: equal while there is room, and otherwise refused by the decoder alone. */
  lemma {:induction false} RunAlike(cs: nat, payload: seq<Byte>, p: nat, st: Lzw, f: Format, px: seq<Byte>)
    requires 1 <= cs && Alike(cs, st, f) && Sound(cs, f)
    ensures Roomy(cs, payload, p, f) ==> Run(PowerReached, cs, payload, p, st, px) == RunFormat(cs, payload, p, f, px)
    ensures !Roomy(cs, payload, p, f) ==> Run(PowerReached, cs, payload, p, st, px).status == TooManyCodes
    ensures RunFormat(cs, payload, p, f, px).status != TooManyCodes
    ensures Run(PowerReached, cs, payload, p, st, px).px <= RunFormat(cs, payload, p, f, px).px
    decreases 8 * |payload| - p
  {
    hide StepCode, StepFormat, Peek, Alike, Sound, Good, Limit;
    SameWidths(cs, st, f);
    if p + st.width <= 8 * |payload| {
      var code := Peek(payload, p, st.width);
      StepAlike(cs, st, f, code);
      var a, b := StepCode(PowerReached, cs, st, code), StepFormat(cs, f, code);
      if a.Go? {
        RunAlike(cs, payload, p + st.width, a.st, b.f, px + a.emit);
      } else if b.FormatGo? {
        FormatExtends(cs, payload, p + st.width, b.f, px + b.emit);
      }
    }
  }

  lemma SameWidths(cs: nat, st: Lzw, f: Format)
    requires Alike(cs, st, f)
    ensures cs <= 11 && Good(cs, st) && st.width == f.st.width >= 1
  {
  }

  lemma {:induction false} FormatExtends(cs: nat, payload: seq<Byte>, p: nat, f: Format, px: seq<Byte>)
    requires Sound(cs, f)
    ensures px <= RunFormat(cs, payload, p, f, px).px && RunFormat(cs, payload, p, f, px).status != TooManyCodes
    decreases 8 * |payload| - p
  {
    hide StepFormat, Peek;
    if p + f.st.width <= 8 * |payload| {
      var r := StepFormat(cs, f, Peek(payload, p, f.st.width));
      if r.FormatGo? {
        FormatExtends(cs, payload, p + f.st.width, r.f, px + r.emit);
      }
    }
  }

  /** Minimum code sizes 1 to 11: the decoder gives the pixels and the status of the format if and
      only if no stretch between clear codes has more string codes than its table takes; in every
      case its pixels are the first of the format's. */
  lemma DecodesTheFormat(cs: nat, payload: seq<Byte>)
    requires 1 <= cs <= 11
    ensures Decode(LowBitsZero, cs, payload) == DecodeFormat(cs, payload) <==> RoomyPayload(cs, payload)
    ensures Decode(LowBitsZero, cs, payload).px <= DecodeFormat(cs, payload).px
    ensures Decode(LowBitsZero, cs, payload).status == TooManyCodes <==> !RoomyPayload(cs, payload)
  {
    hide Run, RunFormat, Roomy;
    RulesAgree(cs, payload);
    StartSound(cs);
    StartAlike(cs);
    RunAlike(cs, payload, 0, Initial(cs, false), Format(Initial(cs, false), 0), []);
  }

  lemma StartAlike(cs: nat)
    requires 1 <= cs <= 11
    ensures Alike(cs, Initial(cs, false), Format(Initial(cs, false), 0))
  {
    hide Roots;
    InitialGood(cs);
    FirstWidthFits(cs);
    RootsFit(cs);
  }

  // ----- a stream that defers its clear code for too long

  /** A clear code of 3 bits and then zeros. */
  const DEFERRED: seq<Byte> := [4] + seq(20000, _ => 0)

  lemma {:induction false} PeekDeferred(p: nat, n: nat)
    requires p >= 3
    ensures Peek(DEFERRED, p, n) == 0
    decreases n
  {
    if n > 0 {
      PeekDeferred(p + 1, n - 1);
      if p < 8 {
        assert StreamBit(DEFERRED, p) == BitOf(4, p);
        assert 4 < Pow2(3);
        BitOfHigh(4, 3, p);
      } else {
        BitOfZero(p % 8);
      }
    }
  }

  // `three` is a parameter so that the verifier does not unroll Peek on a literal.
  lemma DeferredStarts(three: nat)
    requires three == 3
    ensures Peek(DEFERRED, 0, three) == 4
  {
    assert StreamBit(DEFERRED, 0) == BitOf(4, 0) == 0;
    assert StreamBit(DEFERRED, 1) == BitOf(4, 1) == 0;
    assert StreamBit(DEFERRED, 2) == BitOf(4, 2) == 1;
  }

  /** Cleared, with code 0 as the next and only code from here on. */
  ghost predicate OnlyZeros(f: Format) {
    Sound(2, f) && f.st.cleared && f.st.width <= MAX_WIDTH && (f.st.prev < 0 ==> f.strings == 0)
  }

  lemma ZeroStep(f: Format)
    requires OnlyZeros(f)
    ensures var r := StepFormat(2, f, 0); r.FormatGo? && OnlyZeros(r.f) && r.f.strings == f.strings + 1
  {
    assert Pow2(2) == 4;
  }

  lemma {:induction false} ZerosFinish(p: nat, f: Format, px: seq<Byte>)
    requires p >= 3 && OnlyZeros(f)
    ensures RunFormat(2, DEFERRED, p, f, px).status == Finished
    decreases 8 * |DEFERRED| - p
  {
    hide StepFormat, Peek, OnlyZeros;
    ZerosSound(f);
    if p + f.st.width <= 8 * |DEFERRED| {
      PeekDeferred(p, f.st.width);
      ZeroStep(f);
      var r := StepFormat(2, f, 0);
      ZerosFinish(p + f.st.width, r.f, px + r.emit);
    }
  }

  lemma ZerosSound(f: Format)
    requires OnlyZeros(f)
    ensures Sound(2, f) && f.st.width <= MAX_WIDTH
  {
  }

  lemma {:induction false} ZerosCrowd(p: nat, f: Format)
    requires p >= 3 && OnlyZeros(f) && f.strings <= Limit(2)
    requires p + 12 * (Limit(2) + 1 - f.strings) <= 8 * |DEFERRED|
    ensures Sound(2, f) && !Roomy(2, DEFERRED, p, f)
    decreases Limit(2) - f.strings
  {
    hide StepFormat, Peek, OnlyZeros, Sound;
    ZerosSound(f);
    PeekDeferred(p, f.st.width);
    ZeroStep(f);
    var r := StepFormat(2, f, 0);
    if r.f.strings <= Limit(2) {
      ZerosCrowd(p + f.st.width, r.f);
    }
  }

  /** The format takes this stream to its end, one pixel string after the other from a table that
      stays as it is; the decoder refuses it. */
  lemma DeferredClearIsRefused(three: nat)
    requires three == 3
    ensures DecodeFormat(2, DEFERRED).status == Finished
    ensures Decode(LowBitsZero, 2, DEFERRED).status == TooManyCodes
  {
    hide Run, Peek, OnlyZeros;
    StartSound(2);
    DeferredStarts(three);
    assert Pow2(2) == 4;
    var cleared := Format(Initial(2, true), 0);
    assert StepFormat(2, Format(Initial(2, false), 0), 4) == FormatGo(cleared, []);
    assert OnlyZeros(cleared) by {
      ClearedZeros();
    }
    ZerosFinish(three, cleared, [] + []);
    ZerosCrowd(three, cleared);
    DecodesTheFormat(2, DEFERRED);
  }

  lemma ClearedZeros()
    ensures OnlyZeros(Format(Initial(2, true), 0))
  {
    StartSound(2);
  }
}
