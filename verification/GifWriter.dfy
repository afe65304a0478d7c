/** A writer of GIF image data, as the partner of the decoder: any way to cut the pixels into strings
    of the table that an encoder builds, any placing of clear codes, codes packed into bytes and
    bytes into sub-blocks. What it writes comes back. */
module GifWriter {
  import opened Bits
  import opened BitStream
  import opened BitWriter
  import opened GifLzw
  import opened GifFormat
  import opened GifRaster
  import opened GifReader

  // ----- the encoder's table

  /** Pixels as codes of the table tbl: each code stands for a string that comes next, and the
      string with the pixel after it becomes a new entry, as long as there is room. */
  predicate Parses(cs: nat, tbl: seq<seq<Byte>>, codes: seq<nat>, px: seq<Byte>)
    decreases |codes|
  {
    if codes == [] then px == []
    else
      && IsString(cs, tbl, codes[0])
      && tbl[codes[0]] != [] && tbl[codes[0]] <= px
      && Parses(cs, Enter(tbl, tbl[codes[0]], px), codes[1..], px[|tbl[codes[0]]|..])
  }

  /** The table after the string w, which starts px, was sent. */
  function Enter(tbl: seq<seq<Byte>>, w: seq<Byte>, px: seq<Byte>): seq<seq<Byte>>
    requires w <= px
  {
    if |w| < |px| && |tbl| < FULL then tbl + [w + [px[|w|]]] else tbl
  }

  // ----- code widths

  /** The least width, from w up and 12 at most, in which code number n fits. */
  function WidthFor(w: nat, n: nat): nat
    decreases MAX_WIDTH - w
  {
    if w >= MAX_WIDTH || n < Pow2(w) then w else WidthFor(w + 1, n)
  }

  /** The width of the next code when i codes came after the last clear code: wide enough for the
      next entry that the decoder will make. */
  function NextWidth(cs: nat, i: nat): nat {
    if i == 0 then cs + 1
    else
      var entries := Pow2(cs) + 2 + i - 1;
      WidthFor(cs + 1, if entries < FULL then entries else FULL)
  }

  lemma {:induction false} WidthForIs(w: nat, n: nat)
    requires w <= MAX_WIDTH
    ensures var v := WidthFor(w, n); w <= v <= MAX_WIDTH && (v == MAX_WIDTH || n < Pow2(v))
    decreases MAX_WIDTH - w
  {
    if w < MAX_WIDTH && n >= Pow2(w) {
      WidthForIs(w + 1, n);
    }
  }

  lemma {:induction false} WidthForNext(w: nat, n: nat)
    requires w <= MAX_WIDTH
    ensures WidthFor(w, n + 1) == Widen(WidthFor(w, n), n + 1)
    decreases MAX_WIDTH - w
  {
    if w < MAX_WIDTH && n >= Pow2(w) {
      WidthForNext(w + 1, n);
    }
  }

  /** Widths follow from one code to the next. */
  lemma NextWidthIs(cs: nat, i: nat)
    requires 1 <= cs <= 11
    ensures cs + 1 <= NextWidth(cs, i) <= MAX_WIDTH
    ensures var entries := Pow2(cs) + 2 + i;
            NextWidth(cs, i + 1) == if entries <= FULL then Widen(NextWidth(cs, i), entries) else NextWidth(cs, i)
  {
    hide Pow2, WidthFor, Widen;
    RootsFit(cs);
    var entries := Pow2(cs) + 2 + i;
    WidthForIs(cs + 1, if entries - 1 < FULL then entries - 1 else FULL);
    WidthForNext(cs + 1, entries - 1);
    if i == 0 {
      FirstWidthFor(cs);
    }
  }

  lemma FirstWidthFor(cs: nat)
    requires 1 <= cs <= 11
    ensures WidthFor(cs + 1, Pow2(cs) + 1) == cs + 1
  {
    Pow2Mono(1, cs);
  }

  // ----- codes to bits

  /** The codes of one stretch, i of which came before, after the clear code. */
  function CodesBits(cs: nat, codes: seq<nat>, i: nat): seq<Bit>
    decreases |codes|
  {
    if codes == [] then [] else Element(codes[0], NextWidth(cs, i)) + CodesBits(cs, codes[1..], i + 1)
  }

  /** Stretches of codes, each after a clear code that still has the width of the codes before it,
      and the end code. */
  function StreamBits(cs: nat, stretches: seq<seq<nat>>, before: nat): seq<Bit>
    decreases |stretches|
  {
    if stretches == [] then Element(Pow2(cs) + 1, NextWidth(cs, before))
    else
      Element(Pow2(cs), NextWidth(cs, before)) + (CodesBits(cs, stretches[0], 0) + StreamBits(cs, stretches[1..], |stretches[0]|))
  }

  /** The stretches say these pixels. */
  predicate Says(cs: nat, stretches: seq<seq<nat>>, parts: seq<seq<Byte>>) {
    |parts| == |stretches| && forall i :: 0 <= i < |stretches| ==> Parses(cs, Roots(cs), stretches[i], parts[i])
  }

  function Joined(parts: seq<seq<Byte>>): seq<Byte> {
    if parts == [] then [] else parts[0] + Joined(parts[1..])
  }

  // ----- the decoder in step with the encoder

  /** The decoder has read i codes of the stretch, the last for the string w, and lacks the entry
      that the encoder made after it. */
  ghost predicate InStep(cs: nat, f: Format, i: nat, tbl: seq<seq<Byte>>, w: seq<Byte>, px: seq<Byte>) {
    && Sound(cs, f) && 1 <= cs && f.st.cleared && f.strings == i && f.st.width == NextWidth(cs, i)
    && if i == 0 then f.st.prev < 0 && f.st.dict == tbl == Roots(cs)
       else
         && IsString(cs, f.st.dict, f.st.prev) && f.st.dict[f.st.prev] == w
         && tbl == (if px != [] && |f.st.dict| < FULL then f.st.dict + [w + [px[0]]] else f.st.dict)
         && |f.st.dict| == (if Pow2(cs) + 2 + i - 1 < FULL then Pow2(cs) + 2 + i - 1 else FULL)
  }

  lemma NextPixel(w: seq<Byte>, px: seq<Byte>)
    requires w <= px
    ensures |w| < |px| <==> px[|w|..] != []
    ensures |w| < |px| ==> px[|w|..][0] == px[|w|]
  {
  }

  /** One string: the decoder emits it, makes the entry it lacked, and lacks the next one. */
  lemma StringInStep(cs: nat, f: Format, i: nat, tbl: seq<seq<Byte>>, w: seq<Byte>, px: seq<Byte>, c: nat)
    requires InStep(cs, f, i, tbl, w, px) && IsString(cs, tbl, c) && tbl[c] != [] && tbl[c] <= px
    ensures var r := StepFormat(cs, f, c);
            && r.FormatGo? && r.emit == tbl[c]
            && InStep(cs, r.f, i + 1, Enter(tbl, tbl[c], px), tbl[c], px[|tbl[c]|..])
  {
    hide Pow2, WidthFor, Widen, NextWidth, Roots;
    NextWidthIs(cs, i);
    NextPixel(tbl[c], px);
    RootsFit(cs);
    RootsSize(cs);
    var st := f.st;
    if i > 0 && |st.dict| < FULL {
      var source := if c < |st.dict| then st.dict[c] else w;
      assert source[0] == px[0];
      assert st.dict + [w + [source[0]]] == tbl;
    }
  }

  lemma RootsSize(cs: nat)
    ensures |Roots(cs)| == Pow2(cs) + 2
  {
  }

  /** A code that is sent fits its width. */
  lemma CodeFits(cs: nat, f: Format, i: nat, tbl: seq<seq<Byte>>, w: seq<Byte>, px: seq<Byte>, c: nat)
    requires InStep(cs, f, i, tbl, w, px) && c < |tbl| && (i == 0 ==> c < Pow2(cs) + 2)
    ensures c < Pow2(NextWidth(cs, i))
  {
    hide Roots, WidthFor;
    RootsFit(cs);
    Pow2Mono(1, cs);
    if i > 0 {
      var entries := Pow2(cs) + 2 + i - 1;
      var n := if entries < FULL then entries else FULL;
      WidthForIs(cs + 1, n);
      Pow2Values();
    }
  }

  /** The bits are in the payload, not in the zeros behind it. */
  ghost predicate Within(payload: seq<Byte>, p: nat, bits: seq<Bit>) {
    Written(payload, p, bits) && p + |bits| <= 8 * |payload|
  }

  lemma WithinSplit(payload: seq<Byte>, p: nat, a: seq<Bit>, b: seq<Bit>)
    requires Within(payload, p, a + b)
    ensures Within(payload, p, a) && Within(payload, p + |a|, b)
  {
    hide Written;
    WrittenSplit(payload, p, a, b);
  }

  /** One code read, in terms of what is left. */
  lemma ReadCodeOf(cs: nat, payload: seq<Byte>, p: nat, f: Format, px: seq<Byte>, c: nat)
    requires Sound(cs, f) && c < Pow2(f.st.width) && Within(payload, p, Element(c, f.st.width))
    ensures var r := StepFormat(cs, f, c);
            && (r.FormatStop? ==> RunFormat(cs, payload, p, f, px) == Decoded(px, r.status) && Roomy(cs, payload, p, f))
            && (r.FormatGo? ==>
                  && RunFormat(cs, payload, p, f, px) == RunFormat(cs, payload, p + f.st.width, r.f, px + r.emit)
                  && (r.f.strings <= Limit(cs) ==> (Roomy(cs, payload, p, f) <==> Roomy(cs, payload, p + f.st.width, r.f))))
  {
    hide StepFormat, Peek, Written, Element, Pow2, Limit;
    ReadElement(payload, p, c, f.st.width);
  }

  /** The codes of a stretch give its pixels. */
  lemma {:induction false} ReadStretch(cs: nat, payload: seq<Byte>, p: nat, f: Format, out: seq<Byte>, codes: seq<nat>, i: nat,
                                       tbl: seq<seq<Byte>>, w: seq<Byte>, px: seq<Byte>)
    returns (f': Format, tbl': seq<seq<Byte>>, w': seq<Byte>)
    requires InStep(cs, f, i, tbl, w, px) && Parses(cs, tbl, codes, px) && Within(payload, p, CodesBits(cs, codes, i))
    ensures InStep(cs, f', i + |codes|, tbl', w', [])
    ensures RunFormat(cs, payload, p, f, out) == RunFormat(cs, payload, p + |CodesBits(cs, codes, i)|, f', out + px)
    ensures i + |codes| <= Limit(cs) ==>
      (Roomy(cs, payload, p, f) <==> Roomy(cs, payload, p + |CodesBits(cs, codes, i)|, f'))
    decreases |codes|
  {
    hide InStep, Within, RunFormat, Roomy, StepFormat, Sound, Element, NextWidth, Enter, Limit, Pow2;
    if codes == [] {
      assert out + px == out;
      return f, tbl, w;
    }
    var c := codes[0];
    var v := tbl[c];
    var bits := Element(c, NextWidth(cs, i));
    WithinSplit(payload, p, bits, CodesBits(cs, codes[1..], i + 1));
    InStepFacts(cs, f, i, tbl, w, px, c);
    CodeFits(cs, f, i, tbl, w, px, c);
    ReadCodeOf(cs, payload, p, f, out, c);
    StringInStep(cs, f, i, tbl, w, px, c);
    var r := StepFormat(cs, f, c);
    InStepFacts(cs, r.f, i + 1, Enter(tbl, v, px), v, px[|v|..], 0);
    f', tbl', w' := ReadStretch(cs, payload, p + |bits|, r.f, out + v, codes[1..], i + 1, Enter(tbl, v, px), v, px[|v|..]);
    assert out + v + px[|v|..] == out + px;
  }

  lemma InStepFacts(cs: nat, f: Format, i: nat, tbl: seq<seq<Byte>>, w: seq<Byte>, px: seq<Byte>, c: nat)
    requires InStep(cs, f, i, tbl, w, px)
    ensures Sound(cs, f) && f.st.width == NextWidth(cs, i) && f.strings == i
    ensures IsString(cs, tbl, c) ==> c < |tbl| && (i == 0 ==> c < Pow2(cs) + 2)
  {
    hide NextWidth, Pow2, Sound;
  }

  /** The clear code and the end code always fit, and always work. */
  lemma ReadControl(cs: nat, f: Format, i: nat)
    requires 1 <= cs && Sound(cs, f) && f.st.width == NextWidth(cs, i)
    ensures Pow2(cs) + 1 < Pow2(NextWidth(cs, i))
    ensures StepFormat(cs, f, Pow2(cs)) == FormatGo(Format(Initial(cs, true), 0), [])
    ensures StepFormat(cs, f, Pow2(cs) + 1) == FormatStop(Finished)
    ensures InStep(cs, Format(Initial(cs, true), 0), 0, Roots(cs), [], [])
  {
    hide Roots;
    NextWidthIs(cs, i);
    Pow2Mono(cs + 1, NextWidth(cs, i));
    Pow2Mono(1, cs);
    StartSound(cs);
  }

  lemma FreshStep(cs: nat, px: seq<Byte>)
    requires InStep(cs, Format(Initial(cs, true), 0), 0, Roots(cs), [], [])
    ensures InStep(cs, Format(Initial(cs, true), 0), 0, Roots(cs), [], px)
  {
    hide Sound, Roots, NextWidth;
  }

  /** No stretch has more codes than the decoder takes. */
  predicate Short(cs: nat, stretches: seq<seq<nat>>) {
    forall i :: 0 <= i < |stretches| ==> |stretches[i]| <= Limit(cs)
  }

  /** Stretches of codes, however cut and cleared, give all their pixels. */
  lemma {:induction false} ReadStream(cs: nat, payload: seq<Byte>, p: nat, f: Format, out: seq<Byte>, before: nat,
                                      stretches: seq<seq<nat>>, parts: seq<seq<Byte>>)
    requires 1 <= cs && Sound(cs, f) && f.st.width == NextWidth(cs, before) && Says(cs, stretches, parts)
    requires Within(payload, p, StreamBits(cs, stretches, before))
    ensures RunFormat(cs, payload, p, f, out) == Decoded(out + Joined(parts), Finished)
    ensures Short(cs, stretches) && Limit(cs) >= 0 ==> Roomy(cs, payload, p, f)
    decreases |stretches|
  {
    hide InStep, Within, RunFormat, Roomy, StepFormat, Sound, Element, NextWidth, Limit, Roots, Pow2, Parses, CodesBits;
    ReadControl(cs, f, before);
    if stretches == [] {
      ReadCodeOf(cs, payload, p, f, out, Pow2(cs) + 1);
      assert out + Joined(parts) == out;
    } else {
      var bits, codes := Element(Pow2(cs), NextWidth(cs, before)), CodesBits(cs, stretches[0], 0);
      var rest := StreamBits(cs, stretches[1..], |stretches[0]|);
      WithinSplit(payload, p, bits, codes + rest);
      WithinSplit(payload, p + |bits|, codes, rest);
      ReadCodeOf(cs, payload, p, f, out, Pow2(cs));
      FreshStep(cs, parts[0]);
      assert out + [] == out;
      var f', tbl', w' := ReadStretch(cs, payload, p + |bits|, Format(Initial(cs, true), 0), out, stretches[0], 0, Roots(cs), [], parts[0]);
      InStepFacts(cs, f', |stretches[0]|, tbl', w', [], 0);
      ReadStream(cs, payload, p + |bits| + |codes|, f', out + parts[0], |stretches[0]|, stretches[1..], parts[1..]);
      assert out + parts[0] + Joined(parts[1..]) == out + Joined(parts);
    }
  }

  function Payload(cs: nat, stretches: seq<seq<nat>>): seq<Byte> {
    Bytes(StreamBits(cs, stretches, 0))
  }

  /** What is written in codes is what the format reads; and what the decoder reads, if no stretch
      between clear codes is too long for it. */
  lemma LzwRoundTrip(cs: nat, stretches: seq<seq<nat>>, parts: seq<seq<Byte>>)
    requires 1 <= cs <= 11 && Says(cs, stretches, parts)
    ensures DecodeFormat(cs, Payload(cs, stretches)) == Decoded(Joined(parts), Finished)
    ensures Short(cs, stretches) ==> Decode(LowBitsZero, cs, Payload(cs, stretches)) == Decoded(Joined(parts), Finished)
  {
    hide RunFormat, Roomy, StreamBits, Says, Bytes, Joined, Decode, Written, Short;
    var bits := StreamBits(cs, stretches, 0);
    var payload := Payload(cs, stretches);
    StartSound(cs);
    LimitIs(cs);
    assert payload[0..|payload|] == payload;
    BytesWritten(payload, 0, bits);
    ReadStream(cs, payload, 0, Format(Initial(cs, false), 0), [], 0, stretches, parts);
    assert [] + Joined(parts) == Joined(parts);
    DecodesTheFormat(cs, payload);
  }

  lemma LimitIs(cs: nat)
    requires cs <= 11
    ensures Limit(cs) >= 0 && NextWidth(cs, 0) == Initial(cs, false).width
  {
    RootsFit(cs);
  }

  /** Pixels sent one by one are one way to say them. */
  lemma {:induction false} OneByOne(cs: nat, tbl: seq<seq<Byte>>, px: seq<Byte>)
    requires cs <= 8 && (forall i :: 0 <= i < |px| ==> px[i] < Pow2(cs))
    requires |tbl| >= Pow2(cs) + 2 && forall c :: 0 <= c < Pow2(cs) ==> tbl[c] == [c % 256]
    ensures Parses(cs, tbl, px, px)
    decreases |px|
  {
    if px != [] {
      Pow2Mono(cs, 8);
      Pow2Values();
      hide Pow2;
      var w := tbl[px[0]];
      assert w == [px[0]] && w <= px;
      OneByOne(cs, Enter(tbl, w, px), px[1..]);
    }
  }

  // ----- sub-blocks

  /** Bytes in sub-blocks of at most 255, each after its length, and the terminator. */
  function Blocked(payload: seq<Byte>): seq<Byte> {
    if payload == [] then [0]
    else if |payload| <= 255 then [|payload|] + payload + [0]
    else [255] + payload[..255] + Blocked(payload[255..])
  }

  lemma {:induction false} RestIs(data: seq<Byte>, pos: nat, len: nat)
    requires pos + len <= |data|
    ensures RestOfBlock(data, pos, len) == data[pos..pos + len] + SubBlocks(data, pos + len)
    ensures RestEnd(data, pos, len) == BlocksEnd(data, pos + len)
    decreases len
  {
    hide SubBlocks, BlocksEnd;
    if len == 0 {
      assert data[pos..pos] + SubBlocks(data, pos) == SubBlocks(data, pos);
    } else {
      RestStep(data, pos, len);
      hide RestOfBlock, RestEnd;
      RestIs(data, pos + 1, len - 1);
      assert data[pos..pos + len] == [data[pos]] + data[pos + 1..pos + len];
    }
  }

  lemma RestStep(data: seq<Byte>, pos: nat, len: nat)
    requires 0 < len && pos + len <= |data|
    ensures RestOfBlock(data, pos, len) == [data[pos]] + RestOfBlock(data, pos + 1, len - 1)
    ensures RestEnd(data, pos, len) == RestEnd(data, pos + 1, len - 1)
  {
    hide SubBlocks, BlocksEnd;
  }

  /** A sub-block of n bytes, and what comes after it. */
  lemma OneSubBlock(data: seq<Byte>, k: nat, bytes: seq<Byte>)
    requires 0 < |bytes| <= 255 && k + 1 + |bytes| <= |data| && data[k] == |bytes| && data[k + 1..k + 1 + |bytes|] == bytes
    ensures SubBlocks(data, k) == bytes + SubBlocks(data, k + 1 + |bytes|)
    ensures BlocksEnd(data, k) == BlocksEnd(data, k + 1 + |bytes|)
  {
    RestIs(data, k + 1, |bytes|);
  }

  lemma Terminator(data: seq<Byte>, k: nat)
    requires k < |data| && data[k] == 0
    ensures SubBlocks(data, k) == [] && BlocksEnd(data, k) == k + 1
  {
  }

  ghost predicate Holding(data: seq<Byte>, k: nat, bytes: seq<Byte>) {
    k + |bytes| <= |data| && data[k..k + |bytes|] == bytes
  }

  lemma HoldingSplit(data: seq<Byte>, k: nat, a: seq<Byte>, b: seq<Byte>)
    requires Holding(data, k, a + b)
    ensures Holding(data, k, a) && Holding(data, k + |a|, b)
  {
    var all := data[k..k + |a + b|];
    assert all[..|a|] == a && all[|a|..] == b;
    assert data[k..k + |a|] == all[..|a|];
    assert data[k + |a|..k + |a| + |b|] == all[|a|..];
  }

  lemma {:induction false} ReadBlocked(data: seq<Byte>, k: nat, payload: seq<Byte>)
    requires Holding(data, k, Blocked(payload))
    ensures SubBlocks(data, k) == payload && BlocksEnd(data, k) == k + |Blocked(payload)|
    decreases |payload|
  {
    hide SubBlocks, BlocksEnd;
    if payload == [] {
      assert data[k] == data[k..k + 1][0];
      Terminator(data, k);
    } else {
      var n := if |payload| <= 255 then |payload| else 255;
      var head, rest := payload[..n], Blocked(payload[n..]);
      assert Blocked(payload) == [n] + (head + rest);
      HoldingSplit(data, k, [n], head + rest);
      HoldingSplit(data, k + 1, head, rest);
      assert data[k] == data[k..k + 1][0];
      OneSubBlock(data, k, head);
      ReadBlocked(data, k + 1 + n, payload[n..]);
      assert head + payload[n..] == payload;
    }
  }

  // ----- a frame

  /** The image data of a frame: minimum code size and sub-blocks. */
  function FrameData(cs: nat, stretches: seq<seq<nat>>): seq<Byte>
    requires cs <= 11
  {
    [cs] + Blocked(Payload(cs, stretches))
  }

  lemma ReadFrame(data: seq<Byte>, pos: nat, cs: nat, stretches: seq<seq<nat>>, parts: seq<seq<Byte>>)
    requires 1 <= cs <= 11 && Says(cs, stretches, parts) && Short(cs, stretches) && Holding(data, pos, FrameData(cs, stretches))
    ensures ByteAt(data, pos) == cs
    ensures Decode(LowBitsZero, cs, SubBlocks(data, Next(data, pos))) == Decoded(Joined(parts), Finished)
    ensures BlocksEnd(data, Next(data, pos)) == pos + |FrameData(cs, stretches)|
  {
    hide SubBlocks, BlocksEnd, Says, Short, Payload, Decode, Blocked, Joined;
    HoldingSplit(data, pos, [cs], Blocked(Payload(cs, stretches)));
    assert data[pos] == data[pos..pos + 1][0];
    ReadBlocked(data, pos + 1, Payload(cs, stretches));
    LzwRoundTrip(cs, stretches, parts);
  }

  /** The decoder draws the frame that was written, and stops right behind it. */
  method DrawWritten(g: Gif, cs: nat, ghost stretches: seq<seq<nat>>, ghost parts: seq<seq<Byte>>,
                     x: nat, y: nat, width: nat, height: nat, gw: nat, gh: nat, interlaced: bool) returns (ok: bool)
    requires g.Buffers() && g.out.Length == Times(gh, 4 * gw) && x + width <= gw && y + height <= gh
    requires 1 <= cs <= 11 && Says(cs, stretches, parts) && Short(cs, stretches)
    requires Holding(g.data, g.pos, FrameData(cs, stretches))
    modifies g, g.out, g.history, g.codes
    ensures ok && g.Buffers() && Clip(g.data, g.pos) == Clip(g.data, old(g.pos) + |FrameData(cs, stretches)|)
    ensures var at := FrameOffsets(interlaced, 4 * x, width, Times(y, 4 * gw), height, 4 * gw);
            && Fits(old(g.Picture()), at)
            && g.Picture() == Paint(old(g.Picture()), at, Joined(parts), g.color_table)
            && forall k: nat :: k < |Joined(parts)| && k < |at| ==>
                 EntryShown(g.out[..], old(g.out[..]), at[k], Joined(parts)[k], g.color_table)
  {
    hide SubBlocks, BlocksEnd, Says, Short, FrameData, Decode, Joined, Paint, FrameOffsets, Fits, EntryShown, Times, Holding;
    ReadFrame(g.data, g.pos, cs, stretches, parts);
    ok := g.DrawFrame(x, y, width, height, gw, gh, interlaced);
  }
}
