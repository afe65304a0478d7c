/** A sequential scan: MCUs one after the other, each a fixed list of blocks of the components of
    the scan, every block predicted from the last one of its component, in runs separated by
    restart markers (sections E.2.3 to E.2.5 of ITU-T T.81). */
module JpegScan {
  import opened Bits
  import opened JpegStream
  import opened JpegCode
  import opened JpegHuffman
  import opened JpegBlock
  import opened JpegFetch
  import opened JpegReader
  import JpegGeometry

  /** The codes and the quantization table of a component, and the combined table that the reader
      uses for it, which matters only to how far it reads ahead. */
  datatype Coding = Coding(sdc: Sizes, vdc: seq<Byte>, sac: Sizes, vac: seq<Byte>, dequant: seq<nat>, fac: seq<int>)

  predicate Usable(c: Coding) {
    && |c.vdc| == 256 >= |c.sdc| && |c.vac| == 256 >= |c.sac| && |c.dequant| == 64
    && Faithful(c.sdc) && Faithful(c.sac)
    && forall i :: 0 <= i < |c.sdc| ==> c.vdc[i] <= 24 && c.vdc[i] != 16
  }

  /** The components, of four at most, whose blocks make up an MCU, block by block. */
  predicate IsUnit(cs: seq<Coding>, unit: seq<nat>) {
    |cs| == 4 && forall i :: 0 <= i < |unit| ==> unit[i] < 4 && Usable(cs[unit[i]])
  }

  // ----- what a scan means

  ghost function Difference(c: Coding, bytes: seq<Byte>, p: nat): int
    requires Usable(c)
  {
    match DcDifference(c.sdc, c.vdc, bytes, p)
    case NoCode => 0
    case Diff(v, _) => v
  }

  datatype Mcu = NoMcu | Mcu(blocks: seq<seq<int>>, p: nat, preds: seq<int>)

  function BlockFirst(data: seq<int>, r: Mcu): Mcu {
    if r.Mcu? then r.(blocks := [data] + r.blocks) else r
  }

  /** The blocks of an MCU from bit p on, with the predictions of the components. */
  ghost function McuAt(cs: seq<Coding>, unit: seq<nat>, bytes: seq<Byte>, p: nat, preds: seq<int>): (r: Mcu)
    requires IsUnit(cs, unit) && |preds| == 4
    ensures r.Mcu? ==> |r.preds| == 4
    decreases |unit|
  {
    if unit == [] then Mcu([], p, preds)
    else
      var n, c := unit[0], cs[unit[0]];
      match BlockAt(c.sdc, c.vdc, c.sac, c.vac, c.dequant, bytes, p, preds[n])
      case Bad => NoMcu
      case Block(data, q) =>
        BlockFirst(data, McuAt(cs, unit[1..], bytes, q, preds[n := preds[n] + Difference(c, bytes, p)]))
  }

  predicate IsRestart(m: Byte) {
    0xD0 <= m <= 0xD7
  }

  const RST: seq<Byte> := [0xD0, 0xD1, 0xD2, 0xD3, 0xD4, 0xD5, 0xD6, 0xD7]

  /** The restart markers are those eight. */
  lemma RestartMarkers(m: Byte)
    ensures IsRestart(m) <==> m in RST
  {
    assert RST[0] == 0xD0 && RST[7] == 0xD7;
    if IsRestart(m) {
      assert RST[m - 0xD0] == m;
    }
  }

  /** A missing code; the decoded blocks; or a run that leaves 24 to 32 bits before its restart
      marker, where the outcome depends on how far the reader has read ahead. */
  datatype Outcome = MissingCode | Blocks(blocks: seq<seq<int>>) | Unsynced

  function Prepend(done: seq<seq<int>>, r: Outcome): Outcome {
    if r.Blocks? then Blocks(done + r.blocks) else r
  }

  const RESET: seq<int> := [0, 0, 0, 0]

  /** The remaining `left` MCUs, from bit p of the run that starts the input d, with `todo` MCUs
      before the next restart. */
  ghost function ScanFrom(cs: seq<Coding>, unit: seq<nat>, d: seq<Byte>, p: nat, preds: seq<int>,
                          left: nat, todo: nat, interval: nat): Outcome
    requires IsUnit(cs, unit) && |preds| == 4 && todo >= 1 && interval >= 1
    decreases left, 0
  {
    if left == 0 then Blocks([])
    else
      match McuAt(cs, unit, Entropy(d), p, preds)
      case NoMcu => MissingCode
      case Mcu(blocks, q, next) =>
        Prepend(blocks, AfterMcu(cs, unit, d, q, next, left - 1, todo, interval))
  }

  /** What comes after an MCU that ends at bit q. A run not followed by a restart marker, or with
      too many bits left to see it, ends the scan early. */
  ghost function AfterMcu(cs: seq<Coding>, unit: seq<nat>, d: seq<Byte>, q: nat, preds: seq<int>,
                          left: nat, todo: nat, interval: nat): Outcome
    requires IsUnit(cs, unit) && |preds| == 4 && todo >= 1 && interval >= 1
    decreases left, 1
  {
    var unread := 8 * |Entropy(d)| - q;
    if left == 0 then Blocks([])
    else if todo > 1 then ScanFrom(cs, unit, d, q, preds, left, todo - 1, interval)
    else if !IsRestart(MarkerAfter(d)) || unread > 32 then Blocks([])
    else if unread >= 24 then Unsynced
    else ScanFrom(cs, unit, AfterMarker(d), 0, RESET, left, interval, interval)
  }

  // ----- what the reader makes of it

  ghost function AheadOf(c: Coding, d: seq<Byte>, p: nat, pred: int, a: Ahead): Ahead
    requires Usable(c)
  {
    AheadBlock(c.sdc, c.vdc, c.sac, c.vac, c.fac, c.dequant, RunOf(d), Entropy(d), p, pred, a)
  }

  ghost function AheadMcu(cs: seq<Coding>, unit: seq<nat>, d: seq<Byte>, p: nat, preds: seq<int>, a: Ahead): Ahead
    requires IsUnit(cs, unit) && |preds| == 4
    decreases |unit|
  {
    if unit == [] then a
    else
      var n, c := unit[0], cs[unit[0]];
      match BlockAt(c.sdc, c.vdc, c.sac, c.vac, c.dequant, Entropy(d), p, preds[n])
      case Bad => a
      case Block(_, q) =>
        AheadMcu(cs, unit[1..], d, q, preds[n := preds[n] + Difference(c, Entropy(d), p)], AheadOf(c, d, p, preds[n], a))
  }

  /** The scan as the reader decodes it: a run goes on behind its restart marker if the reader has
      met the marker by then. */
  ghost function ReadFrom(cs: seq<Coding>, unit: seq<nat>, d: seq<Byte>, p: nat, preds: seq<int>, a: Ahead,
                          left: nat, todo: nat, interval: nat): Outcome
    requires IsUnit(cs, unit) && |preds| == 4 && todo >= 1 && interval >= 1
    decreases left, 0
  {
    if left == 0 then Blocks([])
    else
      match McuAt(cs, unit, Entropy(d), p, preds)
      case NoMcu => MissingCode
      case Mcu(blocks, q, next) =>
        Prepend(blocks, ReadAfter(cs, unit, d, q, next, AheadMcu(cs, unit, d, p, preds, a), left - 1, todo, interval))
  }

  ghost function ReadAfter(cs: seq<Coding>, unit: seq<nat>, d: seq<Byte>, q: nat, preds: seq<int>, a: Ahead,
                           left: nat, todo: nat, interval: nat): Outcome
    requires IsUnit(cs, unit) && |preds| == 4 && todo >= 1 && interval >= 1
    decreases left, 1
  {
    if left == 0 then Blocks([])
    else if todo > 1 then ReadFrom(cs, unit, d, q, preds, a, left, todo - 1, interval)
    else if MeetsRestart(d, q, a) then ReadFrom(cs, unit, AfterMarker(d), 0, RESET, Ahead(0, false), left, interval, interval)
    else Blocks([])
  }

  /** Looking for a restart marker at bit q finds one. */
  predicate MeetsRestart(d: seq<Byte>, q: nat, a: Ahead) {
    IsRestart(MarkerAfter(d)) && Have(RunOf(d), q, a, 24).met
  }

  /** It does with fewer than 24 bits left before the marker, and does not with more than 32. */
  lemma MeetsIfNear(d: seq<Byte>, q: nat, a: Ahead)
    requires Sound(RunOf(d), q, a) && IsRestart(MarkerAfter(d))
    ensures 8 * |Entropy(d)| - q < 24 ==> MeetsRestart(d, q, a)
    ensures 8 * |Entropy(d)| - q > 32 ==> !MeetsRestart(d, q, a)
  {
    HaveSound(RunOf(d), q, a, 24, q);
  }

  /** Six coded bytes and a restart marker. */
  const SIX: seq<Byte> := [1, 2, 3, 4, 5, 6, 0xFF, 0xD0]

  lemma SixBytes()
    ensures |Entropy(SIX)| == 6 && MarkerAfter(SIX) == 0xD0
  {
    var tail: seq<Byte> := [0xFF, 0xD0];
    assert SkipFill(tail[1..]) == [0xD0];
    assert SIX[1..][1..][1..][1..][1..][1..] == tail;
  }

  /** In between, the read-ahead decides: with 24 bits left the marker is met if the reader last
      looked at its buffer at bit 16, and missed if it did at bit 17. */
  lemma ReadAheadDecides()
    ensures var run := RunOf(SIX);
            var begun := Have(run, 0, Ahead(0, false), 16);
            && 8 * |Entropy(SIX)| - 24 == 24
            && MeetsRestart(SIX, 24, Have(run, 16, begun, 16)) && !MeetsRestart(SIX, 24, Have(run, 17, begun, 16))
  {
    SixBytes();
    hide Entropy, MarkerAfter;
  }

  lemma {:induction false} McuSound(cs: seq<Coding>, unit: seq<nat>, d: seq<Byte>, p: nat, preds: seq<int>, a: Ahead)
    requires IsUnit(cs, unit) && |preds| == 4 && Sound(RunOf(d), p, a)
    ensures var m := McuAt(cs, unit, Entropy(d), p, preds); m.Mcu? ==> Sound(RunOf(d), m.p, AheadMcu(cs, unit, d, p, preds, a))
    decreases |unit|
  {
    hide Sound, BlockAt, Difference, Entropy, MarkerAfter, Usable, AheadBlock;
    if unit != [] {
      var n, c := unit[0], cs[unit[0]];
      var b := BlockOf(c, d, p, preds[n]);
      if b.Block? {
        OfSound(c, d, p, preds[n], a);
        McuSound(cs, unit[1..], d, b.p, preds[n := preds[n] + Difference(c, Entropy(d), p)], AheadOf(c, d, p, preds[n], a));
      }
    }
  }

  ghost function BlockOf(c: Coding, d: seq<Byte>, p: nat, pred: int): Result
    requires Usable(c)
  {
    BlockAt(c.sdc, c.vdc, c.sac, c.vac, c.dequant, Entropy(d), p, pred)
  }

  lemma OfSound(c: Coding, d: seq<Byte>, p: nat, pred: int, a: Ahead)
    requires Usable(c) && Sound(RunOf(d), p, a)
    ensures var b := BlockOf(c, d, p, pred); b.Block? ==> Sound(RunOf(d), b.p, AheadOf(c, d, p, pred, a))
  {
    hide Sound, BlockAt, Entropy, MarkerAfter, AheadBlock;
    BlockSound(c.sdc, c.vdc, c.sac, c.vac, c.fac, c.dequant, RunOf(d), Entropy(d), p, pred, a);
  }

  /** Unless some run leaves 24 to 32 bits before its restart marker, the reader makes of a scan
      exactly what it means. */
  lemma {:induction false} ReadIsScan(cs: seq<Coding>, unit: seq<nat>, d: seq<Byte>, p: nat, preds: seq<int>, a: Ahead,
                                      left: nat, todo: nat, interval: nat)
    requires IsUnit(cs, unit) && |preds| == 4 && todo >= 1 && interval >= 1 && Sound(RunOf(d), p, a)
    ensures ScanFrom(cs, unit, d, p, preds, left, todo, interval)
            in {Unsynced, ReadFrom(cs, unit, d, p, preds, a, left, todo, interval)}
    decreases left, 0
  {
    hide Sound, McuAt, AheadMcu, IsUnit, AfterMcu, ReadAfter, RunOf, Entropy;
    if left > 0 {
      var m := McuAt(cs, unit, Entropy(d), p, preds);
      if m.Mcu? {
        McuSound(cs, unit, d, p, preds, a);
        AfterIsScan(cs, unit, d, m.p, m.preds, AheadMcu(cs, unit, d, p, preds, a), left - 1, todo, interval);
      }
    }
  }

  lemma {:induction false} AfterIsScan(cs: seq<Coding>, unit: seq<nat>, d: seq<Byte>, q: nat, preds: seq<int>, a: Ahead,
                                       left: nat, todo: nat, interval: nat)
    requires IsUnit(cs, unit) && |preds| == 4 && todo >= 1 && interval >= 1 && Sound(RunOf(d), q, a)
    ensures AfterMcu(cs, unit, d, q, preds, left, todo, interval)
            in {Unsynced, ReadAfter(cs, unit, d, q, preds, a, left, todo, interval)}
    decreases left, 1
  {
    hide IsUnit, ScanFrom, ReadFrom, Entropy, MarkerAfter, AfterMarker, Sound;
    if left > 0 {
      if todo > 1 {
        ReadIsScan(cs, unit, d, q, preds, a, left, todo - 1, interval);
      } else if IsRestart(MarkerAfter(d)) {
        MeetsIfNear(d, q, a);
        NothingYet(AfterMarker(d));
        ReadIsScan(cs, unit, AfterMarker(d), 0, RESET, Ahead(0, false), left, interval, interval);
      }
    }
  }

  lemma NothingYet(d: seq<Byte>)
    ensures Sound(RunOf(d), 0, Ahead(0, false))
  {
  }

  // ----- one block

  /** The tables that the reader holds for a component. */
  datatype Tables = Tables(hdc: Huffman, hac: Huffman, fac: seq<int>)

  ghost predicate Loaded(c: Coding, t: Tables) {
    && Usable(c) && TablesFor(t.hdc, c.sdc) && t.hdc.values == c.vdc && TablesFor(t.hac, c.sac) && t.hac.values == c.vac
    && AcSound(t.fac, t.hac, c.sac) && t.fac == c.fac
  }

  ghost predicate AllLoaded(cs: seq<Coding>, tabs: seq<Tables>, unit: seq<nat>) {
    |cs| == 4 == |tabs| && forall i :: 0 <= i < |unit| ==> unit[i] < 4 && Loaded(cs[unit[i]], tabs[unit[i]])
  }

  /** The reader stands in the run that starts d. */
  ghost predicate At(j: Jpeg, d: seq<Byte>)
    reads j
  {
    j.Valid() && j.coded == Entropy(d) && j.ending == MarkerAfter(d) && j.tail == AfterMarker(d)
  }

  ghost predicate Standing(j: Jpeg, d: seq<Byte>)
    reads j
  {
    At(j, d) && |j.dc_pred| == 4 && j.Position() >= 0
  }

  lemma AtFacts(j: Jpeg, d: seq<Byte>)
    requires At(j, d)
    ensures |j.dc_pred| == 4 && j.Position() >= 0 && j.code_bits <= 32
  {
  }

  /** Decodes one block of component b. */
  method OneBlock(j: Jpeg, b: nat, c: Coding, t: Tables, ghost d: seq<Byte>) returns (ok: bool, data: seq<int>)
    requires At(j, d) && Loaded(c, t) && b < 4
    modifies j`at, j`code_buffer, j`code_bits, j`marker, j`nomore, j`fetched, j`dc_pred
    ensures var r := BlockAt(c.sdc, c.vdc, c.sac, c.vac, c.dequant, Entropy(d), old(j.Position()), old(j.dc_pred)[b]);
            if ok then At(j, d) && r == Block(data, j.Position()) else r == Bad
    ensures ok ==> j.dc_pred == old(j.dc_pred)[b := old(j.dc_pred)[b] + Difference(c, Entropy(d), old(j.Position()))]
    ensures ok ==> j.Now() == AheadOf(c, d, old(j.Position()), old(j.dc_pred)[b], old(j.Now()))
  {
    hide BlockAt, TablesFor, AcSound, Entropy, MarkerAfter, AfterMarker, Faithful, AheadBlock, DcDifference, Jpeg.Reservoir;
    var block := new int[64];
    ok := j.DecodeBlock(block, t.hdc, t.hac, t.fac, b, c.dequant, c.sdc, c.sac);
    data := block[..];
  }

  // ----- restarts

  lemma MarkerSeen(j: Jpeg, d: seq<Byte>)
    requires At(j, d)
    ensures j.nomore ==> j.marker == MarkerAfter(d) && j.data[j.at..] == AfterMarker(d)
    ensures !j.nomore ==> j.marker == MARKER_NONE
    ensures j.at <= |j.data| && j.Current() == RunOf(d)
  {
  }

  /** At the end of a restart interval: looks for the marker and starts the next run behind it. */
  method NextRun(j: Jpeg, ghost d: seq<Byte>) returns (more: bool)
    requires At(j, d) && j.code_bits <= 32 && j.Position() >= 0
    modifies j
    ensures more <==> MeetsRestart(d, old(j.Position()), old(j.Now()))
    ensures more ==> At(j, AfterMarker(d)) && j.Position() == 0 && j.Now() == Ahead(0, false) && j.dc_pred == RESET
  {
    hide Entropy, MarkerAfter, AfterMarker, Jpeg.Reservoir, Refill;
    MarkerSeen(j, d);
    if j.code_bits < 24 {
      j.GrowBuffer();
    }
    MarkerSeen(j, d);
    if !IsRestart(j.marker) {
      return false;
    }
    j.Reset();
    more := true;
  }

  /** Counts an MCU down; `more` says whether to go on. */
  method CountDown(j: Jpeg, todo: nat, interval: nat, ghost d: seq<Byte>, ghost cs: seq<Coding>, ghost unit: seq<nat>,
                   ghost left: nat)
    returns (more: bool, todo': nat, ghost d': seq<Byte>)
    requires Standing(j, d) && todo >= 1 && interval >= 1 && IsUnit(cs, unit)
    modifies j
    ensures var r := ReadAfter(cs, unit, d, old(j.Position()), old(j.dc_pred), old(j.Now()), left, todo, interval);
            if !more then r == Blocks([])
            else
              && Standing(j, d') && todo' >= 1
              && (left > 0 ==> r == ReadFrom(cs, unit, d', j.Position(), j.dc_pred, j.Now(), left, todo', interval))
  {
    hide Entropy, MarkerAfter, AfterMarker, At, IsUnit, McuAt, MeetsRestart, ReadFrom;
    AtFacts(j, d);
    more, todo', d' := true, todo - 1, d;
    if todo' <= 0 {
      more := NextRun(j, d);
      d', todo' := AfterMarker(d), interval;
    }
  }

  // ----- one MCU

  function Then(done: seq<seq<int>>, r: Mcu): Mcu {
    if r.Mcu? then r.(blocks := done + r.blocks) else r
  }

  lemma ThenBlock(done: seq<seq<int>>, data: seq<int>, r: Mcu)
    ensures Then(done, BlockFirst(data, r)) == Then(done + [data], r)
  {
    if r.Mcu? {
      assert done + ([data] + r.blocks) == done + [data] + r.blocks;
    }
  }

  /** The blocks of an interleaved MCU from the k-th component of the scan on: of each component
      as many as its sampling factors say. */
  function UnitOf(comps: seq<JpegGeometry.Component>, order: seq<nat>, k: nat): seq<nat>
    requires forall i :: 0 <= i < |order| ==> order[i] < |comps|
    decreases |order| - k
  {
    if k >= |order| then []
    else seq(Times(comps[order[k]].v, comps[order[k]].h), _ => order[k]) + UnitOf(comps, order, k + 1)
  }

  lemma {:induction false} UnitMembers(comps: seq<JpegGeometry.Component>, order: seq<nat>, k: nat, i: nat)
    requires (forall i :: 0 <= i < |order| ==> order[i] < |comps|) && i < |UnitOf(comps, order, k)|
    ensures UnitOf(comps, order, k)[i] in order
    decreases |order| - k
  {
    var m := Times(comps[order[k]].v, comps[order[k]].h);
    if i >= m {
      UnitMembers(comps, order, k + 1, i - m);
    }
  }

  lemma SkipHead(m: nat, n: nat, tail: seq<nat>)
    requires m > 0
    ensures var u := seq(m, _ => n) + tail; u[0] == n && u[1..] == seq(m - 1, _ => n) + tail
  {
  }

  /** The blocks of `unit` are still to come in an MCU of which `done` has been decoded. */
  ghost predicate Pending(j: Jpeg, d: seq<Byte>, cs: seq<Coding>, unit: seq<nat>, done: seq<seq<int>>, whole: Mcu, ahead: Ahead)
    reads j
  {
    && Standing(j, d) && IsUnit(cs, unit)
    && whole == Then(done, McuAt(cs, unit, Entropy(d), j.Position(), j.dc_pred))
    && ahead == AheadMcu(cs, unit, d, j.Position(), j.dc_pred, j.Now())
  }

  /** The next block of an MCU whose remaining blocks are m of component n and then `tail`. */
  method NextBlock(j: Jpeg, n: nat, cs: seq<Coding>, tabs: seq<Tables>, ghost d: seq<Byte>, ghost m: nat, ghost tail: seq<nat>,
                   ghost whole: Mcu, ghost ahead: Ahead, done: seq<seq<int>>)
    returns (ok: bool, done': seq<seq<int>>)
    requires m > 0 && n < 4 && |cs| == 4 == |tabs| && Loaded(cs[n], tabs[n])
    requires Pending(j, d, cs, seq(m, _ => n) + tail, done, whole, ahead)
    modifies j`at, j`code_buffer, j`code_bits, j`marker, j`nomore, j`fetched, j`dc_pred
    ensures !ok ==> whole == NoMcu
    ensures ok ==> Pending(j, d, cs, seq(m - 1, _ => n) + tail, done', whole, ahead)
  {
    hide Entropy, At, BlockAt, Difference, Loaded, Usable, AheadOf;
    SkipHead(m, n, tail);
    var data;
    ghost var u := seq(m, _ => n) + tail;
    assert forall i :: 0 <= i < |u[1..]| ==> u[1..][i] == u[i + 1];
    ok, data := OneBlock(j, n, cs[n], tabs[n], d);
    done' := done + [data];
    if ok {
      AtFacts(j, d);
      ThenBlock(done, data, McuAt(cs, u[1..], Entropy(d), j.Position(), j.dc_pred));
    }
  }

  /** All blocks of one component in an MCU. */
  method ComponentBlocks(j: Jpeg, n: nat, h: nat, v: nat, cs: seq<Coding>, tabs: seq<Tables>, ghost d: seq<Byte>,
                         ghost tail: seq<nat>, ghost whole: Mcu, ghost ahead: Ahead, done: seq<seq<int>>)
    returns (ok: bool, done': seq<seq<int>>)
    requires n < 4 && |cs| == 4 == |tabs| && (Times(v, h) > 0 ==> Loaded(cs[n], tabs[n]))
    requires Pending(j, d, cs, seq(Times(v, h), _ => n) + tail, done, whole, ahead)
    modifies j`at, j`code_buffer, j`code_bits, j`marker, j`nomore, j`fetched, j`dc_pred
    ensures !ok ==> whole == NoMcu
    ensures ok ==> Pending(j, d, cs, tail, done', whole, ahead)
  {
    hide Pending, Loaded, Times;
    done', ok := done, true;
    TimesStep(0, h);
    for y := 0 to v
      invariant ok && Pending(j, d, cs, seq(Times(v - y, h), _ => n) + tail, done', whole, ahead)
    {
      TimesStep(v - y - 1, h);
      ghost var below := Times(v - y - 1, h);
      TimesMono(v - y, v, h);
      for x := 0 to h
        invariant ok && Pending(j, d, cs, seq(h - x + below, _ => n) + tail, done', whole, ahead)
      {
        ok, done' := NextBlock(j, n, cs, tabs, d, h - x + below, tail, whole, ahead, done');
        if !ok {
          return;
        }
      }
    }
    assert seq(0, _ => n) + tail == tail;
  }

  /** An MCU decoded: its blocks, and where the reader stands after them. */
  ghost predicate Ended(j: Jpeg, d: seq<Byte>, blocks: seq<seq<int>>, whole: Mcu, ahead: Ahead)
    reads j
  {
    Standing(j, d) && whole == Mcu(blocks, j.Position(), j.dc_pred) && ahead == j.Now()
  }

  /** One interleaved MCU: the components of the scan in order, and of each its blocks in rows. */
  method InterleavedMcu(j: Jpeg, comps: seq<JpegGeometry.Component>, order: seq<nat>, cs: seq<Coding>, tabs: seq<Tables>,
                        ghost d: seq<Byte>)
    returns (ok: bool, blocks: seq<seq<int>>)
    requires Standing(j, d) && AllLoaded(cs, tabs, order)
    requires (forall i :: 0 <= i < |order| ==> order[i] < |comps|) && IsUnit(cs, UnitOf(comps, order, 0))
    modifies j`at, j`code_buffer, j`code_bits, j`marker, j`nomore, j`fetched, j`dc_pred
    ensures var unit := UnitOf(comps, order, 0);
            var whole := McuAt(cs, unit, Entropy(d), old(j.Position()), old(j.dc_pred));
            var ahead := AheadMcu(cs, unit, d, old(j.Position()), old(j.dc_pred), old(j.Now()));
            if ok then Ended(j, d, blocks, whole, ahead) else whole == NoMcu
  {
    hide Entropy, At, Loaded, Usable, McuAt, AheadMcu, IsUnit, Times, Pending;
    ghost var whole := McuAt(cs, UnitOf(comps, order, 0), Entropy(d), j.Position(), j.dc_pred);
    ghost var ahead := AheadMcu(cs, UnitOf(comps, order, 0), d, j.Position(), j.dc_pred, j.Now());
    blocks, ok := [], true;
    McuBegins(j, d, cs, UnitOf(comps, order, 0));
    for k := 0 to |order|
      invariant ok && Pending(j, d, cs, UnitOf(comps, order, k), blocks, whole, ahead)
    {
      var n := order[k];
      ok, blocks := ComponentBlocks(j, n, comps[n].h, comps[n].v, cs, tabs, d, UnitOf(comps, order, k + 1), whole, ahead, blocks);
      if !ok {
        return;
      }
    }
    McuOver(j, d, cs, blocks, whole, ahead);
  }

  lemma McuBegins(j: Jpeg, d: seq<Byte>, cs: seq<Coding>, unit: seq<nat>)
    requires Standing(j, d) && IsUnit(cs, unit)
    ensures Pending(j, d, cs, unit, [], McuAt(cs, unit, Entropy(d), j.Position(), j.dc_pred),
                    AheadMcu(cs, unit, d, j.Position(), j.dc_pred, j.Now()))
  {
    hide McuAt, AheadMcu, Entropy, At, IsUnit;
    var r := McuAt(cs, unit, Entropy(d), j.Position(), j.dc_pred);
    if r.Mcu? {
      assert [] + r.blocks == r.blocks;
    }
  }

  lemma McuOver(j: Jpeg, d: seq<Byte>, cs: seq<Coding>, done: seq<seq<int>>, whole: Mcu, ahead: Ahead)
    requires Pending(j, d, cs, [], done, whole, ahead)
    ensures Ended(j, d, done, whole, ahead)
  {
    hide At, Entropy;
    assert done + [] == done;
  }

  /** An MCU of one block. */
  method SingleMcu(j: Jpeg, n: nat, cs: seq<Coding>, tabs: seq<Tables>, ghost d: seq<Byte>)
    returns (ok: bool, blocks: seq<seq<int>>)
    requires Standing(j, d) && AllLoaded(cs, tabs, [n]) && IsUnit(cs, [n])
    modifies j`at, j`code_buffer, j`code_bits, j`marker, j`nomore, j`fetched, j`dc_pred
    ensures var whole := McuAt(cs, [n], Entropy(d), old(j.Position()), old(j.dc_pred));
            var ahead := AheadMcu(cs, [n], d, old(j.Position()), old(j.dc_pred), old(j.Now()));
            if ok then Ended(j, d, blocks, whole, ahead) else whole == NoMcu
  {
    hide Entropy, At, Loaded, Usable, McuAt, AheadMcu, IsUnit, Pending;
    ghost var whole := McuAt(cs, [n], Entropy(d), j.Position(), j.dc_pred);
    ghost var ahead := AheadMcu(cs, [n], d, j.Position(), j.dc_pred, j.Now());
    McuBegins(j, d, cs, [n]);
    assert seq(1, _ => n) + [] == [n] && seq(0, _ => n) + [] == [];
    assert [n][0] == n;
    ok, blocks := NextBlock(j, n, cs, tabs, d, 1, [], whole, ahead, []);
    if ok {
      McuOver(j, d, cs, blocks, whole, ahead);
    }
  }

  // ----- whole scans

  lemma PrependAll(done: seq<seq<int>>, blocks: seq<seq<int>>, r: Outcome)
    ensures Prepend(done, Prepend(blocks, r)) == Prepend(done + blocks, r)
  {
    if r.Blocks? {
      assert done + (blocks + r.blocks) == done + blocks + r.blocks;
    }
  }

  lemma PrependNothing(r: Outcome)
    ensures Prepend([], r) == r
  {
    if r.Blocks? {
      assert [] + r.blocks == r.blocks;
    }
  }

  lemma PrependToNothing(done: seq<seq<int>>)
    ensures Prepend(done, Blocks([])) == Blocks(done)
  {
    assert done + [] == done;
  }

  /** A scan of which `done` has been decoded and `left` MCUs are to come. */
  ghost predicate Reading(j: Jpeg, d: seq<Byte>, cs: seq<Coding>, unit: seq<nat>, left: nat, todo: nat, interval: nat,
                          done: seq<seq<int>>, whole: Outcome)
    reads j
  {
    && Standing(j, d) && IsUnit(cs, unit) && todo >= 1 && interval >= 1
    && whole == Prepend(done, ReadFrom(cs, unit, d, j.Position(), j.dc_pred, j.Now(), left, todo, interval))
  }

  /** The next MCU of the scan, and what follows it. */
  lemma McuTaken(j: Jpeg, d: seq<Byte>, cs: seq<Coding>, unit: seq<nat>, p: nat, preds: seq<int>, a: Ahead,
                 left: nat, todo: nat, interval: nat, done: seq<seq<int>>, whole: Outcome, ok: bool, blocks: seq<seq<int>>)
    requires |preds| == 4 && IsUnit(cs, unit) && todo >= 1 && interval >= 1 && left > 0
    requires whole == Prepend(done, ReadFrom(cs, unit, d, p, preds, a, left, todo, interval))
    requires var mcu, ahead := McuAt(cs, unit, Entropy(d), p, preds), AheadMcu(cs, unit, d, p, preds, a);
             if ok then Ended(j, d, blocks, mcu, ahead) else mcu == NoMcu
    ensures !ok ==> whole == MissingCode
    ensures ok ==> Standing(j, d)
    ensures ok ==> whole == Prepend(done + blocks, ReadAfter(cs, unit, d, j.Position(), j.dc_pred, j.Now(), left - 1, todo, interval))
  {
    hide At, IsUnit, McuAt, AheadMcu, ReadAfter, Entropy;
    if ok {
      PrependAll(done, blocks, ReadAfter(cs, unit, d, j.Position(), j.dc_pred, j.Now(), left - 1, todo, interval));
    }
  }

  /** Counts down an MCU just taken. */
  method CountMcu(j: Jpeg, done: seq<seq<int>>, todo: nat, interval: nat, ghost d: seq<Byte>,
                  ghost cs: seq<Coding>, ghost unit: seq<nat>, ghost left: nat, ghost whole: Outcome)
    returns (more: bool, todo': nat, ghost d': seq<Byte>)
    requires Standing(j, d) && todo >= 1 && interval >= 1 && IsUnit(cs, unit)
    requires whole == Prepend(done, ReadAfter(cs, unit, d, j.Position(), j.dc_pred, j.Now(), left, todo, interval))
    modifies j
    ensures !more ==> whole == Blocks(done)
    ensures more ==> Reading(j, d', cs, unit, left, todo', interval, done, whole)
  {
    hide At, IsUnit, Standing, ReadFrom;
    more, todo', d' := CountDown(j, todo, interval, d, cs, unit, left);
    PrependToNothing(done);
    if more {
      NoneLeft(j, d', cs, unit, todo', interval);
    }
  }

  lemma NoneLeft(j: Jpeg, d: seq<Byte>, cs: seq<Coding>, unit: seq<nat>, todo: nat, interval: nat)
    requires Standing(j, d) && todo >= 1 && interval >= 1 && IsUnit(cs, unit)
    ensures ReadFrom(cs, unit, d, j.Position(), j.dc_pred, j.Now(), 0, todo, interval) == Blocks([])
  {
    hide At;
  }

  lemma ScanBegins(j: Jpeg, d: seq<Byte>, cs: seq<Coding>, unit: seq<nat>, left: nat, interval: nat)
    requires j.Valid() && j.at <= |j.data| && d == j.data[j.at..] && IsUnit(cs, unit) && interval >= 1
    requires j.coded == Entropy(d) && j.ending == MarkerAfter(d) && j.tail == AfterMarker(d)
    requires j.Position() == 0 && j.dc_pred == RESET && j.Now() == Ahead(0, false)
    ensures Reading(j, d, cs, unit, left, interval, interval, [],
                    ReadFrom(cs, unit, d, 0, RESET, Ahead(0, false), left, interval, interval))
    ensures ScanFrom(cs, unit, d, 0, RESET, left, interval, interval)
            in {Unsynced, ReadFrom(cs, unit, d, 0, RESET, Ahead(0, false), left, interval, interval)}
  {
    hide Jpeg.Reservoir, IsUnit, ReadFrom, ScanFrom, Entropy, MarkerAfter, AfterMarker;
    PrependNothing(ReadFrom(cs, unit, d, 0, RESET, Ahead(0, false), left, interval, interval));
    NothingYet(d);
    ReadIsScan(cs, unit, d, 0, RESET, Ahead(0, false), left, interval, interval);
  }

  lemma ScanOver(j: Jpeg, d: seq<Byte>, cs: seq<Coding>, unit: seq<nat>, todo: nat, interval: nat, done: seq<seq<int>>, whole: Outcome)
    requires Reading(j, d, cs, unit, 0, todo, interval, done, whole)
    ensures whole == Blocks(done)
  {
    hide At, IsUnit;
    PrependToNothing(done);
  }

  lemma UnitIsLoaded(cs: seq<Coding>, tabs: seq<Tables>, comps: seq<JpegGeometry.Component>, order: seq<nat>)
    requires AllLoaded(cs, tabs, order) && forall i :: 0 <= i < |order| ==> order[i] < |comps|
    ensures IsUnit(cs, UnitOf(comps, order, 0))
  {
    hide Usable;
    var unit := UnitOf(comps, order, 0);
    forall i | 0 <= i < |unit|
      ensures unit[i] < 4 && Usable(cs[unit[i]])
    {
      UnitMembers(comps, order, 0, i);
      var k :| 0 <= k < |order| && order[k] == unit[i];
      assert Loaded(cs[order[k]], tabs[order[k]]);
    }
  }

  lemma LoadedIsUnit(cs: seq<Coding>, tabs: seq<Tables>, unit: seq<nat>)
    requires AllLoaded(cs, tabs, unit)
    ensures IsUnit(cs, unit)
  {
  }

  function Interval(restart: nat): (n: nat)
    ensures n >= 1
  {
    if restart != 0 then restart else 0x7FFF_FFFF
  }

  /** The scan of n MCUs that starts d, as it is read and as it is meant. */
  ghost predicate ScanResult(d: seq<Byte>, cs: seq<Coding>, unit: seq<nat>, n: nat, restart: nat, ok: bool, blocks: seq<seq<int>>) {
    && IsUnit(cs, unit)
    && var r := if ok then Blocks(blocks) else MissingCode;
       && ReadFrom(cs, unit, d, 0, RESET, Ahead(0, false), n, Interval(restart), Interval(restart)) == r
       && ScanFrom(cs, unit, d, 0, RESET, n, Interval(restart), Interval(restart)) in {Unsynced, r}
  }

  /** Decodes a scan of one component n, h rows of w blocks, with a restart every `restart` blocks, 0
      for none. The blocks decoded are those the reader makes of the scan, and a failure is a
      missing code; unless some run leaves 24 to 32 bits before its restart marker, that is what
      the scan means. */
  method ParseScan(j: Jpeg, n: nat, cs: seq<Coding>, tabs: seq<Tables>, w: nat, h: nat, restart: nat)
    returns (ok: bool, blocks: seq<seq<int>>)
    requires j.at <= |j.data| && AllLoaded(cs, tabs, [n])
    modifies j
    ensures ScanResult(j.data[old(j.at)..], cs, [n], Times(h, w), restart, ok, blocks)
  {
    hide ScanFrom, ReadFrom, ReadAfter, McuAt, AheadMcu, Standing, AllLoaded, IsUnit, Reading, Ended, Entropy,
      MarkerAfter, AfterMarker, Times;
    LoadedIsUnit(cs, tabs, [n]);
    ghost var d := j.data[j.at..];
    j.Reset();
    var interval := Interval(restart);
    var todo, more := interval, true;
    ghost var left := Times(h, w);
    ghost var whole := ReadFrom(cs, [n], d, 0, RESET, Ahead(0, false), left, interval, interval);
    ScanBegins(j, d, cs, [n], left, interval);
    blocks, ok := [], true;
    TimesStep(0, w);
    for y := 0 to h
      invariant ok && left == Times(h - y, w) && Reading(j, d, cs, [n], left, todo, interval, blocks, whole)
    {
      TimesStep(h - y - 1, w);
      for x := 0 to w
        invariant ok && left == w - x + Times(h - y - 1, w) && Reading(j, d, cs, [n], left, todo, interval, blocks, whole)
      {
        var mcu;
        ReadingStands(j, d, cs, [n], left, todo, interval, blocks, whole);
        ghost var p, preds, a := j.Position(), j.dc_pred, j.Now();
        ok, mcu := SingleMcu(j, n, cs, tabs, d);
        McuTaken(j, d, cs, [n], p, preds, a, left, todo, interval, blocks, whole, ok, mcu);
        if !ok {
          return;
        }
        left, blocks := left - 1, blocks + mcu;
        more, todo, d := CountMcu(j, blocks, todo, interval, d, cs, [n], left, whole);
        if !more {
          return;
        }
      }
    }
    ScanOver(j, d, cs, [n], todo, interval, blocks, whole);
  }

  lemma ReadingStands(j: Jpeg, d: seq<Byte>, cs: seq<Coding>, unit: seq<nat>, left: nat, todo: nat, interval: nat,
                      done: seq<seq<int>>, whole: Outcome)
    requires Reading(j, d, cs, unit, left, todo, interval, done, whole)
    ensures Standing(j, d) && todo >= 1 && interval >= 1 && IsUnit(cs, unit) && |j.dc_pred| == 4 && j.Position() >= 0
    ensures whole == Prepend(done, ReadFrom(cs, unit, d, j.Position(), j.dc_pred, j.Now(), left, todo, interval))
  {
    hide At, IsUnit, ReadFrom;
  }

  /** The same for an interleaved scan of mx by my MCUs of the components listed in order. */
  method ParseInterleaved(j: Jpeg, comps: seq<JpegGeometry.Component>, order: seq<nat>, cs: seq<Coding>, tabs: seq<Tables>,
                          mx: nat, my: nat, restart: nat)
    returns (ok: bool, blocks: seq<seq<int>>)
    requires j.at <= |j.data| && AllLoaded(cs, tabs, order)
    requires forall i :: 0 <= i < |order| ==> order[i] < |comps|
    modifies j
    ensures ScanResult(j.data[old(j.at)..], cs, UnitOf(comps, order, 0), Times(my, mx), restart, ok, blocks)
  {
    hide ScanFrom, ReadFrom, ReadAfter, McuAt, AheadMcu, Standing, AllLoaded, IsUnit, Reading, Ended, Entropy,
      MarkerAfter, AfterMarker, Times, UnitOf;
    UnitIsLoaded(cs, tabs, comps, order);
    ghost var unit := UnitOf(comps, order, 0);
    ghost var d := j.data[j.at..];
    j.Reset();
    var interval := Interval(restart);
    var todo, more := interval, true;
    ghost var left := Times(my, mx);
    ghost var whole := ReadFrom(cs, unit, d, 0, RESET, Ahead(0, false), left, interval, interval);
    ScanBegins(j, d, cs, unit, left, interval);
    blocks, ok := [], true;
    TimesStep(0, mx);
    for y := 0 to my
      invariant ok && left == Times(my - y, mx) && Reading(j, d, cs, unit, left, todo, interval, blocks, whole)
    {
      TimesStep(my - y - 1, mx);
      for x := 0 to mx
        invariant ok && left == mx - x + Times(my - y - 1, mx) && Reading(j, d, cs, unit, left, todo, interval, blocks, whole)
      {
        var mcu;
        ReadingStands(j, d, cs, unit, left, todo, interval, blocks, whole);
        ghost var p, preds, a := j.Position(), j.dc_pred, j.Now();
        ok, mcu := InterleavedMcu(j, comps, order, cs, tabs, d);
        McuTaken(j, d, cs, unit, p, preds, a, left, todo, interval, blocks, whole, ok, mcu);
        if !ok {
          return;
        }
        left, blocks := left - 1, blocks + mcu;
        more, todo, d := CountMcu(j, blocks, todo, interval, d, cs, unit, left, whole);
        if !more {
          return;
        }
      }
    }
    ScanOver(j, d, cs, unit, todo, interval, blocks, whole);
  }
}
