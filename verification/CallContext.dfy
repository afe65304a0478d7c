/** The calling-context variables that the coverage pass keeps: a word that a function with
    calls changes on entry and restores on return, and the vector of the last K callers. A run
    is a sequence of events; the machine state is the thread-local variable and the stack of
    values that active functions loaded on entry. */
module CallContext {
  import opened Bits
  import opened CoverageMap

  /** A function: its random id, and whether it was found to contain a counted call. */
  datatype Fn = Fn(id: nat, has_calls: bool)

  // ----- one word: full context, or the direct caller (K = 1)

  datatype Mode = Full | Caller

  datatype Event = Enter(fn: Fn) | Leave

  datatype Frame = Frame(fn: Fn, loaded: nat)

  datatype State = State(ctx: nat, stack: seq<Frame>)

  /** The code at a function's entry and at its return. */
  function Do(mode: Mode, s: State, e: Event): State {
    match e
    case Enter(fn) =>
      State(if !fn.has_calls then s.ctx else if mode == Full then Xor(s.ctx, fn.id) else fn.id,
            s.stack + [Frame(fn, s.ctx)])
    case Leave =>
      if s.stack == [] then s else
      var top := s.stack[|s.stack| - 1];
      State(if top.fn.has_calls then top.loaded else s.ctx, s.stack[..|s.stack| - 1])
  }

  function Exec(mode: Mode, s: State, trace: seq<Event>): State
    decreases |trace|
  {
    if trace == [] then s else Exec(mode, Do(mode, s, trace[0]), trace[1..])
  }

  /** A trace that returns from what it enters, with d functions entered before it. */
  predicate WellNested(trace: seq<Event>, d: nat)
    decreases |trace|
  {
    if trace == [] then d == 0
    else if trace[0].Enter? then WellNested(trace[1..], d + 1)
    else d > 0 && WellNested(trace[1..], d - 1)
  }

  /** Ids of the active functions with calls, outermost first. */
  function ActiveIds(stack: seq<Frame>): seq<nat> {
    if stack == [] then [] else
    var top := stack[|stack| - 1];
    var below := ActiveIds(stack[..|stack| - 1]);
    if top.fn.has_calls then below + [top.fn.id] else below
  }

  /** The context that a stack of active functions stands for. */
  function ContextOf(mode: Mode, stack: seq<Frame>): nat {
    var ids := ActiveIds(stack);
    if mode == Full then XorAll(ids) else if ids == [] then 0 else ids[|ids| - 1]
  }

  /** The variable is the context of the active functions, and each of them loaded the context
      of its own callers. */
  ghost predicate Consistent(mode: Mode, s: State) {
    && s.ctx == ContextOf(mode, s.stack)
    && forall i :: 0 <= i < |s.stack| ==> s.stack[i].loaded == ContextOf(mode, s.stack[..i])
  }

  lemma XorAllAppend(s: seq<nat>, x: nat)
    ensures XorAll(s + [x]) == Xor(XorAll(s), x)
  {
    assert (s + [x])[..|s|] == s;
  }

  lemma EnterConsistent(mode: Mode, s: State, fn: Fn)
    requires Consistent(mode, s)
    ensures Consistent(mode, Do(mode, s, Enter(fn)))
  {
    hide Xor, XorAll;
    var t := Do(mode, s, Enter(fn));
    assert t.stack[..|s.stack|] == s.stack;
    XorAllAppend(ActiveIds(s.stack), fn.id);
    forall i | 0 <= i < |t.stack|
      ensures t.stack[i].loaded == ContextOf(mode, t.stack[..i])
    {
      if i < |s.stack| {
        assert t.stack[..i] == s.stack[..i];
      }
    }
  }

  lemma LeaveConsistent(mode: Mode, s: State)
    requires Consistent(mode, s)
    ensures Consistent(mode, Do(mode, s, Leave))
  {
    hide Xor, XorAll;
    if s.stack != [] {
      var t, n := Do(mode, s, Leave), |s.stack| - 1;
      assert s.stack[n].loaded == ContextOf(mode, s.stack[..n]);
      assert !s.stack[n].fn.has_calls ==> ActiveIds(s.stack) == ActiveIds(s.stack[..n]);
      forall i | 0 <= i < n
        ensures t.stack[i].loaded == ContextOf(mode, t.stack[..i])
      {
        assert t.stack[..i] == s.stack[..i];
      }
    }
  }

  /** Every step keeps the variable what it should be. */
  lemma StepConsistent(mode: Mode, s: State, e: Event)
    requires Consistent(mode, s)
    ensures Consistent(mode, Do(mode, s, e))
  {
    match e
    case Enter(fn) => EnterConsistent(mode, s, fn);
    case Leave => LeaveConsistent(mode, s);
  }

  /** Over every run, a function loads on entry the combined ids of its active callers. */
  lemma {:induction false} EveryRunConsistent(mode: Mode, s: State, trace: seq<Event>)
    requires Consistent(mode, s)
    ensures Consistent(mode, Exec(mode, s, trace))
    decreases |trace|
  {
    if trace != [] {
      StepConsistent(mode, s, trace[0]);
      EveryRunConsistent(mode, Do(mode, s, trace[0]), trace[1..]);
    }
  }

  /** A well-nested trace leaves the stack below it alone. */
  lemma {:induction false} StackRestored(mode: Mode, s: State, trace: seq<Event>, d: nat)
    requires WellNested(trace, d) && d <= |s.stack|
    ensures Exec(mode, s, trace).stack == s.stack[..|s.stack| - d]
    decreases |trace|
  {
    if trace == [] {
      assert s.stack[..|s.stack|] == s.stack;
    } else {
      var t := Do(mode, s, trace[0]);
      if trace[0].Enter? {
        StackRestored(mode, t, trace[1..], d + 1);
        assert t.stack[..|t.stack| - (d + 1)] == s.stack[..|s.stack| - d];
      } else {
        StackRestored(mode, t, trace[1..], d - 1);
        assert t.stack[..|t.stack| - (d - 1)] == s.stack[..|s.stack| - d];
      }
    }
  }

  /** Whatever a function calls, the context is back when the call returns. */
  lemma ContextRestored(mode: Mode, s: State, trace: seq<Event>)
    requires Consistent(mode, s) && WellNested(trace, 0)
    ensures Exec(mode, s, trace) == s
  {
    EveryRunConsistent(mode, s, trace);
    StackRestored(mode, s, trace, 0);
    assert s.stack[..|s.stack|] == s.stack;
  }

  // ----- from the start of the program

  /** The variable starts as zero, which is the context of no callers. */
  lemma StartConsistent(mode: Mode)
    ensures Consistent(mode, State(0, []))
  {
  }

  /** Two calls deep: both ids in full mode, the inner one's otherwise. */
  lemma TwoCallsDeep(mode: Mode, f: Fn, g: Fn)
    requires f.has_calls && g.has_calls
    ensures Exec(mode, State(0, []), [Enter(f), Enter(g)]).ctx == if mode == Full then Xor(f.id, g.id) else g.id
    ensures Exec(mode, State(0, []), [Enter(f), Enter(g), Leave]).ctx == f.id
  {
    hide Xor;
    XorStep(0, f.id);
    var a := Do(mode, State(0, []), Enter(f));
    var b := Do(mode, a, Enter(g));
    assert [Enter(f), Enter(g)][1..] == [Enter(g)] && [Enter(f), Enter(g), Leave][1..] == [Enter(g), Leave];
    assert Exec(mode, a, [Enter(g)]) == b;
    assert [Enter(g), Leave][1..] == [Leave];
    assert Exec(mode, b, [Leave]) == Do(mode, b, Leave);
  }

  lemma {:induction false} NestedFirst(a: seq<Event>, b: seq<Event>, k: nat, d: nat)
    requires WellNested(a, k) && WellNested(b, d)
    ensures WellNested(a + b, k + d)
    decreases |a|
  {
    if a == [] {
      assert a + b == b;
    } else {
      assert (a + b)[1..] == a[1..] + b;
      NestedFirst(a[1..], b, if a[0].Enter? then k + 1 else k - 1, d);
    }
  }

  /** Well-nested traces: a call around one, and one after the other. */
  lemma CallsNest(f: Fn, body: seq<Event>, rest: seq<Event>)
    requires WellNested(body, 0) && WellNested(rest, 0)
    ensures WellNested([], 0) && WellNested([Enter(f)] + (body + ([Leave] + rest)), 0)
  {
    assert ([Leave] + rest)[1..] == rest;
    assert WellNested([Leave] + rest, 1);
    NestedFirst(body, [Leave] + rest, 0, 1);
    assert ([Enter(f)] + (body + ([Leave] + rest)))[1..] == body + ([Leave] + rest);
  }

  // ----- a vector of the last K callers

  /** The vector code restores at the start of a returning block, not at its end; a call in
      that block runs with the caller already taken out. `undef` is what the shuffle happens to
      put into the lane that is overwritten next. */
  datatype KEvent = KEnter(fn: Fn, undef: nat) | KBeginReturn | KLeave

  datatype KFrame = KFrame(fn: Fn, loaded: seq<nat>, returning: bool)

  datatype KState = KState(lanes: seq<nat>, stack: seq<KFrame>)

  datatype Vector = Vector(k: nat, mask: seq<int>)

  ghost predicate IsMask(v: Vector) {
    && 1 <= v.k <= |v.mask| && v.mask[0] == UNDEF
    && (forall i :: 1 <= i < v.k ==> v.mask[i] == i - 1)
    && (forall i :: v.k <= i < |v.mask| ==> v.mask[i] == v.k)
  }

  function KDo(v: Vector, s: KState, e: KEvent): (t: KState)
    requires |s.lanes| == |v.mask| > 0 && forall i :: 0 <= i < |s.stack| ==> |s.stack[i].loaded| == |v.mask|
    ensures |t.lanes| == |v.mask| && forall i :: 0 <= i < |t.stack| ==> |t.stack[i].loaded| == |v.mask|
  {
    match e
    case KEnter(fn, undef) =>
      KState(if fn.has_calls then Shuffle(s.lanes, v.mask, undef)[0 := fn.id] else s.lanes,
             s.stack + [KFrame(fn, s.lanes, false)])
    case KBeginReturn =>
      if s.stack == [] then s else
      var n := |s.stack| - 1;
      KState(if s.stack[n].fn.has_calls then s.stack[n].loaded else s.lanes,
             s.stack[n := s.stack[n].(returning := true)])
    case KLeave =>
      if s.stack == [] then s else KState(s.lanes, s.stack[..|s.stack| - 1])
  }

  /** A function leaves from a returning block, and returning blocks are entered once. */
  predicate KLegal(s: KState, e: KEvent) {
    match e
    case KEnter(_, _) => true
    case KBeginReturn => s.stack != [] && !s.stack[|s.stack| - 1].returning
    case KLeave => s.stack != [] && s.stack[|s.stack| - 1].returning
  }

  /** Ids of the active functions with calls that have not begun to return. */
  function CallingIds(stack: seq<KFrame>): seq<nat> {
    if stack == [] then [] else
    var top := stack[|stack| - 1];
    var below := CallingIds(stack[..|stack| - 1]);
    if top.fn.has_calls && !top.returning then below + [top.fn.id] else below
  }

  function KContextOf(v: Vector, stack: seq<KFrame>): seq<nat>
    requires v.k <= |v.mask|
  {
    Recent(CallingIds(stack), v.k) + Zeros(|v.mask| - v.k)
  }

  ghost predicate KConsistent(v: Vector, s: KState) {
    && IsMask(v) && s.lanes == KContextOf(v, s.stack)
    && forall i :: 0 <= i < |s.stack| ==> s.stack[i].loaded == KContextOf(v, s.stack[..i])
  }

  /** Every legal step keeps the vector at the last K calling functions. */
  lemma KStepConsistent(v: Vector, s: KState, e: KEvent)
    requires KConsistent(v, s) && KLegal(s, e)
    ensures |s.lanes| == |v.mask| && forall i :: 0 <= i < |s.stack| ==> |s.stack[i].loaded| == |v.mask|
    ensures KConsistent(v, KDo(v, s, e))
  {
    match e
    case KEnter(fn, undef) => KEnterConsistent(v, s, fn, undef);
    case KBeginReturn => KBeginReturnConsistent(v, s);
    case KLeave => KLeaveConsistent(v, s);
  }

  /** Entries of the stack below n are as before. */
  lemma KPrefix(v: Vector, s: KState, t: seq<KFrame>, n: nat)
    requires KConsistent(v, s) && n <= |s.stack| && n <= |t| && t[..n] == s.stack[..n]
    ensures forall i :: 0 <= i < n ==> t[i].loaded == KContextOf(v, t[..i])
  {
    forall i | 0 <= i < n
      ensures t[i].loaded == KContextOf(v, t[..i])
    {
      assert t[..n][i] == s.stack[..n][i];
      assert t[..i] == t[..n][..i] == s.stack[..i];
    }
  }

  lemma KEnterConsistent(v: Vector, s: KState, fn: Fn, undef: nat)
    requires KConsistent(v, s)
    requires |s.lanes| == |v.mask| && forall i :: 0 <= i < |s.stack| ==> |s.stack[i].loaded| == |v.mask|
    ensures KConsistent(v, KDo(v, s, KEnter(fn, undef)))
  {
    hide Shuffle, Recent, Zeros;
    var t := KDo(v, s, KEnter(fn, undef));
    assert t.stack[..|s.stack|] == s.stack;
    assert s.stack[..|s.stack|] == s.stack;
    ShuffleRemembers(CallingIds(s.stack), s.lanes, v.mask, undef, fn.id, v.k, |v.mask|);
    KPrefix(v, s, t.stack, |s.stack|);
  }

  lemma KBeginReturnConsistent(v: Vector, s: KState)
    requires KConsistent(v, s) && KLegal(s, KBeginReturn)
    requires |s.lanes| == |v.mask| && forall i :: 0 <= i < |s.stack| ==> |s.stack[i].loaded| == |v.mask|
    ensures KConsistent(v, KDo(v, s, KBeginReturn))
  {
    hide Recent, Zeros;
    var t, n := KDo(v, s, KBeginReturn), |s.stack| - 1;
    assert t.stack[..n] == s.stack[..n];
    KPrefix(v, s, t.stack, n);
    assert s.stack[n].loaded == KContextOf(v, s.stack[..n]);
    assert CallingIds(t.stack) == CallingIds(s.stack[..n]);
  }

  lemma KLeaveConsistent(v: Vector, s: KState)
    requires KConsistent(v, s) && KLegal(s, KLeave)
    requires |s.lanes| == |v.mask| && forall i :: 0 <= i < |s.stack| ==> |s.stack[i].loaded| == |v.mask|
    ensures KConsistent(v, KDo(v, s, KLeave))
  {
    hide Recent, Zeros;
    var t, n := KDo(v, s, KLeave), |s.stack| - 1;
    assert t.stack[..n] == s.stack[..n];
    KPrefix(v, s, t.stack, n);
  }

  function KExec(v: Vector, s: KState, trace: seq<KEvent>): (t: KState)
    requires |s.lanes| == |v.mask| > 0 && forall i :: 0 <= i < |s.stack| ==> |s.stack[i].loaded| == |v.mask|
    decreases |trace|
  {
    if trace == [] then s else KExec(v, KDo(v, s, trace[0]), trace[1..])
  }

  predicate KLegalRun(v: Vector, s: KState, trace: seq<KEvent>)
    requires |s.lanes| == |v.mask| > 0 && forall i :: 0 <= i < |s.stack| ==> |s.stack[i].loaded| == |v.mask|
    decreases |trace|
  {
    trace == [] || (KLegal(s, trace[0]) && KLegalRun(v, KDo(v, s, trace[0]), trace[1..]))
  }

  lemma {:induction false} KEveryRunConsistent(v: Vector, s: KState, trace: seq<KEvent>)
    requires KConsistent(v, s)
    requires |s.lanes| == |v.mask| > 0 && forall i :: 0 <= i < |s.stack| ==> |s.stack[i].loaded| == |v.mask|
    requires KLegalRun(v, s, trace)
    ensures KConsistent(v, KExec(v, s, trace))
    decreases |trace|
  {
    if trace != [] {
      KStepConsistent(v, s, trace[0]);
      KEveryRunConsistent(v, KDo(v, s, trace[0]), trace[1..]);
    }
  }

  /** The vector starts as zeros. */
  lemma KStartConsistent(v: Vector)
    requires IsMask(v)
    ensures KConsistent(v, KState(Zeros(|v.mask|), []))
  {
    assert Zeros(|v.mask|) == Recent([], v.k) + Zeros(|v.mask| - v.k);
  }

  /** A trace that returns from what it enters, with d functions entered before it. */
  predicate KNested(trace: seq<KEvent>, d: nat)
    decreases |trace|
  {
    if trace == [] then d == 0
    else if trace[0].KEnter? then KNested(trace[1..], d + 1)
    else d > 0 && KNested(trace[1..], if trace[0].KLeave? then d - 1 else d)
  }

  lemma {:induction false} KStackRestored(v: Vector, s: KState, trace: seq<KEvent>, d: nat)
    requires |s.lanes| == |v.mask| > 0 && forall i :: 0 <= i < |s.stack| ==> |s.stack[i].loaded| == |v.mask|
    requires KNested(trace, d) && d <= |s.stack|
    ensures KExec(v, s, trace).stack == s.stack[..|s.stack| - d]
    decreases |trace|
  {
    if trace == [] {
      assert s.stack[..|s.stack|] == s.stack;
    } else {
      var t := KDo(v, s, trace[0]);
      var d' := if trace[0].KEnter? then d + 1 else if trace[0].KLeave? then d - 1 else d;
      KStackRestored(v, t, trace[1..], d');
      assert t.stack[..|t.stack| - d'] == s.stack[..|s.stack| - d];
    }
  }

  /** Whatever a function calls, the vector is back when the call returns. */
  lemma KContextRestored(v: Vector, s: KState, trace: seq<KEvent>)
    requires KConsistent(v, s)
    requires |s.lanes| == |v.mask| > 0 && forall i :: 0 <= i < |s.stack| ==> |s.stack[i].loaded| == |v.mask|
    requires KLegalRun(v, s, trace) && KNested(trace, 0)
    ensures KExec(v, s, trace) == s
  {
    KEveryRunConsistent(v, s, trace);
    KStackRestored(v, s, trace, 0);
    assert s.stack[..|s.stack|] == s.stack;
  }

  /** Ids of all active functions with calls, returning or not. */
  function AllIds(stack: seq<KFrame>): seq<nat> {
    if stack == [] then [] else
    var top := stack[|stack| - 1];
    var below := AllIds(stack[..|stack| - 1]);
    if top.fn.has_calls then below + [top.fn.id] else below
  }

  /** None of the last k active functions with calls has begun to return: of the frames with
      fewer than k such functions above them. */
  ghost predicate LastCalling(stack: seq<KFrame>, k: nat) {
    forall i :: 0 <= i < |stack| && stack[i].fn.has_calls && |AllIds(stack[i + 1..])| < k ==> !stack[i].returning
  }

  /** The ids are those of different functions, and none is the 0 of an unused lane. */
  ghost predicate Telling(ids: seq<nat>) {
    (forall i :: 0 <= i < |ids| ==> ids[i] != 0) && (forall i, j :: 0 <= i < j < |ids| ==> ids[i] != ids[j])
  }

  lemma {:induction false} CallingIsActive(stack: seq<KFrame>, id: nat)
    ensures id in CallingIds(stack) ==> id in AllIds(stack)
  {
    if stack != [] {
      CallingIsActive(stack[..|stack| - 1], id);
    }
  }

  lemma AllIdsTop(stack: seq<KFrame>, i: nat)
    requires i < |stack| - 1
    ensures AllIds(stack[i + 1..]) == AllIds(stack[..|stack| - 1][i + 1..])
                                      + (if stack[|stack| - 1].fn.has_calls then [stack[|stack| - 1].fn.id] else [])
  {
    var n := |stack| - 1;
    assert stack[i + 1..][..n - i - 1] == stack[..n][i + 1..];
    assert stack[i + 1..][n - i - 1] == stack[n];
  }

  /** The condition, from the top of the stack downwards. */
  lemma LastCallingTop(stack: seq<KFrame>, k: nat)
    requires |stack| > 0 && k > 0
    ensures var n := |stack| - 1;
            LastCalling(stack, k) <==>
            if stack[n].fn.has_calls then !stack[n].returning && LastCalling(stack[..n], k - 1)
            else LastCalling(stack[..n], k)
  {
    hide AllIds;
    var n := |stack| - 1;
    var init := stack[..n];
    var k' := if stack[n].fn.has_calls then k - 1 else k;
    assert stack[n + 1..] == [];
    NoIds();
    forall i: nat | i < n
      ensures init[i] == stack[i] && (|AllIds(stack[i + 1..])| < k <==> |AllIds(init[i + 1..])| < k')
    {
      AllIdsTop(stack, i);
    }
    if LastCalling(stack, k) {
      forall i | 0 <= i < |init| && init[i].fn.has_calls && |AllIds(init[i + 1..])| < k'
        ensures !init[i].returning
      {
        assert init[i] == stack[i];
      }
    }
  }

  lemma NoIds()
    ensures AllIds([]) == []
  {
  }

  lemma RecentTop(ids: seq<nat>, id: nat, k: nat)
    requires k > 0
    ensures Recent(ids + [id], k) == [id] + Recent(ids, k - 1)
  {
  }

  lemma TellingTop(ids: seq<nat>, id: nat)
    requires Telling(ids + [id])
    ensures Telling(ids) && id !in ids && id != 0
  {
    var all := ids + [id];
    assert all[|ids|] == id;
    forall i | 0 <= i < |ids|
      ensures ids[i] != 0 && ids[i] != id
    {
      assert all[i] == ids[i];
    }
    forall i, j | 0 <= i < j < |ids|
      ensures ids[i] != ids[j]
    {
      assert all[i] == ids[i] && all[j] == ids[j];
    }
  }

  /** The newest k ids of the functions still calling, and of all active ones. */
  lemma {:induction false} SameRecentIds(stack: seq<KFrame>, k: nat)
    ensures LastCalling(stack, k) ==> Recent(CallingIds(stack), k) == Recent(AllIds(stack), k)
    ensures Telling(AllIds(stack)) && Recent(CallingIds(stack), k) == Recent(AllIds(stack), k) ==> LastCalling(stack, k)
  {
    hide LastCalling, Recent, Telling;
    if k == 0 {
      NoneOfNone(stack);
    } else if stack != [] {
      var n := |stack| - 1;
      var top, calling, all := stack[n], CallingIds(stack[..n]), AllIds(stack[..n]);
      LastCallingTop(stack, k);
      if !top.fn.has_calls {
        SameRecentIds(stack[..n], k);
      } else {
        RecentTop(all, top.fn.id, k);
        SameRecentIds(stack[..n], k - 1);
        if Telling(all + [top.fn.id]) {
          TellingTop(all, top.fn.id);
        }
        if !top.returning {
          RecentTop(calling, top.fn.id, k);
          SameTail(top.fn.id, Recent(calling, k - 1), Recent(all, k - 1));
        } else if Telling(AllIds(stack)) {
          CallingIsActive(stack[..n], top.fn.id);
          NewestIs(calling, k);
        }
      }
    } else {
      NoneOfEmpty(k);
    }
  }

  lemma SameTail(x: nat, a: seq<nat>, b: seq<nat>)
    ensures [x] + a == [x] + b <==> a == b
  {
    assert ([x] + a)[1..] == a && ([x] + b)[1..] == b;
  }

  lemma NewestIs(ids: seq<nat>, k: nat)
    requires k > 0
    ensures Recent(ids, k)[0] in ids || Recent(ids, k)[0] == 0
  {
  }

  lemma NoneOfNone(stack: seq<KFrame>)
    ensures LastCalling(stack, 0) && forall ids: seq<nat> :: Recent(ids, 0) == []
  {
  }

  lemma NoneOfEmpty(k: nat)
    ensures LastCalling([], k) && CallingIds([]) == AllIds([])
  {
  }

  /** The vector holds the last K of all active callers if none of those has begun to return;
      and, when ids tell the active functions apart, only if. */
  lemma SeesAllCallers(v: Vector, s: KState)
    requires KConsistent(v, s)
    ensures LastCalling(s.stack, v.k) ==> s.lanes == Recent(AllIds(s.stack), v.k) + Zeros(|v.mask| - v.k)
    ensures Telling(AllIds(s.stack)) && s.lanes == Recent(AllIds(s.stack), v.k) + Zeros(|v.mask| - v.k)
            ==> LastCalling(s.stack, v.k)
  {
    hide LastCalling, Recent, Telling, CallingIds, AllIds;
    SameRecentIds(s.stack, v.k);
    assert s.lanes[..v.k] == Recent(CallingIds(s.stack), v.k);
    var all := Recent(AllIds(s.stack), v.k);
    assert (all + Zeros(|v.mask| - v.k))[..v.k] == all;
  }

  /** A call in a returning block does not see its caller: function 5 enters and begins to
      return; what it calls then loads an all-zero vector. */
  lemma ReturningCallerIsLost(v: Vector, undef: nat)
    requires IsMask(v)
    ensures var s0 := KState(Zeros(|v.mask|), []);
            var trace := [KEnter(Fn(5, true), undef), KBeginReturn];
            var s := KExec(v, s0, trace);
            && KConsistent(v, s0) && KLegalRun(v, s0, trace)
            && s.lanes == Zeros(|v.mask|)
            && Recent(AllIds(s.stack), v.k)[0] == 5
  {
    var s0 := KState(Zeros(|v.mask|), []);
    var f := Fn(5, true);
    assert s0.lanes == Recent([], v.k) + Zeros(|v.mask| - v.k);
    var s1 := KDo(v, s0, KEnter(f, undef));
    var s2 := KDo(v, s1, KBeginReturn);
    var trace := [KEnter(f, undef), KBeginReturn];
    assert trace[1..] == [KBeginReturn] && |trace[1..][1..]| == 0;
    assert s1.stack == [KFrame(f, s0.lanes, false)];
    assert s2.stack == [KFrame(f, s0.lanes, true)];
    assert KExec(v, s0, trace) == KExec(v, s1, trace[1..]) == s2;
    assert AllIds(s2.stack) == AllIds([]) + [5];
  }
}
