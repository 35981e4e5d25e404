/** What happens when the window overflows, on the indices of a stream: which gap is skipped, what
    comes out, what stays held, and how order is restored again after it. The arrivals may come in
    any order, and any of them more than once. */
module Overflow {
  import opened Collections
  import opened Serial
  import opened FlowModel
  import opened FlowLaws
  import opened Refinement
  import opened Restoration

  // ---------------------------------------------------------------- the reference, on indices

  /** The first taken index at or after `from`; `n` if there is none. */
  function FirstTaken(taken: seq<nat>, n: nat, from: nat): (k: nat)
    requires from <= n
    ensures from <= k <= n
    ensures forall i :: from <= i < k ==> i !in taken
    ensures k < n ==> k in taken
    decreases n - from
  {
    if from < n && from !in taken then FirstTaken(taken, n, from + 1) else from
  }

  /** The taken indices beyond `j`. */
  ghost function Beyond(taken: seq<nat>, j: nat): set<nat> {
    set i | i in taken && i > j
  }

  ghost predicate InBounds(order: seq<nat>, n: nat) {
    forall a :: 0 <= a < |order| ==> order[a] < n
  }

  /** Index `i` arrives, is counted in `taken`, and leaves more than `window` waiting beyond `j`. */
  ghost predicate Overruns(taken: seq<nat>, window: nat, j: nat, i: nat) {
    i > j && |Beyond(taken, j)| > window
  }

  /** The index waited for after `i` arrives while `j` is waited for: past what is there from `j` on
      when `j` itself arrives; past what is there from the first taken one on when the window
      overruns. */
  ghost function Next(taken: seq<nat>, n: nat, window: nat, j: nat, i: nat): (j': nat)
    requires j <= n
    ensures j <= j' <= n
  {
    if i == j then FirstMissing(taken, n, j)
    else if Overruns(taken, window, j, i) then FirstMissing(taken, n, FirstTaken(taken, n, j))
    else j
  }

  /** The index waited for after `a` arrivals. The first one to arrive is where waiting starts. */
  ghost function Waits(order: seq<nat>, n: nat, window: nat, a: nat): (j: nat)
    requires InBounds(order, n) && a <= |order|
    ensures j <= n
  {
    if a == 0 then (if order == [] then 0 else order[0])
    else Next(order[..a], n, window, Waits(order, n, window, a - 1), order[a - 1])
  }

  /** What comes out when `i` arrives while `j` is waited for: `i` alone if it is late; the stream
      from `j` on if it is `j`; the stream from the first taken index on if the window overruns. */
  ghost function Emits(s: seq<Segment>, taken: seq<nat>, window: nat, j: nat, i: nat): seq<Segment>
    requires j <= |s| && i < |s|
  {
    if i < j then [s[i]]
    else if i == j then s[j..FirstMissing(taken, |s|, j)]
    else if Overruns(taken, window, j, i) then
      var k := FirstTaken(taken, |s|, j);
      s[k..FirstMissing(taken, |s|, k)]
    else []
  }

  /** Everything that comes out of the first `a` arrivals. */
  ghost function Output(s: seq<Segment>, order: seq<nat>, window: nat, a: nat): seq<Segment>
    requires InBounds(order, |s|) && a <= |order|
  {
    if a == 0 then []
    else
      Output(s, order, window, a - 1) +
      Emits(s, order[..a], window, Waits(order, |s|, window, a - 1), order[a - 1])
  }

  /** The same without the late ones. */
  ghost function Delivered(s: seq<Segment>, order: seq<nat>, window: nat, a: nat): seq<Segment>
    requires InBounds(order, |s|) && a <= |order|
  {
    if a == 0 then []
    else
      var j, i := Waits(order, |s|, window, a - 1), order[a - 1];
      Delivered(s, order, window, a - 1) + if i < j then [] else Emits(s, order[..a], window, j, i)
  }

  // ---------------------------------------------------------------- one arrival

  ghost function StartAt(s: seq<Segment>, i: nat): int {
    if i < |s| then s[i].start else 0
  }

  ghost function IndexOf(s: seq<Segment>, p: int): nat {
    if i: nat :| i < |s| && s[i].start == p then i else 0
  }

  lemma IndexOfStart(s: seq<Segment>, i: nat)
    requires Stream(s) && i < |s|
    ensures IndexOf(s, s[i].start) == i
  {
    var h := IndexOf(s, s[i].start);
    if h < i { PosIncreases(s, h, i); } else if i < h { PosIncreases(s, i, h); }
  }

  /** As many segments are held as indices have been taken beyond the one waited for. */
  lemma HeldCount(s: seq<Segment>, taken: seq<nat>, j: nat, f: Flow)
    requires Stream(s) && WaitsAt(s, taken, j, f) && InBounds(taken, |s|)
    ensures |f.buf| == |Beyond(taken, j)|
  {
    forall k | k in f.buf.Keys ensures IndexOf(s, k) in Beyond(taken, j) && StartAt(s, IndexOf(s, k)) == k {
      var i := HeldIndex(s, taken, j, f.buf, k);
      IndexOfStart(s, i);
    }
    forall i | i in Beyond(taken, j) ensures StartAt(s, i) in f.buf.Keys && IndexOf(s, StartAt(s, i)) == i {
      IndexOfStart(s, i);
    }
    MatchedSize(f.buf.Keys, Beyond(taken, j), k => IndexOf(s, k), i => StartAt(s, i));
    assert |f.buf| == |f.buf.Keys|;
  }

  lemma BeyondMore(taken: seq<nat>, j: nat, i: nat)
    ensures Beyond(taken + [i], j) == if i > j then Beyond(taken, j) + {i} else Beyond(taken, j)
  {
  }

  lemma BeyondFewer(taken: seq<nat>, j: nat, j': nat)
    requires j <= j'
    ensures |Beyond(taken, j')| <= |Beyond(taken, j)|
    ensures (exists k :: k in taken && j < k <= j') ==> |Beyond(taken, j')| < |Beyond(taken, j)|
  {
    SubsetSize(Beyond(taken, j'), Beyond(taken, j));
    if k :| k in taken && j < k <= j' {
      assert k in Beyond(taken, j) && k !in Beyond(taken, j');
    }
  }

  /** What an arrival must leave behind. */
  ghost predicate Leaves(s: seq<Segment>, taken: seq<nat>, window: nat, j: nat, r: Outcome)
    requires Stream(s)
  {
    r.flow.Some? && WaitsAt(s, taken, j, r.flow.value) && |Beyond(taken, j)| <= window
  }

  lemma HoldsLess(s: seq<Segment>, taken: seq<nat>, j: nat, i: nat, buf: Held)
    requires Holds(s, taken, j, buf) && i < j
    ensures Holds(s, taken + [i], j, buf)
  {
    forall k | k in buf ensures exists h :: j <= h < |s| && h in taken + [i] && s[h].start == k {
      var h :| j <= h < |s| && h in taken && s[h].start == k;
      assert h in taken + [i];
    }
  }

  lemma LateArrival(cfg: Config, s: seq<Segment>, taken: seq<nat>, j: nat, i: nat, o: Option<Flow>, now: int)
    requires Stream(s) && i < j <= |s| && WaitsAt(s, taken, j, Primed(o, s[i], now)) && |Beyond(taken, j)| <= cfg.window
    ensures var r := Arrive(Unbounded, cfg, o, s[i], now);
      r.passed == [s[i]] && r.delivered == [] && Leaves(s, taken + [i], cfg.window, j, r)
  {
    hide Hold, Deliver;
    var f := Primed(o, s[i], now);
    PosIncreases(s, i, j);
    BeyondMore(taken, j, i);
    HoldsLess(s, taken, j, i, f.buf);
    hide Holds, Beyond;
  }

  lemma NextArrival(cfg: Config, s: seq<Segment>, taken: seq<nat>, j: nat, o: Option<Flow>, now: int)
    requires Stream(s) && j < |s| && InBounds(taken, |s|)
    requires WaitsAt(s, taken, j, Primed(o, s[j], now)) && |Beyond(taken, j)| <= cfg.window
    ensures var r := Arrive(Unbounded, cfg, o, s[j], now);
      var j' := FirstMissing(taken + [j], |s|, j);
      r.passed == [] && r.delivered == s[j..j'] && Leaves(s, taken + [j], cfg.window, j', r)
  {
    hide Holds, Beyond, FirstMissing, Stream, Pos, Drain, Hold;
    var f, taken' := Primed(o, s[j], now), taken + [j];
    assert InBounds(taken', |s|);
    hide InBounds;
    MissingAfter(taken', |s|, j);
    HoldsNext(s, taken, j, f.buf);
    NextStart(s, j);
    IndexPos(s, j);
    var j' := FirstMissing(taken', |s|, j);
    BeyondMore(taken, j, j);
    BeyondFewer(taken', j, j');
    DrainStream(s, taken', j + 1, f.(next := s[j].end));
    assert s[j..j'] == [s[j]] + s[j + 1..j'];
  }

  /** The nearest held segment is that of the first taken index. */
  lemma NearestIsFirst(s: seq<Segment>, taken: seq<nat>, j: nat, f: Flow) returns (k: nat)
    requires Stream(s) && j < |s| && WaitsAt(s, taken, j, f) && f.buf != map[]
    ensures k == FirstTaken(taken, |s|, j) && j < k < |s| && k in taken
    ensures Future(Unbounded, f) == f.buf && s[k].start in f.buf && f.buf[s[k].start] == s[k]
    ensures Nearest(Unbounded, f.next, f.buf.Keys) == s[k].start && forall p :: p in f.buf ==> s[k].start <= p
  {
    HeldBeyond(s, taken, j, f);
    var p := Nearest(Unbounded, f.next, f.buf.Keys);
    assert p in f.buf;
    k := HeldIndex(s, taken, j, f.buf, p);
    forall q | q in f.buf ensures p <= q { assert Gap(Unbounded, p, f.next) <= Gap(Unbounded, q, f.next); }
    forall i | j <= i < |s| && i in taken ensures s[k].start <= s[i].start { assert s[i].start in f.buf; }
    forall i | j <= i < k ensures i !in taken { PosIncreases(s, i, k); }
    FirstTakenIs(taken, |s|, j, k);
  }

  lemma FirstTakenIs(taken: seq<nat>, n: nat, from: nat, k: nat)
    requires from <= k < n && k in taken && forall i :: from <= i < k ==> i !in taken
    ensures FirstTaken(taken, n, from) == k
  {
  }

  lemma MissingAfter(taken: seq<nat>, n: nat, k: nat)
    requires k < n && k in taken && InBounds(taken, n)
    ensures var j := FirstMissing(taken, n, k); j == FirstMissing(taken, n, k + 1) && k < j && j !in taken
  {
  }

  /** An overflow, exactly: it emits the stream from the first taken index up to the next missing
      one, holds everything taken beyond that, and waits there. */
  lemma OverflowExactly(s: seq<Segment>, taken: seq<nat>, j: nat, f: Flow)
    requires Stream(s) && j < |s| && InBounds(taken, |s|) && WaitsAt(s, taken, j, f) && f.buf != map[]
    ensures var k := FirstTaken(taken, |s|, j);
      var j' := FirstMissing(taken, |s|, k);
      var a := SkipGap(Unbounded, f).adv;
      a.out == s[k..j'] && WaitsAt(s, taken, j', a.flow) && a.swept == map[] && j < k < j'
  {
    hide Holds, FirstMissing, FirstTaken, Stream, Pos, Nearest, Future, Drain, SkipGap, InBounds;
    var k := NearestIsFirst(s, taken, j, f);
    MissingAfter(taken, |s|, k);
    NearestFirst(s, taken, j, k, f.buf);
    hide WaitsAt;
    SkipTo(f, s[k]);
    DrainFrom(s, taken, k, f.(next := s[k].end, buf := f.buf - {s[k].start}));
  }

  /** Draining behind an emitted segment `k`. */
  lemma DrainFrom(s: seq<Segment>, taken: seq<nat>, k: nat, g: Flow)
    requires Stream(s) && k < |s| && g.next == s[k].end && Holds(s, taken, k + 1, g.buf)
    requires var j' := FirstMissing(taken, |s|, k); j' == FirstMissing(taken, |s|, k + 1) && k < j' && j' !in taken
    ensures var j' := FirstMissing(taken, |s|, k);
      [s[k]] + Drain(g).out == s[k..j'] && WaitsAt(s, taken, j', Drain(g).flow)
  {
    hide Holds, FirstMissing, Stream, Pos, Drain;
    var j' := FirstMissing(taken, |s|, k);
    NextStart(s, k);
    DrainStream(s, taken, k + 1, g);
    assert s[k..j'] == [s[k]] + s[k + 1..j'];
  }

  lemma SkipTo(f: Flow, x: Segment)
    requires Future(Unbounded, f) == f.buf && x.start in f.buf && f.buf[x.start] == x
    requires Nearest(Unbounded, f.next, f.buf.Keys) == x.start
    ensures var a, d := SkipGap(Unbounded, f).adv, Drain(f.(next := x.end, buf := f.buf - {x.start}));
      a.flow == d.flow && a.out == [x] + d.out && a.swept == map[]
  {
    hide Drain, Future, Nearest;
    assert f.buf - f.buf.Keys == map[];
  }

  lemma HoldCases(cfg: Config, f: Flow, x: Segment)
    ensures var r, g := Hold(Unbounded, cfg, f, x), SetAside(f, x);
      && r.passed == [] && r.flow.Some?
      && if |g.buf| > cfg.window then
           r.delivered == SkipGap(Unbounded, g).adv.out && r.flow.value == SkipGap(Unbounded, g).adv.flow
         else r.delivered == [] && r.flow.value == g
  {
    hide SkipGap, SetAside;
  }

  lemma EarlyArrival(cfg: Config, s: seq<Segment>, taken: seq<nat>, j: nat, i: nat, o: Option<Flow>, now: int)
    requires Stream(s) && j < i < |s| && InBounds(taken, |s|)
    requires WaitsAt(s, taken, j, Primed(o, s[i], now)) && |Beyond(taken, j)| <= cfg.window
    ensures var r := Arrive(Unbounded, cfg, o, s[i], now);
      var taken' := taken + [i];
      && r.passed == [] && r.delivered == Emits(s, taken', cfg.window, j, i)
      && Leaves(s, taken', cfg.window, Next(taken', |s|, cfg.window, j, i), r)
  {
    var f, taken' := Primed(o, s[i], now), taken + [i];
    var g := SetAside(f, s[i]);
    hide SetAside, SkipGap, Stream, Primed, FirstMissing, FirstTaken, Beyond, Pos, Holds;
    assert f.next == Pos(s, j) && j !in taken && InBounds(taken', |s|);
    hide WaitsAt, InBounds, Hold, Deliver;
    HoldCases(cfg, f, s[i]);
    AsideWaits(s, taken, j, i, f);
    PosIncreases(s, j, i);
    IndexPos(s, i);
    HeldCount(s, taken', j, g);
    if |g.buf| > cfg.window {
      OverflowExactly(s, taken', j, g);
      OverflowLeavesRoom(taken, |s|, cfg.window, j, i);
    }
  }

  /** After an overflow no more than the window is held. */
  lemma OverflowLeavesRoom(taken: seq<nat>, n: nat, window: nat, j: nat, i: nat)
    requires j < i < n && j !in taken && |Beyond(taken, j)| <= window
    ensures var taken' := taken + [i];
      |Beyond(taken', FirstMissing(taken', n, FirstTaken(taken', n, j)))| <= window
  {
    var taken' := taken + [i];
    var k := FirstTaken(taken', n, j);
    BeyondMore(taken, j, i);
    assert i in taken' && k <= i && k in taken' && j < k;
    assert |Beyond(taken', j)| <= window + 1;
    BeyondFewer(taken', j, FirstMissing(taken', n, k));
  }

  /** One arrival of any segment of the stream does what the reference says. */
  lemma ArriveOnIndices(cfg: Config, s: seq<Segment>, taken: seq<nat>, j: nat, i: nat, o: Option<Flow>, now: int)
    requires Stream(s) && i < |s| && InBounds(taken, |s|)
    requires WaitsAt(s, taken, j, Primed(o, s[i], now)) && |Beyond(taken, j)| <= cfg.window
    ensures var r := Arrive(Unbounded, cfg, o, s[i], now);
      var taken' := taken + [i];
      && r.passed + r.delivered == Emits(s, taken', cfg.window, j, i) && (r.delivered == if i < j then [] else Emits(s, taken', cfg.window, j, i))
      && Leaves(s, taken', cfg.window, Next(taken', |s|, cfg.window, j, i), r)
  {
    hide Arrive, Leaves, FirstMissing, FirstTaken, Beyond, Stream;
    if i < j {
      LateArrival(cfg, s, taken, j, i, o, now);
    } else if i == j {
      NextArrival(cfg, s, taken, j, o, now);
    } else {
      EarlyArrival(cfg, s, taken, j, i, o, now);
    }
  }

  // ---------------------------------------------------------------- whole histories

  /** The history pushes segments of the stream as `order` says. */
  ghost predicate Follows(s: seq<Segment>, order: seq<nat>, es: seq<FlowEvent>) {
    var xs := Arrivals(es);
    InBounds(order, |s|) && |xs| <= |order| && forall b :: 0 <= b < |xs| ==> xs[b] == s[order[b]]
  }

  lemma FollowsInit(s: seq<Segment>, order: seq<nat>, es: seq<FlowEvent>)
    requires es != [] && Follows(s, order, es)
    ensures var init, e := es[..|es| - 1], es[|es| - 1];
      var a := |Arrivals(init)|;
      && Follows(s, order, init)
      && (if e.Arrival? then |Arrivals(es)| == a + 1 && order[a] < |s| && e.seg == s[order[a]] else |Arrivals(es)| == a)
  {
    var init := es[..|es| - 1];
    forall b | 0 <= b < |Arrivals(init)| ensures Arrivals(init)[b] == s[order[b]] {
      assert Arrivals(es)[b] == Arrivals(init)[b];
    }
    if es[|es| - 1].Arrival? { assert Arrivals(es)[|Arrivals(init)|] == es[|es| - 1].seg; }
  }

  /** The flow is where the reference is after `a` arrivals. */
  ghost predicate OnIndices(cfg: Config, s: seq<Segment>, order: seq<nat>, a: nat, l: Ledger)
    requires Stream(s) && InBounds(order, |s|) && a <= |order|
  {
    && l.out == Output(s, order, cfg.window, a)
    && if a == 0 then l.flow.None? && l.epochs == []
       else
         && l.flow.Some? && l.epochs == [Delivered(s, order, cfg.window, a)]
         && WaitsAt(s, order[..a], Waits(order, |s|, cfg.window, a), l.flow.value)
         && |Beyond(order[..a], Waits(order, |s|, cfg.window, a))| <= cfg.window
  }

  lemma PrimedOnIndices(cfg: Config, s: seq<Segment>, order: seq<nat>, a: nat, l: Ledger, now: int)
    requires Stream(s) && InBounds(order, |s|) && a < |order| && OnIndices(cfg, s, order, a, l)
    ensures var j := Waits(order, |s|, cfg.window, a);
      WaitsAt(s, order[..a], j, Primed(l.flow, s[order[a]], now)) && |Beyond(order[..a], j)| <= cfg.window
  {
    if a == 0 {
      assert order[..0] == [];
      assert Beyond([], order[0]) == {};
    }
  }

  lemma RecordOnIndices(cfg: Config, s: seq<Segment>, order: seq<nat>, a: nat, l: Ledger, now: int)
    requires Stream(s) && InBounds(order, |s|) && a < |order| && OnIndices(cfg, s, order, a, l)
    ensures var e := Arrival(s[order[a]], now);
      OnIndices(cfg, s, order, a + 1, Record(l, e, React(Unbounded, cfg, l.flow, e)))
  {
    hide Emits, Next, Arrive, WaitsAt, Beyond, Stream, Output, Delivered, Waits, Extend;
    var e, taken, j, i := Arrival(s[order[a]], now), order[..a], Waits(order, |s|, cfg.window, a), order[a];
    PrimedOnIndices(cfg, s, order, a, l, now);
    assert order[..a + 1] == taken + [i];
    ReferenceMore(s, order, cfg.window, a);
    ArriveOnIndices(cfg, s, taken, j, i, l.flow, now);
    var r := React(Unbounded, cfg, l.flow, e);
    assert l.out + r.passed + r.delivered == l.out + (r.passed + r.delivered);
    ExtendOnly(l.epochs, r.delivered);
  }

  lemma ReferenceMore(s: seq<Segment>, order: seq<nat>, window: nat, a: nat)
    requires InBounds(order, |s|) && a < |order|
    ensures var j, i, taken := Waits(order, |s|, window, a), order[a], order[..a + 1];
      && Waits(order, |s|, window, a + 1) == Next(taken, |s|, window, j, i)
      && Output(s, order, window, a + 1) == Output(s, order, window, a) + Emits(s, taken, window, j, i)
      && Delivered(s, order, window, a + 1)
         == Delivered(s, order, window, a) + (if i < j then [] else Emits(s, taken, window, j, i))
      && Delivered(s, order, window, 0) == []
  {
    hide Emits, Next;
  }

  lemma ExtendOnly(gs: seq<seq<Segment>>, more: seq<Segment>)
    ensures gs == [] ==> Extend(gs, true, more) == [[] + more]
    ensures |gs| == 1 ==> Extend(gs, false, more) == [gs[0] + more]
    ensures Extend(gs, false, []) == gs
  {
    assert [] + more == more;
    if gs != [] { assert gs[|gs| - 1] + [] == gs[|gs| - 1]; }
  }

  /** A flush that does not find the flow idle leaves the deliveries alone as well. */
  lemma QuietOnIndices(cfg: Config, s: seq<Segment>, order: seq<nat>, es: seq<FlowEvent>)
    requires Stream(s) && Follows(s, order, es) && es != [] && Quiet(cfg, es) && es[|es| - 1].Flush?
    requires |Arrivals(es[..|es| - 1])| <= |order|
    ensures OnIndices(cfg, s, order, |Arrivals(es[..|es| - 1])|, Run(Unbounded, cfg, es[..|es| - 1]))
      ==> OnIndices(cfg, s, order, |Arrivals(es[..|es| - 1])|, Run(Unbounded, cfg, es))
  {
    QuietFlush(Unbounded, cfg, es);
    LastSeenIsLastArrival(Unbounded, cfg, es[..|es| - 1]);
    var l := Run(Unbounded, cfg, es[..|es| - 1]);
    var r := React(Unbounded, cfg, l.flow, es[|es| - 1]);
    hide Output, Delivered, Waits, WaitsAt, Beyond, FlushAll, Stream, Follows;
    assert r.delivered == [];
    ExtendOnly(l.epochs, []);
  }

  /** Whatever order the segments of a stream arrive in and however often the window overflows, an
      unbounded flow that is never found idle emits exactly what the reference says, waits where
      it says, and holds everything taken beyond. */
  lemma {:induction false} RunOnIndices(cfg: Config, s: seq<Segment>, order: seq<nat>, es: seq<FlowEvent>)
    requires Stream(s) && Follows(s, order, es) && Quiet(cfg, es)
    ensures OnIndices(cfg, s, order, |Arrivals(es)|, Run(Unbounded, cfg, es))
  {
    hide OnIndices, React, Record, Follows, InBounds, Stream;
    if es == [] {
      NothingOnIndices(cfg, s, order);
    } else {
      var init, e := es[..|es| - 1], es[|es| - 1];
      FollowsInit(s, order, es);
      FollowsBounds(s, order, init);
      FollowsBounds(s, order, es);
      RunOnIndices(cfg, s, order, init);
      if e.Flush? {
        QuietOnIndices(cfg, s, order, es);
      } else {
        RecordOnIndices(cfg, s, order, |Arrivals(init)|, Run(Unbounded, cfg, init), e.now);
      }
    }
  }

  lemma FollowsBounds(s: seq<Segment>, order: seq<nat>, es: seq<FlowEvent>)
    requires Follows(s, order, es)
    ensures InBounds(order, |s|) && |Arrivals(es)| <= |order|
  {
  }

  lemma NothingOnIndices(cfg: Config, s: seq<Segment>, order: seq<nat>)
    requires Stream(s) && Follows(s, order, [])
    ensures InBounds(order, |s|) && OnIndices(cfg, s, order, 0, Run(Unbounded, cfg, []))
  {
  }

  // ---------------------------------------------------------------- order after an overflow

  /** No arrival from number `a` up to `b` overruns the window. */
  ghost predicate Calm(order: seq<nat>, n: nat, window: nat, a: nat, b: nat)
    requires InBounds(order, n) && b <= |order|
  {
    forall c :: a <= c < b ==> !Overruns(order[..c + 1], window, Waits(order, n, window, c), order[c])
  }

  lemma WaitsMissing(order: seq<nat>, n: nat, window: nat, a: nat)
    requires InBounds(order, n) && a <= |order|
    ensures Waits(order, n, window, a) !in order[..a]
  {
    if a > 0 {
      var j := Waits(order, n, window, a - 1);
      WaitsMissing(order, n, window, a - 1);
      assert order[..a] == order[..a - 1] + [order[a - 1]];
    }
  }

  /** From arrival `a` to arrival `b` the deliveries are the stream without a gap, up to the first
      missing segment. */
  ghost predicate Continues(s: seq<Segment>, order: seq<nat>, window: nat, a: nat, b: nat)
    requires InBounds(order, |s|) && a <= |order| && b <= |order|
  {
    var j, j' := Waits(order, |s|, window, a), Waits(order, |s|, window, b);
    j' == FirstMissing(order[..b], |s|, j) && Delivered(s, order, window, b) == Delivered(s, order, window, a) + s[j..j']
  }

  /** However often the window has overflowed before, while it does not overflow again the deliveries
      are the stream without a gap, up to the first missing segment. */
  lemma {:induction false} CalmInOrder(s: seq<Segment>, order: seq<nat>, window: nat, a: nat, b: nat)
    requires InBounds(order, |s|) && a <= b <= |order| && Calm(order, |s|, window, a, b)
    ensures Continues(s, order, window, a, b)
    decreases b
  {
    hide Continues, Calm, Waits, Overruns, InBounds;
    if a == b {
      ContinuesNothing(s, order, window, a);
    } else {
      CalmLess(order, |s|, window, a, b);
      CalmInOrder(s, order, window, a, b - 1);
      ContinuesMore(s, order, window, a, b - 1);
    }
  }

  lemma ContinuesNothing(s: seq<Segment>, order: seq<nat>, window: nat, a: nat)
    requires InBounds(order, |s|) && a <= |order|
    ensures Continues(s, order, window, a, a)
  {
    hide Delivered, Waits;
    var j := Waits(order, |s|, window, a);
    WaitsMissing(order, |s|, window, a);
    FirstMissingIs(order[..a], |s|, j, j);
    assert s[j..j] == [];
  }

  lemma ContinuesMore(s: seq<Segment>, order: seq<nat>, window: nat, a: nat, c: nat)
    requires InBounds(order, |s|) && a <= c < |order| && Continues(s, order, window, a, c)
    requires !Overruns(order[..c + 1], window, Waits(order, |s|, window, c), order[c])
    ensures Continues(s, order, window, a, c + 1)
  {
    hide Delivered, Waits, Overruns, FirstMissing, InBounds;
    var j := Waits(order, |s|, window, a);
    CalmStep(s, order, window, j, c);
    Glue(Delivered(s, order, window, a), s, j, Waits(order, |s|, window, c), Waits(order, |s|, window, c + 1));
  }

  lemma Glue(xs: seq<Segment>, s: seq<Segment>, j: nat, m: nat, j': nat)
    requires j <= m <= j' <= |s|
    ensures xs + s[j..m] + s[m..j'] == xs + s[j..j']
  {
    assert s[j..m] + s[m..j'] == s[j..j'];
  }

  lemma CalmLess(order: seq<nat>, n: nat, window: nat, a: nat, b: nat)
    requires InBounds(order, n) && a < b <= |order| && Calm(order, n, window, a, b)
    ensures Calm(order, n, window, a, b - 1)
    ensures !Overruns(order[..b], window, Waits(order, n, window, b - 1), order[b - 1])
  {
    hide Waits, Overruns;
    var c := b - 1;
    assert order[..c + 1] == order[..b];
    assert order[c] == order[b - 1];
  }

  lemma CalmStep(s: seq<Segment>, order: seq<nat>, window: nat, j: nat, c: nat)
    requires InBounds(order, |s|) && c < |order| && j <= |s|
    requires var m := Waits(order, |s|, window, c);
      m == FirstMissing(order[..c], |s|, j) && !Overruns(order[..c + 1], window, m, order[c])
    ensures var m, m' := Waits(order, |s|, window, c), Waits(order, |s|, window, c + 1);
      && m' == FirstMissing(order[..c + 1], |s|, j) && m <= m'
      && Delivered(s, order, window, c + 1) == Delivered(s, order, window, c) + s[m..m']
  {
    var m, m' := Waits(order, |s|, window, c), Waits(order, |s|, window, c + 1);
    WaitsMissing(order, |s|, window, c + 1);
    assert order[..c + 1] == order[..c] + [order[c]];
    ReferenceMore(s, order, window, c);
    hide Overruns, Waits, Delivered;
    var taken := order[..c + 1];
    forall i | j <= i < m' ensures i in taken {
      if i < m { assert i in order[..c]; }
    }
    FirstMissingIs(taken, |s|, j, m');
    assert s[m..m] == [];
  }

  /** A stream of which the window has overflowed, but not again: once every segment from there on has
      arrived, all of them have come out in order behind what came before, and nothing is held. */
  lemma RestoredAfterOverflow(cfg: Config, s: seq<Segment>, order: seq<nat>, es: seq<FlowEvent>, a: nat)
    requires Stream(s) && Follows(s, order, es) && Quiet(cfg, es) && |Arrivals(es)| == |order| && 0 < a <= |order|
    requires Calm(order, |s|, cfg.window, a, |order|)
    requires forall i :: Waits(order, |s|, cfg.window, a) <= i < |s| ==> i in order
    ensures var l, j := Run(Unbounded, cfg, es), Waits(order, |s|, cfg.window, a);
      && l.epochs == [Delivered(s, order, cfg.window, a) + s[j..]]
      && l.flow.Some? && l.flow.value.buf == map[] && l.flow.value.next == s[|s| - 1].end
  {
    hide Run, Follows, Quiet, Arrivals, Delivered, Waits, Calm;
    assert order[..|order|] == order;
    FollowsBounds(s, order, es);
    RunOnIndices(cfg, s, order, es);
    CalmInOrder(s, order, cfg.window, a, |order|);
    var j, l := Waits(order, |s|, cfg.window, a), Run(Unbounded, cfg, es);
    FirstMissingIs(order, |s|, j, |s|);
    assert s[j..|s|] == s[j..];
    var f := l.flow.value;
    assert f.buf == map[] by { assert forall k :: k !in f.buf; }
  }

  /** One arrival delivers at most as many segments as waiting moves on, and fewer exactly when the
      window overruns. */
  lemma StepLength(s: seq<Segment>, order: seq<nat>, window: nat, c: nat)
    requires InBounds(order, |s|) && c < |order|
    ensures var m, m' := Waits(order, |s|, window, c), Waits(order, |s|, window, c + 1);
      var n := |Delivered(s, order, window, c + 1)| - |Delivered(s, order, window, c)|;
      n <= m' - m && (Overruns(order[..c + 1], window, m, order[c]) ==> n < m' - m)
  {
    var m, i, taken := Waits(order, |s|, window, c), order[c], order[..c + 1];
    ReferenceMore(s, order, window, c);
    hide Delivered, Waits;
    if Overruns(taken, window, m, i) {
      WaitsMissing(order, |s|, window, c);
      assert taken == order[..c] + [i];
      assert m !in taken && i in taken;
      var k := FirstTaken(taken, |s|, m);
      assert m < k;
      hide Overruns;
    }
  }

  lemma {:induction false} RunLength(s: seq<Segment>, order: seq<nat>, window: nat, a: nat, b: nat)
    requires InBounds(order, |s|) && a <= b <= |order|
    ensures var n := |Delivered(s, order, window, b)| - |Delivered(s, order, window, a)|;
      var d := Waits(order, |s|, window, b) - Waits(order, |s|, window, a);
      n <= d && (!Calm(order, |s|, window, a, b) ==> n < d)
    decreases b
  {
    hide Delivered, Waits, Overruns;
    if a < b {
      RunLength(s, order, window, a, b - 1);
      StepLength(s, order, window, b - 1);
    }
  }

  /** The deliveries continue the stream without a gap if and only if the window does not overflow
      again. */
  lemma CalmExactly(s: seq<Segment>, order: seq<nat>, window: nat, a: nat, b: nat)
    requires InBounds(order, |s|) && a <= b <= |order|
    ensures var j, j' := Waits(order, |s|, window, a), Waits(order, |s|, window, b);
      && j <= j'
      && (Delivered(s, order, window, b) == Delivered(s, order, window, a) + s[j..j']
          <==> Calm(order, |s|, window, a, b))
  {
    hide Delivered, Waits, Calm;
    WaitsGrow(order, |s|, window, a, b);
    RunLength(s, order, window, a, b);
    if Calm(order, |s|, window, a, b) { CalmInOrder(s, order, window, a, b); }
  }

  lemma {:induction false} WaitsGrow(order: seq<nat>, n: nat, window: nat, a: nat, b: nat)
    requires InBounds(order, n) && a <= b <= |order|
    ensures Waits(order, n, window, a) <= Waits(order, n, window, b)
    decreases b
  {
    hide Next;
    if a < b { WaitsGrow(order, n, window, a, b - 1); }
  }

  // ---------------------------------------------------------------- the 32-bit flow

  /** Each arriving segment starts within 2^31 positions of the one waited for. */
  ghost predicate Comparable(s: seq<Segment>, order: seq<nat>, window: nat)
    requires Stream(s) && InBounds(order, |s|)
  {
    forall a :: 0 <= a < |order| ==> Reachable(s[order[a]].start - Pos(s, Waits(order, |s|, window, a)))
  }

  lemma HeldComparable(s: seq<Segment>, order: seq<nat>, window: nat, a: nat, f: Flow)
    requires Stream(s) && InBounds(order, |s|) && Comparable(s, order, window) && a <= |order|
    requires WaitsAt(s, order[..a], Waits(order, |s|, window, a), f)
    ensures HeldWithin(f.buf, f.next)
  {
    hide Waits, Stream, Pos, Holds, Comparable, InBounds;
    var j := Waits(order, |s|, window, a);
    forall k | k in f.buf ensures f.next <= k < f.next + 0x8000_0000 {
      var i := HeldIndex(s, order[..a], j, f.buf, k);
      var b :| 0 <= b < a && order[b] == i;
      EarlierComparable(s, order, window, b, a);
    }
  }

  lemma ComparableAt(s: seq<Segment>, order: seq<nat>, window: nat, b: nat)
    requires Stream(s) && InBounds(order, |s|) && Comparable(s, order, window) && b < |order|
    ensures Reachable(s[order[b]].start - Pos(s, Waits(order, |s|, window, b)))
  {
    hide Stream, Pos, Waits;
  }

  lemma EarlierComparable(s: seq<Segment>, order: seq<nat>, window: nat, b: nat, a: nat)
    requires Stream(s) && InBounds(order, |s|) && Comparable(s, order, window) && b < a <= |order|
    requires Waits(order, |s|, window, a) < order[b]
    ensures var d := s[order[b]].start - Pos(s, Waits(order, |s|, window, a)); 0 <= d < 0x8000_0000
  {
    hide Waits, Stream, Pos, Comparable;
    var i, h, j := order[b], Waits(order, |s|, window, b), Waits(order, |s|, window, a);
    ComparableAt(s, order, window, b);
    WaitsGrow(order, |s|, window, b, a);
    PosIncreases(s, j, i);
    if h < j { PosIncreases(s, h, j); }
    IndexPos(s, i);
  }

  lemma IndexPos(s: seq<Segment>, i: nat)
    requires Stream(s) && i < |s|
    ensures Pos(s, i) == s[i].start
  {
  }

  lemma {:induction false} NearOnIndices(cfg: Config, s: seq<Segment>, order: seq<nat>, es: seq<FlowEvent>)
    requires Stream(s) && Follows(s, order, es) && Quiet(cfg, es) && Comparable(s, order, cfg.window)
    ensures RunNear(cfg, es)
  {
    hide ReactNear, OnIndices, Comparable, Follows, InBounds, Stream;
    if es != [] {
      var init, e := es[..|es| - 1], es[|es| - 1];
      FollowsInit(s, order, es);
      FollowsBounds(s, order, init);
      FollowsBounds(s, order, es);
      NearOnIndices(cfg, s, order, init);
      if e.Flush? {
        QuietNear(cfg, es);
      } else {
        RunOnIndices(cfg, s, order, init);
        ArrivalComparable(cfg, s, order, |Arrivals(init)|, Run(Unbounded, cfg, init), e.now);
      }
    }
  }

  lemma ArrivalComparable(cfg: Config, s: seq<Segment>, order: seq<nat>, a: nat, l: Ledger, now: int)
    requires Stream(s) && InBounds(order, |s|) && Comparable(s, order, cfg.window)
    requires a < |order| && OnIndices(cfg, s, order, a, l)
    ensures ReactNear(cfg, l.flow, Arrival(s[order[a]], now))
  {
    var j, f := Waits(order, |s|, cfg.window, a), Primed(l.flow, s[order[a]], now);
    PrimedOnIndices(cfg, s, order, a, l, now);
    hide Waits, ReactNear, Stream, OnIndices, Holds, Pos, Primed;
    HeldComparable(s, order, cfg.window, a, f);
    assert f.next == Pos(s, j);
    WaitingNear(cfg, s, order[..a], j, order[a], l.flow, now);
  }

  /** The 32-bit flow does what the reference says as well, through any number of overflows. */
  lemma WrappedOnIndices(cfg: Config, s: seq<Segment>, order: seq<nat>, es: seq<FlowEvent>)
    requires Stream(s) && Follows(s, order, es) && Quiet(cfg, es) && Comparable(s, order, cfg.window)
    ensures var l, a := Run(Wrapping, cfg, WrapEvents(es)), |Arrivals(es)|;
      && l.out == WrapAll(Output(s, order, cfg.window, a))
      && (a > 0 ==> l.flow.Some? && l.epochs == [WrapAll(Delivered(s, order, cfg.window, a))])
  {
    FollowsBounds(s, order, es);
    hide Run, Follows, Quiet, Comparable, Output, Delivered, WaitsAt, Waits, Simulates, SimulatesBag, Arrivals, Stream, Beyond;
    NearOnIndices(cfg, s, order, es);
    RunOnIndices(cfg, s, order, es);
    RunSimulates(cfg, es);
  }

  /** And it restores order after an overflow, once everything from there on has arrived without
      another one. */
  lemma WrappedAfterOverflow(cfg: Config, s: seq<Segment>, order: seq<nat>, es: seq<FlowEvent>, a: nat)
    requires Stream(s) && Follows(s, order, es) && Quiet(cfg, es) && |Arrivals(es)| == |order| && 0 < a <= |order|
    requires Comparable(s, order, cfg.window) && Calm(order, |s|, cfg.window, a, |order|)
    requires forall i :: Waits(order, |s|, cfg.window, a) <= i < |s| ==> i in order
    ensures var l, j := Run(Wrapping, cfg, WrapEvents(es)), Waits(order, |s|, cfg.window, a);
      && l.epochs == [WrapAll(Delivered(s, order, cfg.window, a)) + WrapAll(s[j..])]
      && l.flow.Some? && l.flow.value.buf == map[]
  {
    hide Run, Follows, Quiet, Comparable, Delivered, Waits, Simulates, SimulatesBag, Arrivals, Stream, Calm;
    FollowsBounds(s, order, es);
    NearOnIndices(cfg, s, order, es);
    RestoredAfterOverflow(cfg, s, order, es, a);
    RunSimulates(cfg, es);
    var u, l := Run(Unbounded, cfg, es), Run(Wrapping, cfg, WrapEvents(es));
    EmptyBuffers(u.flow.value, l.flow.value);
    hide WrapSegment;
    var xs, ys := Delivered(s, order, cfg.window, a), s[Waits(order, |s|, cfg.window, a)..];
    assert WrapAll(xs + ys) == WrapAll(xs) + WrapAll(ys);
  }
}
