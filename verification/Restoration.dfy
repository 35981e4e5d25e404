/** Order restoration: a stream whose segments arrive in any order comes out in stream order,
    exactly when the window is never overrun. */
module Restoration {
  import opened Collections
  import opened Serial
  import opened FlowModel
  import opened FlowLaws
  import opened Refinement

  /** A stream cut into consecutive non-empty segments. */
  ghost predicate Stream(s: seq<Segment>) {
    && s != []
    && (forall i :: 0 <= i < |s| ==> s[i].start < s[i].end)
    && (forall i :: 0 < i < |s| ==> s[i].start == s[i - 1].end)
  }

  /** Where segment `j` of the stream starts; the end of the stream for `j == |s|`. */
  ghost function Pos(s: seq<Segment>, j: nat): int
    requires s != [] && j <= |s|
  {
    if j < |s| then s[j].start else s[|s| - 1].end
  }

  lemma {:induction false} PosIncreases(s: seq<Segment>, i: nat, j: nat)
    requires Stream(s) && i < j <= |s|
    ensures s[i].end <= Pos(s, j) && Pos(s, i) < Pos(s, j)
    decreases j
  {
    if i + 1 < j {
      PosIncreases(s, i, j - 1);
      assert s[j - 1].start < s[j - 1].end;
      assert j < |s| ==> s[j].start == s[j - 1].end;
    }
  }

  /** Every segment arrives once. */
  ghost predicate Permutation(order: seq<nat>, n: nat) {
    && |order| == n
    && (forall i :: 0 <= i < |order| ==> order[i] < n)
    && (forall i, j :: 0 <= i < j < |order| ==> order[i] != order[j])
    && (forall i :: 0 <= i < n ==> i in order)
  }

  /** The first segment of the stream arrives first. */
  ghost predicate Led(order: seq<nat>) {
    order != [] && order[0] == 0
  }

  /** The first segment at or after `from` that is not among those taken. */
  function FirstMissing(taken: seq<nat>, n: nat, from: nat): (j: nat)
    requires from <= n
    ensures from <= j <= n
    ensures forall i :: from <= i < j ==> i in taken
    ensures j < n ==> j !in taken
    decreases n - from
  {
    if from < n && from in taken then FirstMissing(taken, n, from + 1) else from
  }

  lemma FirstMissingIs(taken: seq<nat>, n: nat, from: nat, j: nat)
    requires from <= j <= n && (forall i :: from <= i < j ==> i in taken) && (j < n ==> j !in taken)
    ensures FirstMissing(taken, n, from) == j
  {
  }

  /** Number of segments arrived beyond the first missing one, after `a` arrivals. */
  ghost function Early(order: seq<nat>, a: nat): int
    requires a <= |order|
  {
    a - FirstMissing(order[..a], |order|, 0)
  }

  /** At most `window` segments are ever early during the first `a` arrivals. */
  ghost predicate WithinWindow(order: seq<nat>, a: nat, window: nat)
    requires a <= |order|
  {
    forall b :: 0 <= b <= a ==> Early(order, b) <= window
  }

  /** Each arriving segment starts less than 2^31 positions after the first missing byte. */
  ghost predicate WithinReach(s: seq<Segment>, order: seq<nat>)
    requires Stream(s) && Permutation(order, |s|)
  {
    forall a :: 0 <= a < |order| ==>
      s[order[a]].start - Pos(s, FirstMissing(order[..a], |s|, 0)) < 0x8000_0000
  }

  /** The buffer holds exactly the taken segments from `j` on. */
  ghost predicate Holds(s: seq<Segment>, taken: seq<nat>, j: nat, buf: Held) {
    && (forall i :: j <= i < |s| && i in taken ==> s[i].start in buf && buf[s[i].start] == s[i])
    && (forall k :: k in buf ==> exists i :: j <= i < |s| && i in taken && s[i].start == k)
  }

  lemma NextHeld(s: seq<Segment>, taken: seq<nat>, j: nat, buf: Held)
    requires Stream(s) && j <= |s| && Holds(s, taken, j, buf)
    ensures Pos(s, j) in buf <==> j < |s| && j in taken
  {
    if Pos(s, j) in buf {
      var i :| j <= i < |s| && i in taken && s[i].start == Pos(s, j);
      PosIncreases(s, i, |s|);
      if j < i { PosIncreases(s, j, i); }
    }
  }

  lemma HoldsWithout(s: seq<Segment>, taken: seq<nat>, j: nat, buf: Held)
    requires Stream(s) && j < |s| && j in taken && Holds(s, taken, j, buf)
    ensures Holds(s, taken, j + 1, buf - {s[j].start})
  {
    var rest := buf - {s[j].start};
    forall i | j + 1 <= i < |s| && i in taken ensures s[i].start in rest { PosIncreases(s, j, i); }
  }

  /** Draining from segment `j` emits the stream up to the next missing segment. */
  lemma {:induction false} DrainStream(s: seq<Segment>, taken: seq<nat>, j: nat, f: Flow)
    requires Stream(s) && j <= |s| && f.next == Pos(s, j) && Holds(s, taken, j, f.buf)
    ensures var j' := FirstMissing(taken, |s|, j);
      var a := Drain(f);
      && a.out == s[j..j'] && a.flow.next == Pos(s, j') && Holds(s, taken, j', a.flow.buf)
      && |a.flow.buf| == |f.buf| - (j' - j)
    decreases |s| - j
  {
    hide Holds, Stream, Pos;
    NextHeld(s, taken, j, f.buf);
    if f.next in f.buf {
      HeldFirst(s, taken, j, f.buf);
      HoldsWithout(s, taken, j, f.buf);
      NextStart(s, j);
      var g := f.(next := s[j].end, buf := f.buf - {f.next});
      DrainStream(s, taken, j + 1, g);
      RemoveSize(f.buf, f.next);
      var j' := FirstMissing(taken, |s|, j);
      assert s[j..j'] == [s[j]] + s[j + 1..j'];
    }
  }

  // ---------------------------------------------------------------- whole histories

  ghost function LastArrival(es: seq<FlowEvent>): Option<int> {
    if es == [] then None
    else if es[|es| - 1].Arrival? then Some(es[|es| - 1].now)
    else LastArrival(es[..|es| - 1])
  }

  /** No flush finds the flow idle. */
  ghost predicate Quiet(cfg: Config, es: seq<FlowEvent>) {
    es == [] ||
    (var init, e := es[..|es| - 1], es[|es| - 1];
     Quiet(cfg, init) && (e.Flush? && LastArrival(init).Some? ==> e.now - LastArrival(init).value < cfg.maxAge))
  }

  /** The history pushes the first `a` segments of the transfer, in the given order. */
  ghost predicate Pushes(s: seq<Segment>, order: seq<nat>, es: seq<FlowEvent>)
    requires Stream(s) && Permutation(order, |s|)
  {
    var xs := Arrivals(es);
    |xs| <= |s| && forall b :: 0 <= b < |xs| ==> xs[b] == s[order[b]]
  }

  /** The flow waits for the first segment not taken and holds every later taken one. */
  ghost predicate Waiting(s: seq<Segment>, taken: seq<nat>, f: Flow)
    requires Stream(s)
  {
    var j := FirstMissing(taken, |s|, 0);
    f.next == Pos(s, j) && Holds(s, taken, j, f.buf) && |f.buf| == |taken| - j
  }

  /** The state after `a` arrivals when the window has never been overrun: everything before the
      first missing segment is out, everything after it is held. */
  ghost predicate Restored(s: seq<Segment>, order: seq<nat>, a: nat, l: Ledger)
    requires Stream(s) && a <= |order|
  {
    var j := FirstMissing(order[..a], |s|, 0);
    && l.out == s[..j]
    && (l.flow.Some? <==> a > 0)
    && (a > 0 ==> Waiting(s, order[..a], l.flow.value))
  }

  lemma Untaken(s: seq<Segment>, order: seq<nat>, a: nat)
    requires Permutation(order, |s|) && a < |order|
    ensures order[a] !in order[..a] && FirstMissing(order[..a], |s|, 0) <= order[a]
    ensures order[..a + 1] == order[..a] + [order[a]]
  {
  }

  lemma HoldsNext(s: seq<Segment>, taken: seq<nat>, j: nat, buf: Held)
    requires j !in taken && Holds(s, taken, j, buf)
    ensures Holds(s, taken + [j], j + 1, buf)
  {
    forall k | k in buf ensures exists i :: j + 1 <= i < |s| && i in taken + [j] && s[i].start == k {
      var i :| j <= i < |s| && i in taken && s[i].start == k;
      assert i in taken + [j];
    }
  }

  lemma HoldsLater(s: seq<Segment>, taken: seq<nat>, j: nat, i: nat, buf: Held)
    requires Stream(s) && j <= i < |s| && i !in taken && Holds(s, taken, j, buf)
    ensures s[i].start !in buf && Holds(s, taken + [i], j, buf[s[i].start := s[i]])
  {
    forall h | j <= h < |s| && h != i ensures s[h].start != s[i].start {
      if h < i { PosIncreases(s, h, i); } else { PosIncreases(s, i, h); }
    }
    var g := buf[s[i].start := s[i]];
    forall k | k in g ensures exists h :: j <= h < |s| && h in taken + [i] && s[h].start == k {
      if k in buf {
        var h :| j <= h < |s| && h in taken && s[h].start == k;
        assert h in taken + [i];
      } else {
        assert i in taken + [i];
      }
    }
  }

  /** The next segment of the stream arrives: it is delivered with all its held successors. */
  lemma DeliverNext(s: seq<Segment>, taken: seq<nat>, f: Flow)
    requires Stream(s)
    requires Waiting(s, taken, f) && FirstMissing(taken, |s|, 0) < |s|
    ensures var j := FirstMissing(taken, |s|, 0);
      var taken' := taken + [j];
      var j' := FirstMissing(taken', |s|, 0);
      var r := Deliver(f, s[j]);
      j < j' && s[..j'] == s[..j] + r.delivered && Waiting(s, taken', r.flow.value)
  {
    hide FirstMissing, Holds, Drain;
    var j := FirstMissing(taken, |s|, 0);
    var taken' := taken + [j];
    HoldsNext(s, taken, j, f.buf);
    var g := f.(next := s[j].end);
    NextStart(s, j);
    hide Pos, Stream;
    DrainStream(s, taken', j + 1, g);
    var j' := FirstMissing(taken', |s|, j + 1);
    FirstMissingAfter(taken, |s|, j);
    SplitAt(s, j, j');
  }

  lemma NextStart(s: seq<Segment>, j: nat)
    requires Stream(s) && j < |s|
    ensures Pos(s, j + 1) == s[j].end
  {
  }

  lemma SplitAt(s: seq<Segment>, j: nat, j': nat)
    requires j < j' <= |s|
    ensures s[..j'] == s[..j] + ([s[j]] + s[j + 1..j'])
  {
  }

  lemma FirstMissingAfter(taken: seq<nat>, n: nat, j: nat)
    requires j == FirstMissing(taken, n, 0) < n
    ensures FirstMissing(taken + [j], n, 0) == FirstMissing(taken + [j], n, j + 1)
  {
    var j' := FirstMissing(taken + [j], n, j + 1);
    forall i | 0 <= i < j' ensures i in taken + [j] {
      if i < j { assert i in taken; }
    }
    FirstMissingIs(taken + [j], n, 0, j');
  }

  /** A later segment arrives: it joins the held ones. */
  lemma SetAsideLater(s: seq<Segment>, taken: seq<nat>, i: nat, f: Flow)
    requires Stream(s) && FirstMissing(taken, |s|, 0) < i < |s| && i !in taken
    requires Waiting(s, taken, f)
    ensures var j := FirstMissing(taken, |s|, 0);
      var taken' := taken + [i];
      var g := SetAside(f, s[i]);
      FirstMissing(taken', |s|, 0) == j && s[i].start !in f.buf && Waiting(s, taken', g)
  {
    var j := FirstMissing(taken, |s|, 0);
    FirstMissingIs(taken + [i], |s|, 0, j);
    HoldsLater(s, taken, j, i, f.buf);
    InsertSize(f.buf, s[i].start, s[i]);
  }

  /** Overrunning the window emits a segment ahead of the missing one. */
  lemma SkipLeavesGap(s: seq<Segment>, taken: seq<nat>, j: nat, f: Flow) returns (k: nat)
    requires Stream(s) && j < |s| && j !in taken && f.next == s[j].start && Holds(s, taken, j, f.buf) && f.buf != map[]
    ensures j < k < |s| && k in taken
    ensures var out := SkipGap(Unbounded, f).adv.out; out != [] && out[0] == s[k]
  {
    HeldBeyond(s, taken, j, f);
    hide Stream, Holds, Future;
    var p := Nearest(Unbounded, f.next, f.buf.Keys);
    assert p in f.buf;
    k := HeldIndex(s, taken, j, f.buf, p);
  }

  /** After arrival `b`, segment `k` has been emitted in the place of the missing one. */
  ghost predicate OutOfPlace(s: seq<Segment>, order: seq<nat>, b: nat, k: nat, out: seq<Segment>) {
    && b < |order|
    && var j := FirstMissing(order[..b + 1], |s|, 0);
      j < |out| && j < k < |s| && k in order[..b + 1] && out[j] == s[k]
  }

  /** Some segment has been emitted in the place of an earlier one. */
  ghost predicate Displaced(s: seq<Segment>, order: seq<nat>, a: nat, out: seq<Segment>) {
    exists b: nat, k: nat :: b < a && OutOfPlace(s, order, b, k, out)
  }

  lemma PrimedWaiting(s: seq<Segment>, order: seq<nat>, a: nat, l: Ledger, now: int)
    requires Stream(s) && Permutation(order, |s|) && Led(order) && a < |order| && Restored(s, order, a, l)
    ensures Waiting(s, order[..a], Primed(l.flow, s[order[a]], now))
  {
    if a == 0 { assert order[..a] == []; }
  }

  lemma ArriveInOrder(cfg: Config, s: seq<Segment>, taken: seq<nat>, l: Ledger, now: int)
    requires Stream(s) && FirstMissing(taken, |s|, 0) < |s|
    requires var j := FirstMissing(taken, |s|, 0); l.out == s[..j] && Waiting(s, taken, Primed(l.flow, s[j], now))
    ensures var j := FirstMissing(taken, |s|, 0);
      var e := Arrival(s[j], now);
      var l' := Record(l, e, React(Unbounded, cfg, l.flow, e));
      var j' := FirstMissing(taken + [j], |s|, 0);
      j' > j && l'.out == s[..j'] && l'.flow.Some? && Waiting(s, taken + [j], l'.flow.value)
  {
    hide Holds, FirstMissing, Deliver, Hold;
    var j := FirstMissing(taken, |s|, 0);
    var f := Primed(l.flow, s[j], now);
    DeliverNext(s, taken, f);
    assert l.out + [] + Deliver(f, s[j]).delivered == l.out + Deliver(f, s[j]).delivered;
  }

  lemma ArriveEarly(cfg: Config, s: seq<Segment>, taken: seq<nat>, i: nat, l: Ledger, now: int)
    requires Stream(s) && FirstMissing(taken, |s|, 0) < i < |s| && i !in taken
    requires l.out == s[..FirstMissing(taken, |s|, 0)] && Waiting(s, taken, Primed(l.flow, s[i], now))
    ensures var j := FirstMissing(taken, |s|, 0);
      var e := Arrival(s[i], now);
      var l' := Record(l, e, React(Unbounded, cfg, l.flow, e));
      && FirstMissing(taken + [i], |s|, 0) == j
      && if |taken| + 1 - j <= cfg.window then
           l'.out == l.out && l'.flow.Some? && Waiting(s, taken + [i], l'.flow.value)
         else
           exists k :: j < k < |s| && k in taken + [i] && j < |l'.out| && l'.out[j] == s[k]
  {
    hide Holds, FirstMissing, Deliver, SkipGap, SetAside;
    var j := FirstMissing(taken, |s|, 0);
    var f := Primed(l.flow, s[i], now);
    PosIncreases(s, j, i);
    SetAsideLater(s, taken, i, f);
    var g := SetAside(f, s[i]);
    var r := Hold(Unbounded, cfg, f, s[i]);
    if |g.buf| > cfg.window {
      var k := SkipLeavesGap(s, taken + [i], j, g);
      assert (l.out + [] + r.delivered)[j] == s[k];
    }
  }

  lemma ShowOutOfPlace(s: seq<Segment>, order: seq<nat>, a: nat, j: nat, out: seq<Segment>)
    requires a < |order| && j == FirstMissing(order[..a + 1], |s|, 0)
    requires exists k :: j < k < |s| && k in order[..a + 1] && j < |out| && out[j] == s[k]
    ensures Displaced(s, order, a + 1, out)
  {
    hide FirstMissing;
    var k :| j < k < |s| && k in order[..a + 1] && j < |out| && out[j] == s[k];
    assert OutOfPlace(s, order, a, k, out);
  }

  lemma ArriveRestores(cfg: Config, s: seq<Segment>, order: seq<nat>, a: nat, l: Ledger, now: int)
    requires Stream(s) && Permutation(order, |s|) && Led(order) && a < |order| && Restored(s, order, a, l)
    ensures var e := Arrival(s[order[a]], now);
      var l' := Record(l, e, React(Unbounded, cfg, l.flow, e));
      && (Early(order, a) <= cfg.window && Early(order, a + 1) <= cfg.window ==> Restored(s, order, a + 1, l'))
      && (Early(order, a + 1) > cfg.window >= Early(order, a) ==> Displaced(s, order, a + 1, l'.out))
  {
    var i, taken := order[a], order[..a];
    Untaken(s, order, a);
    PrimedWaiting(s, order, a, l, now);
    hide Waiting, FirstMissing, React, Permutation, Record, Stream, Displaced;
    if i == FirstMissing(taken, |s|, 0) {
      ArriveInOrder(cfg, s, taken, l, now);
    } else {
      ArriveEarly(cfg, s, taken, i, l, now);
      if Early(order, a + 1) > cfg.window {
        ShowOutOfPlace(s, order, a, FirstMissing(taken, |s|, 0),
                       Record(l, Arrival(s[i], now), React(Unbounded, cfg, l.flow, Arrival(s[i], now))).out);
      }
    }
  }

  lemma PushesInit(s: seq<Segment>, order: seq<nat>, es: seq<FlowEvent>)
    requires Stream(s) && Permutation(order, |s|) && es != [] && Pushes(s, order, es)
    ensures var init, e := es[..|es| - 1], es[|es| - 1];
      var a := |Arrivals(init)|;
      && Pushes(s, order, init) && |Arrivals(es)| <= |order|
      && (if e.Arrival? then |Arrivals(es)| == a + 1 && e.seg == s[order[a]] else |Arrivals(es)| == a)
  {
    var init := es[..|es| - 1];
    forall b | 0 <= b < |Arrivals(init)| ensures Arrivals(init)[b] == s[order[b]] {
      assert Arrivals(es)[b] == Arrivals(init)[b];
    }
    if es[|es| - 1].Arrival? { assert Arrivals(es)[|Arrivals(init)|] == es[|es| - 1].seg; }
  }

  lemma {:induction false} LastSeenIsLastArrival(m: Arith, cfg: Config, es: seq<FlowEvent>)
    ensures var l := Run(m, cfg, es);
      l.flow.Some? ==> LastArrival(es) == Some(l.flow.value.lastSeen)
  {
    hide FlushAll, Hold, Deliver, Gap;
    if es != [] { LastSeenIsLastArrival(m, cfg, es[..|es| - 1]); }
  }

  /** A flush that does not find the flow idle changes nothing. */
  lemma QuietFlush(m: Arith, cfg: Config, es: seq<FlowEvent>)
    requires es != [] && Quiet(cfg, es) && es[|es| - 1].Flush?
    ensures var l, l' := Run(m, cfg, es[..|es| - 1]), Run(m, cfg, es);
      l'.flow == l.flow && l'.out == l.out
  {
    LastSeenIsLastArrival(m, cfg, es[..|es| - 1]);
    var l := Run(m, cfg, es[..|es| - 1]);
    assert l.out + [] + [] == l.out;
  }

  lemma DisplacedStays(s: seq<Segment>, order: seq<nat>, a: nat, out: seq<Segment>, a': nat, more: seq<Segment>)
    requires a <= a' && Displaced(s, order, a, out)
    ensures Displaced(s, order, a', out + more)
  {
    var b: nat, k: nat :| b < a && OutOfPlace(s, order, b, k, out);
    assert OutOfPlace(s, order, b, k, out + more);
  }

  /** What `RunRestores` maintains. */
  ghost predicate InStep(cfg: Config, s: seq<Segment>, order: seq<nat>, a: nat, l: Ledger)
    requires Stream(s) && a <= |order|
  {
    if WithinWindow(order, a, cfg.window) then Restored(s, order, a, l) else Displaced(s, order, a, l.out)
  }

  lemma ArriveInStep(cfg: Config, s: seq<Segment>, order: seq<nat>, a: nat, l: Ledger, now: int)
    requires Stream(s) && Permutation(order, |s|) && Led(order) && a < |order| && InStep(cfg, s, order, a, l)
    ensures var e := Arrival(s[order[a]], now); InStep(cfg, s, order, a + 1, Record(l, e, React(Unbounded, cfg, l.flow, e)))
  {
    hide Restored, Displaced, FirstMissing, React;
    var e := Arrival(s[order[a]], now);
    var r := React(Unbounded, cfg, l.flow, e);
    if WithinWindow(order, a, cfg.window) {
      assert Early(order, a) <= cfg.window;
      ArriveRestores(cfg, s, order, a, l, now);
    } else {
      DisplacedStays(s, order, a, l.out, a + 1, r.passed + r.delivered);
      assert l.out + r.passed + r.delivered == l.out + (r.passed + r.delivered);
    }
  }

  /** While the window is never overrun the unbounded flow is in its restored state; once it has
      been, a segment is out of place for good. */
  lemma {:induction false} RunRestores(cfg: Config, s: seq<Segment>, order: seq<nat>, es: seq<FlowEvent>)
    requires Stream(s) && Permutation(order, |s|) && Led(order) && Pushes(s, order, es) && Quiet(cfg, es)
    ensures |Arrivals(es)| <= |order| && InStep(cfg, s, order, |Arrivals(es)|, Run(Unbounded, cfg, es))
  {
    hide InStep, React, Record, Pushes, Permutation;
    if es == [] {
      NothingArrived(cfg, s, order);
    } else {
      var init, e := es[..|es| - 1], es[|es| - 1];
      PushesInit(s, order, es);
      RunRestores(cfg, s, order, init);
      var a, l := |Arrivals(init)|, Run(Unbounded, cfg, init);
      if e.Flush? {
        QuietFlush(Unbounded, cfg, es);
        SameInStep(cfg, s, order, a, l, Run(Unbounded, cfg, es));
      } else {
        ArriveInStep(cfg, s, order, a, l, e.now);
      }
    }
  }

  lemma NothingArrived(cfg: Config, s: seq<Segment>, order: seq<nat>)
    requires Stream(s) && Permutation(order, |s|)
    ensures WithinWindow(order, 0, cfg.window) && InStep(cfg, s, order, 0, Run(Unbounded, cfg, []))
  {
    assert order[..0] == [];
  }

  lemma SameInStep(cfg: Config, s: seq<Segment>, order: seq<nat>, a: nat, l: Ledger, l': Ledger)
    requires Stream(s) && a <= |order| && l'.flow == l.flow && l'.out == l.out
    ensures InStep(cfg, s, order, a, l) ==> InStep(cfg, s, order, a, l')
  {
  }

  lemma DisplacedIsNotStream(s: seq<Segment>, order: seq<nat>, a: nat, out: seq<Segment>)
    requires Stream(s) && Displaced(s, order, a, out)
    ensures out != s
  {
    var b: nat, k: nat :| b < a && OutOfPlace(s, order, b, k, out);
    PosIncreases(s, FirstMissing(order[..b + 1], |s|, 0), k);
  }

  /** The first segment to arrive is the first to come out, whatever follows. */
  lemma {:induction false} FirstOut(m: Arith, cfg: Config, es: seq<FlowEvent>)
    ensures var l, xs := Run(m, cfg, es), Arrivals(es);
      if xs == [] then l.flow.None? && l.out == [] else l.out != [] && l.out[0] == xs[0]
  {
    if es != [] {
      hide React;
      FirstOut(m, cfg, es[..|es| - 1]);
      FreshReaction(m, cfg, es[|es| - 1]);
    }
  }

  /** Restoration over unbounded positions: a stream pushed in any order comes out exactly as the
      stream if and only if its first segment arrives first and at most `window` segments are
      ever early; the flow then holds nothing and waits at the end of the stream. */
  lemma StreamRestored(cfg: Config, s: seq<Segment>, order: seq<nat>, es: seq<FlowEvent>)
    requires Stream(s) && Permutation(order, |s|) && Pushes(s, order, es) && Quiet(cfg, es)
    requires |Arrivals(es)| == |s|
    ensures var l := Run(Unbounded, cfg, es);
      && (l.out == s <==> Led(order) && WithinWindow(order, |s|, cfg.window))
      && (l.out == s ==> l.flow.Some? && l.flow.value.buf == map[] && l.flow.value.next == s[|s| - 1].end)
  {
    var l := Run(Unbounded, cfg, es);
    if !Led(order) {
      FirstOut(Unbounded, cfg, es);
      PosIncreases(s, 0, order[0]);
    } else {
      RunRestores(cfg, s, order, es);
      if WithinWindow(order, |s|, cfg.window) {
        assert order[..|s|] == order;
        FirstMissingIs(order, |s|, 0, |s|);
      } else {
        DisplacedIsNotStream(s, order, |s|, l.out);
      }
    }
  }

  // ---------------------------------------------------------------- the 32-bit flow

  lemma FirstMissingGrows(order: seq<nat>, n: nat, b: nat, a: nat)
    requires b <= a <= |order|
    ensures FirstMissing(order[..b], n, 0) <= FirstMissing(order[..a], n, 0)
  {
    var i := FirstMissing(order[..b], n, 0);
    forall j | 0 <= j < i ensures j in order[..a] { assert j in order[..b]; }
  }

  lemma ReachAt(s: seq<Segment>, order: seq<nat>, b: nat)
    requires Stream(s) && Permutation(order, |s|) && WithinReach(s, order) && b < |order|
    ensures order[b] < |s| && s[order[b]].start - Pos(s, FirstMissing(order[..b], |s|, 0)) < 0x8000_0000
  {
  }

  lemma NearFrom(s: seq<Segment>, i: nat, j: nat, k: nat)
    requires Stream(s) && i <= j <= k < |s| && s[k].start - Pos(s, i) < 0x8000_0000
    ensures 0 <= s[k].start - Pos(s, j) < 0x8000_0000
  {
    if i < j { PosIncreases(s, i, j); }
    if j < k { PosIncreases(s, j, k); }
  }

  /** A taken segment that is not before the first missing one starts within reach of it. */
  lemma TakenNear(s: seq<Segment>, order: seq<nat>, a: nat, b: nat)
    requires Stream(s) && Permutation(order, |s|) && WithinReach(s, order) && b <= a <= |order| && b < |order|
    requires FirstMissing(order[..a], |s|, 0) <= order[b]
    ensures order[b] < |s| && 0 <= s[order[b]].start - Pos(s, FirstMissing(order[..a], |s|, 0)) < 0x8000_0000
  {
    ReachAt(s, order, b);
    FirstMissingGrows(order, |s|, b, a);
    hide FirstMissing, WithinReach, Permutation, Stream, Pos;
    NearFrom(s, FirstMissing(order[..b], |s|, 0), FirstMissing(order[..a], |s|, 0), order[b]);
  }

  /** Everything held starts at `from` or within reach of it. */
  ghost predicate HeldWithin(buf: Held, from: int) {
    forall k :: k in buf ==> from <= k < from + 0x8000_0000
  }

  lemma WaitingWithin(s: seq<Segment>, order: seq<nat>, a: nat, f: Flow)
    requires Stream(s) && Permutation(order, |s|) && WithinReach(s, order) && a <= |order|
    requires Waiting(s, order[..a], f)
    ensures HeldWithin(f.buf, f.next)
  {
    hide WithinReach, Permutation, Stream, Pos, FirstMissing;
    var j := FirstMissing(order[..a], |s|, 0);
    forall k | k in f.buf ensures f.next <= k < f.next + 0x8000_0000 {
      var i :| j <= i < |s| && i in order[..a] && s[i].start == k;
      var b :| 0 <= b < a && order[b] == i;
      TakenNear(s, order, a, b);
    }
  }

  /** Every state that draining part of a stream passes through is within range. */
  lemma {:induction false} DrainStreamNear(s: seq<Segment>, taken: seq<nat>, j: nat, f: Flow)
    requires Stream(s) && j <= |s| && f.next == Pos(s, j) && Holds(s, taken, j, f.buf) && HeldWithin(f.buf, f.next)
    ensures DrainNear(f)
    decreases |s| - j
  {
    hide Holds, Stream, HeldWithin, Pos, Near;
    WithinNear(f);
    NextHeld(s, taken, j, f.buf);
    if f.next in f.buf {
      HeldFirst(s, taken, j, f.buf);
      HoldsWithout(s, taken, j, f.buf);
      NextStart(s, j);
      PosIncreases(s, j, j + 1);
      var g := f.(next := s[j].end, buf := f.buf - {f.next});
      StillWithin(s, taken, j + 1, f.buf, f.next, g.buf);
      DrainStreamNear(s, taken, j + 1, g);
    }
  }

  lemma WithinNear(f: Flow)
    requires HeldWithin(f.buf, f.next)
    ensures Near(f)
  {
  }

  lemma HeldFirst(s: seq<Segment>, taken: seq<nat>, j: nat, buf: Held)
    requires Stream(s) && j < |s| && j in taken && Holds(s, taken, j, buf)
    ensures Pos(s, j) == s[j].start && s[j].start in buf && buf[s[j].start] == s[j]
  {
  }

  /** What is still held of the segments from `j` on is within reach of the start of `j`. */
  lemma StillWithin(s: seq<Segment>, taken: seq<nat>, j: nat, buf: Held, from: int, part: Held)
    requires Stream(s) && j <= |s| && HeldWithin(buf, from) && part.Keys <= buf.Keys
    requires Holds(s, taken, j, part) && from <= Pos(s, j)
    ensures HeldWithin(part, Pos(s, j))
  {
    forall k | k in part ensures Pos(s, j) <= k < Pos(s, j) + 0x8000_0000 {
      var i :| j <= i < |s| && i in taken && s[i].start == k;
      if j < i { PosIncreases(s, j, i); }
      assert k in buf;
    }
  }

  /** The flow waits for segment `j`, which has not been taken, and holds every later taken one. */
  ghost predicate WaitsAt(s: seq<Segment>, taken: seq<nat>, j: nat, f: Flow)
    requires Stream(s)
  {
    j <= |s| && j !in taken && f.next == Pos(s, j) && Holds(s, taken, j, f.buf)
  }

  lemma DeliverNear(s: seq<Segment>, taken: seq<nat>, j: nat, f: Flow)
    requires Stream(s) && WaitsAt(s, taken, j, f) && j < |s| && HeldWithin(f.buf, f.next)
    ensures DrainNear(f.(next := s[j].end))
  {
    hide Holds, DrainNear;
    HoldsNext(s, taken, j, f.buf);
    NextStart(s, j);
    PosIncreases(s, j, j + 1);
    StillWithin(s, taken + [j], j + 1, f.buf, f.next, f.buf);
    DrainStreamNear(s, taken + [j], j + 1, f.(next := s[j].end));
  }

  /** The nearest held segment, and what is held beyond it. */
  lemma JumpHolds(s: seq<Segment>, taken: seq<nat>, j: nat, f: Flow) returns (m: nat)
    requires Stream(s) && j < |s| && j !in taken && f.next == s[j].start && Holds(s, taken, j, f.buf) && f.buf != map[]
    ensures Future(Unbounded, f) == f.buf && j < m < |s|
    ensures Jump(f).next == Pos(s, m + 1) && Jump(f).buf.Keys <= f.buf.Keys && Holds(s, taken, m + 1, Jump(f).buf)
  {
    HeldBeyond(s, taken, j, f);
    var k := Nearest(Unbounded, f.next, f.buf.Keys);
    assert k in f.buf;
    m := HeldIndex(s, taken, j, f.buf, k);
    hide Holds, Stream, Pos;
    NextStart(s, m);
    forall p | p in f.buf ensures k <= p { assert Gap(Unbounded, k, f.next) <= Gap(Unbounded, p, f.next); }
    NearestFirst(s, taken, j, m, f.buf);
  }

  lemma HeldIndex(s: seq<Segment>, taken: seq<nat>, j: nat, buf: Held, k: int) returns (m: nat)
    requires Holds(s, taken, j, buf) && k in buf && j !in taken
    ensures j < m < |s| && m in taken && s[m].start == k && buf[k] == s[m]
  {
    m :| j <= m < |s| && m in taken && s[m].start == k;
  }

  lemma HeldBeyond(s: seq<Segment>, taken: seq<nat>, j: nat, f: Flow)
    requires Stream(s) && j < |s| && j !in taken && f.next == s[j].start && Holds(s, taken, j, f.buf)
    ensures Future(Unbounded, f) == f.buf
  {
    forall k | k in f.buf ensures k > f.next {
      var i := HeldIndex(s, taken, j, f.buf, k);
      PosIncreases(s, j, i);
    }
  }

  lemma NearestFirst(s: seq<Segment>, taken: seq<nat>, j: nat, m: nat, buf: Held)
    requires Stream(s) && j <= m < |s| && m in taken && Holds(s, taken, j, buf)
    requires s[m].start in buf && forall k :: k in buf ==> s[m].start <= k
    ensures Holds(s, taken, m + 1, buf - {s[m].start})
  {
    var rest := buf - {s[m].start};
    forall i | m + 1 <= i < |s| && i in taken ensures s[i].start in rest && rest[s[i].start] == s[i] {
      PosIncreases(s, m, i);
    }
    forall k | k in rest ensures exists i :: m + 1 <= i < |s| && i in taken && s[i].start == k {
      var i :| j <= i < |s| && i in taken && s[i].start == k;
      if i < m { PosIncreases(s, i, m); }
    }
  }

  lemma OverrunNear(s: seq<Segment>, taken: seq<nat>, j: nat, f: Flow)
    requires Stream(s) && WaitsAt(s, taken, j, f) && j < |s| && HeldWithin(f.buf, f.next)
    ensures SkipNear(f)
  {
    assert f.next == s[j].start;
    hide DrainNear, Near, Holds, HeldWithin, Stream, Pos, Jump, Future;
    WithinNear(f);
    if f.buf == map[] {
      assert Future(Unbounded, f) == map[];
    } else {
      var m := JumpHolds(s, taken, j, f);
      PosIncreases(s, j, m + 1);
      StillWithin(s, taken, m + 1, f.buf, f.next, Jump(f).buf);
      DrainStreamNear(s, taken, m + 1, Jump(f));
    }
  }

  /** A later segment joins what is held, unless it is held already. */
  lemma AsideWaits(s: seq<Segment>, taken: seq<nat>, j: nat, i: nat, f: Flow)
    requires Stream(s) && WaitsAt(s, taken, j, f) && j < i < |s|
    ensures WaitsAt(s, taken + [i], j, SetAside(f, s[i])) && (s[i].start in f.buf <==> i in taken)
  {
    if i in taken {
      HoldsAgain(s, taken, j, i, f.buf);
    } else {
      HoldsLater(s, taken, j, i, f.buf);
    }
  }

  lemma HoldsAgain(s: seq<Segment>, taken: seq<nat>, j: nat, i: nat, buf: Held)
    requires Holds(s, taken, j, buf) && j <= i < |s| && i in taken
    ensures s[i].start in buf && Holds(s, taken + [i], j, buf)
  {
    forall k | k in buf ensures exists h :: j <= h < |s| && h in taken + [i] && s[h].start == k {
      var h :| j <= h < |s| && h in taken && s[h].start == k;
      assert h in taken + [i];
    }
  }

  /** A later segment set aside leaves the flow within range for a gap skip. */
  lemma AsideNear(s: seq<Segment>, taken: seq<nat>, j: nat, i: nat, f: Flow)
    requires Stream(s) && WaitsAt(s, taken, j, f) && j < i < |s|
    requires HeldWithin(f.buf, f.next) && f.next <= s[i].start < f.next + 0x8000_0000
    ensures SkipNear(SetAside(f, s[i]))
  {
    AsideWaits(s, taken, j, i, f);
    hide SkipNear, WaitsAt, Stream;
    assert HeldWithin(SetAside(f, s[i]).buf, f.next);
    OverrunNear(s, taken + [i], j, SetAside(f, s[i]));
  }

  /** The arrival of a segment at a flow that waits for another is within range when the two are
      comparable. */
  lemma WaitingNear(cfg: Config, s: seq<Segment>, taken: seq<nat>, j: nat, i: nat, o: Option<Flow>, now: int)
    requires Stream(s) && i < |s|
    requires var f := Primed(o, s[i], now);
      WaitsAt(s, taken, j, f) && HeldWithin(f.buf, f.next) && Reachable(s[i].start - f.next)
    ensures ReactNear(cfg, o, Arrival(s[i], now))
  {
    var f := Primed(o, s[i], now);
    assert Near(f) && f.next == Pos(s, j);
    hide WaitsAt, Near, DrainNear, SkipNear, SetAside, HeldWithin, Primed;
    if i < j {
      PosIncreases(s, i, j);
    } else if i == j {
      DeliverNear(s, taken, j, f);
    } else {
      PosIncreases(s, j, i);
      AsideNear(s, taken, j, i, f);
    }
  }

  lemma WaitingAt(s: seq<Segment>, order: seq<nat>, a: nat, f: Flow)
    requires Stream(s) && Permutation(order, |s|) && a < |order| && Waiting(s, order[..a], f)
    ensures WaitsAt(s, order[..a], FirstMissing(order[..a], |s|, 0), f)
  {
    hide Holds;
    Untaken(s, order, a);
  }

  /** The arrival of a segment in the restored state is within range. */
  lemma ArriveNear(cfg: Config, s: seq<Segment>, order: seq<nat>, a: nat, l: Ledger, now: int)
    requires Stream(s) && Permutation(order, |s|) && Led(order) && WithinReach(s, order)
    requires a < |order| && Restored(s, order, a, l)
    ensures ReactNear(cfg, l.flow, Arrival(s[order[a]], now))
  {
    hide FirstMissing, WithinReach, Restored, Holds, HeldWithin, ReactNear;
    Untaken(s, order, a);
    PrimedWaiting(s, order, a, l, now);
    TakenNear(s, order, a, a);
    WaitingWithin(s, order, a, Primed(l.flow, s[order[a]], now));
    WaitingAt(s, order, a, Primed(l.flow, s[order[a]], now));
    WaitingNear(cfg, s, order[..a], FirstMissing(order[..a], |s|, 0), order[a], l.flow, now);
  }

  /** A flush that does not find the flow idle is within range. */
  lemma QuietNear(cfg: Config, es: seq<FlowEvent>)
    requires es != [] && Quiet(cfg, es) && es[|es| - 1].Flush?
    ensures ReactNear(cfg, Run(Unbounded, cfg, es[..|es| - 1]).flow, es[|es| - 1])
  {
    LastSeenIsLastArrival(Unbounded, cfg, es[..|es| - 1]);
  }

  lemma {:induction false} RestoredNear(cfg: Config, s: seq<Segment>, order: seq<nat>, es: seq<FlowEvent>)
    requires Stream(s) && Permutation(order, |s|) && Led(order) && WithinReach(s, order) && Pushes(s, order, es)
    requires Quiet(cfg, es) && (es != [] ==> WithinWindow(order, |Arrivals(es[..|es| - 1])|, cfg.window))
    ensures RunNear(cfg, es)
  {
    hide FirstMissing, Restored, Pos, Permutation, WithinReach, Pushes, ReactNear;
    if es != [] {
      var init, e := es[..|es| - 1], es[|es| - 1];
      PushesInit(s, order, es);
      if init != [] { PushesInit(s, order, init); }
      RestoredNear(cfg, s, order, init);
      if e.Flush? {
        QuietNear(cfg, es);
      } else {
        RunRestores(cfg, s, order, init);
        ArriveNear(cfg, s, order, |Arrivals(init)|, Run(Unbounded, cfg, init), e.now);
      }
    }
  }

  /** Some emitted segment differs from the one the stream has in its place. */
  ghost predicate Differs(out: seq<Segment>, s: seq<Segment>) {
    exists j :: 0 <= j < |out| && j < |s| && out[j] != s[j]
  }

  /** Wrapping cannot hide a displacement: the two segments are less than 2^31 apart. */
  lemma WrapShowsDisplaced(s: seq<Segment>, order: seq<nat>, a: nat, out: seq<Segment>)
    requires Stream(s) && Permutation(order, |s|) && WithinReach(s, order) && Displaced(s, order, a, out)
    ensures Differs(WrapAll(out), WrapAll(s))
  {
    hide FirstMissing, Wrap, WithinReach;
    var b: nat, k: nat :| b < a && OutOfPlace(s, order, b, k, out);
    var j := FirstMissing(order[..b + 1], |s|, 0);
    WrapShows(s, order, b, j, k);
    assert WrapAll(out)[j] == WrapSegment(s[k]) && WrapAll(s)[j] == WrapSegment(s[j]);
  }

  lemma WrapShows(s: seq<Segment>, order: seq<nat>, b: nat, j: nat, k: nat)
    requires Stream(s) && Permutation(order, |s|) && WithinReach(s, order) && b < |order|
    requires j == FirstMissing(order[..b + 1], |s|, 0) && j < k < |s| && k in order[..b + 1]
    ensures Wrap(s[k].start) != Wrap(s[j].start)
  {
    hide FirstMissing, Wrap, WithinReach;
    var c :| 0 <= c < b + 1 && order[c] == k;
    TakenNear(s, order, b + 1, c);
    PosIncreases(s, j, k);
    WrapInjective(s[k].start, s[j].start);
  }

  lemma {:induction false} WrappedDisplaced(cfg: Config, s: seq<Segment>, order: seq<nat>, es: seq<FlowEvent>)
    requires Stream(s) && Permutation(order, |s|) && Led(order) && WithinReach(s, order) && Pushes(s, order, es) && Quiet(cfg, es)
    requires |Arrivals(es)| <= |order| && !WithinWindow(order, |Arrivals(es)|, cfg.window)
    ensures Differs(Run(Wrapping, cfg, WrapEvents(es)).out, WrapAll(s))
  {
    hide FirstMissing, Restored, Displaced, Permutation, WithinReach, Pushes, React, WrapEvent, WrapSegment, Early;
    if es == [] {
      NothingArrived(cfg, s, order);
    } else {
      var init, e := es[..|es| - 1], es[|es| - 1];
      PushesInit(s, order, es);
      if !WithinWindow(order, |Arrivals(init)|, cfg.window) {
        WrappedDisplaced(cfg, s, order, init);
        assert WrapEvents(es)[..|es| - 1] == WrapEvents(init);
        DiffersStays(Run(Wrapping, cfg, WrapEvents(init)).out, Run(Wrapping, cfg, WrapEvents(es)).out, WrapAll(s));
      } else {
        RestoredNear(cfg, s, order, es);
        RunSimulates(cfg, es);
        RunRestores(cfg, s, order, es);
        WrapShowsDisplaced(s, order, |Arrivals(es)|, Run(Unbounded, cfg, es).out);
      }
    }
  }

  lemma DiffersStays(out: seq<Segment>, more: seq<Segment>, s: seq<Segment>)
    requires Differs(out, s) && out <= more
    ensures Differs(more, s)
  {
    var j :| 0 <= j < |out| && j < |s| && out[j] != s[j];
    assert more[j] != s[j];
  }

  /** A segment other than the first that arrives first is seen as such after wrapping. */
  lemma WrongStartShows(s: seq<Segment>, order: seq<nat>)
    requires Stream(s) && Permutation(order, |s|) && WithinReach(s, order) && !Led(order)
    ensures WrapSegment(s[order[0]]) != WrapSegment(s[0])
  {
    hide Wrap;
    assert order[..0] == [];
    ReachAt(s, order, 0);
    PosIncreases(s, 0, order[0]);
    WrapInjective(s[order[0]].start, s[0].start);
  }

  lemma WrappedWrongStart(cfg: Config, s: seq<Segment>, order: seq<nat>, es: seq<FlowEvent>)
    requires Stream(s) && Permutation(order, |s|) && WithinReach(s, order) && Pushes(s, order, es) && !Led(order)
    requires |Arrivals(es)| == |s|
    ensures Run(Wrapping, cfg, WrapEvents(es)).out != WrapAll(s)
  {
    WrongStartShows(s, order);
    hide WithinReach, Run, WrapSegment;
    WrapArrivals(es);
    FirstOut(Wrapping, cfg, WrapEvents(es));
  }

  /** Restoration by the 32-bit flow: when every arriving segment starts less than 2^31 positions
      after the first missing byte, the output is exactly the stream if and only if the first
      segment arrives first and at most `window` segments are ever early; the buffer is then
      empty. */
  lemma WrappedStreamRestored(cfg: Config, s: seq<Segment>, order: seq<nat>, es: seq<FlowEvent>)
    requires Stream(s) && Permutation(order, |s|) && WithinReach(s, order) && Pushes(s, order, es) && Quiet(cfg, es)
    requires |Arrivals(es)| == |s|
    ensures var l := Run(Wrapping, cfg, WrapEvents(es));
      && (l.out == WrapAll(s) <==> Led(order) && WithinWindow(order, |s|, cfg.window))
      && (l.out == WrapAll(s) ==> l.flow.Some? && l.flow.value.buf == map[])
  {
    assert |order| == |s|;
    hide FirstMissing, Permutation, WithinReach, Pushes, React, WrapSegment, Early, Run, Led;
    if !Led(order) {
      WrappedWrongStart(cfg, s, order, es);
    } else if WithinWindow(order, |s|, cfg.window) {
      StreamRestored(cfg, s, order, es);
      if es != [] { PushesInit(s, order, es); }
      RestoredNear(cfg, s, order, es);
      RunSimulates(cfg, es);
      var u, l := Run(Unbounded, cfg, es), Run(Wrapping, cfg, WrapEvents(es));
      EmptyBuffers(u.flow.value, l.flow.value);
    } else {
      WrappedDisplaced(cfg, s, order, es);
    }
  }
}
