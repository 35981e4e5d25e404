/** When the resequencer loses segments: exactly when the segments of a flow overlap in a certain
    way. A stream that is cut consistently never does, whatever gap skips and flushes happen. */
module NoLoss {
  import opened Collections
  import opened Serial
  import opened FlowModel
  import opened FlowLaws
  import opened Refinement
  import opened Span

  // ---------------------------------------------------------------- conditions on the segments

  /** Behind `c`, segment `a` reaches past the start of the later `b`. */
  predicate Straddles(c: Segment, a: Segment, b: Segment) {
    c.end <= a.start < b.start < a.end
  }

  /** Ahead of the end of `c`, two segments with one start have different ends. */
  predicate Rivals(c: Segment, a: Segment, b: Segment) {
    c.end < a.start == b.start && a.end != b.end
  }

  ghost predicate Clear(xs: set<Segment>) {
    forall c, a, b :: c in xs && a in xs && b in xs ==> !Straddles(c, a, b)
  }

  ghost predicate Unrivalled(xs: set<Segment>) {
    forall c, a, b :: c in xs && a in xs && b in xs ==> !Rivals(c, a, b)
  }

  ghost predicate NonEmpty(xs: set<Segment>) {
    forall x :: x in xs ==> x.start < x.end
  }

  /** A history that pushes nothing but these segments, in any order and any number of times. */
  ghost predicate Over(es: seq<FlowEvent>, xs: set<Segment>) {
    forall i :: 0 <= i < |es| && es[i].Arrival? ==> es[i].seg in xs
  }

  /** Two segments of one segmentation: the same range of the stream, or disjoint ranges. */
  predicate Compatible(a: Segment, b: Segment) {
    a.end <= b.start || b.end <= a.start || (a.start == b.start && a.end == b.end)
  }

  /** All segments come from one segmentation of the stream. */
  ghost predicate OneCut(xs: set<Segment>) {
    forall a, b :: a in xs && b in xs ==> Compatible(a, b)
  }

  /** One segmentation is more than enough for the two conditions. */
  lemma OneCutSafe(xs: set<Segment>)
    requires NonEmpty(xs) && OneCut(xs)
    ensures Clear(xs) && Unrivalled(xs)
  {
    forall c, a, b | c in xs && a in xs && b in xs ensures !Straddles(c, a, b) && !Rivals(c, a, b) {
      assert Compatible(a, b);
    }
  }

  lemma OverSound(es: seq<FlowEvent>, xs: set<Segment>)
    requires NonEmpty(xs) && Over(es, xs)
    ensures SoundEvents(Unbounded, es)
  {
  }

  // ---------------------------------------------------------------- nothing is swept

  /** The flow waits at the end of one of the segments. */
  ghost predicate AtEnd(xs: set<Segment>, next: int) {
    exists c :: c in xs && c.end == next
  }

  ghost predicate Filed(xs: set<Segment>, buf: Held) {
    forall k :: k in buf ==> buf[k] in xs && buf[k].start == k
  }

  /** The flow waits at the end of a segment, and everything it holds is ahead of that. */
  ghost predicate Ahead(xs: set<Segment>, f: Flow) {
    AtEnd(xs, f.next) && Filed(xs, f.buf) && forall k :: k in f.buf ==> f.next < k
  }

  /** Delivering `s` at or ahead of `next` moves past nothing that is held further on. */
  lemma NothingPassed(xs: set<Segment>, next: int, s: Segment, buf: Held)
    requires Clear(xs) && AtEnd(xs, next) && Filed(xs, buf) && s in xs && next <= s.start
    ensures forall k :: k in buf && s.start < k ==> s.end <= k
  {
    var c :| c in xs && c.end == next;
    forall k | k in buf && s.start < k ensures s.end <= k {
      assert !Straddles(c, s, buf[k]);
    }
  }

  lemma {:induction false} DrainAhead(xs: set<Segment>, f: Flow)
    requires Clear(xs) && AtEnd(xs, f.next) && Filed(xs, f.buf) && forall k :: k in f.buf ==> f.next <= k
    ensures Ahead(xs, Drain(f).flow)
    decreases f.buf.Keys
  {
    if f.next in f.buf {
      var s := f.buf[f.next];
      NothingPassed(xs, f.next, s, f.buf);
      DrainAhead(xs, f.(next := s.end, buf := f.buf - {f.next}));
    }
  }

  lemma SkipGapAhead(xs: set<Segment>, f: Flow)
    requires Clear(xs) && Ahead(xs, f)
    ensures var a := SkipGap(Unbounded, f).adv; a.swept == map[] && Ahead(xs, a.flow)
  {
    var fut := Future(Unbounded, f);
    assert fut == f.buf;
    if fut != map[] {
      var k := Nearest(Unbounded, f.next, fut.Keys);
      var s := fut[k];
      NothingPassed(xs, f.next, s, f.buf);
      var g := f.(next := s.end, buf := fut - {k});
      forall j | j in g.buf ensures s.end <= j {
        assert Gap(Unbounded, k, f.next) <= Gap(Unbounded, j, f.next);
      }
      DrainAhead(xs, g);
    }
  }

  lemma {:induction false} FlushSweepsNothing(xs: set<Segment>, f: Flow)
    requires Clear(xs) && Ahead(xs, f)
    ensures FlushAll(Unbounded, f).swept == map[]
    decreases f.buf.Keys
  {
    hide Clear, Ahead;
    if f.buf != map[] {
      SkipGapAhead(xs, f);
      var k := SkipGap(Unbounded, f);
      if k.found { FlushSweepsNothing(xs, k.adv.flow); }
    }
  }

  lemma DeliverAhead(xs: set<Segment>, f: Flow, s: Segment)
    requires Clear(xs) && s in xs && s.start == f.next && (f.buf == map[] || Ahead(xs, f))
    ensures var r := Deliver(f, s); r.swept == map[] && Ahead(xs, r.flow.value)
  {
    if f.buf != map[] { NothingPassed(xs, f.next, s, f.buf); }
    DrainAhead(xs, f.(next := s.end));
  }

  lemma HoldAhead(xs: set<Segment>, cfg: Config, f: Flow, s: Segment)
    requires Clear(xs) && s in xs && s.start > f.next && Ahead(xs, f)
    ensures var r := Hold(Unbounded, cfg, f, s); r.swept == map[] && Ahead(xs, r.flow.value)
  {
    hide SetAside, SkipGap, Ahead, Clear;
    AsideAhead(xs, f, s);
    SkipGapAhead(xs, SetAside(f, s));
  }

  lemma AsideAhead(xs: set<Segment>, f: Flow, s: Segment)
    requires s in xs && s.start > f.next && Ahead(xs, f)
    ensures Ahead(xs, SetAside(f, s))
  {
  }

  /** On segments that do not straddle, a step sweeps nothing and keeps everything held ahead. */
  lemma ReactAhead(xs: set<Segment>, cfg: Config, o: Option<Flow>, e: FlowEvent)
    requires Clear(xs) && (o.Some? ==> Ahead(xs, o.value)) && (e.Arrival? ==> e.seg in xs)
    ensures var r := React(Unbounded, cfg, o, e); r.swept == map[] && (r.flow.Some? ==> Ahead(xs, r.flow.value))
  {
    hide Clear, Hold, Deliver, FlushAll;
    match e
    case Flush(now) => if o.Some? { FlushSweepsNothing(xs, o.value); }
    case Arrival(s, now) =>
      var f := Primed(o, s, now);
      if s.start == f.next {
        DeliverAhead(xs, f, s);
      } else if s.start > f.next {
        HoldAhead(xs, cfg, f, s);
      }
  }

  /** No entry is ever swept from a flow whose segments do not straddle, and nothing it holds is
      ever behind the next expected position. */
  lemma {:induction false} RunSweepsNothing(xs: set<Segment>, cfg: Config, es: seq<FlowEvent>)
    requires Clear(xs) && Over(es, xs)
    ensures var l := Run(Unbounded, cfg, es); l.swept == multiset{} && (l.flow.Some? ==> Ahead(xs, l.flow.value))
  {
    hide React, Clear, Ahead;
    if es != [] {
      var init := es[..|es| - 1];
      RunSweepsNothing(xs, cfg, init);
      ReactAhead(xs, cfg, Run(Unbounded, cfg, init).flow, es[|es| - 1]);
    }
  }

  // ---------------------------------------------------------------- ignored copies

  /** Some emitted packet carries the same range as `d`. */
  ghost predicate RangeEmitted(out: seq<Segment>, d: Segment) {
    exists j :: 0 <= j < |out| && out[j].start == d.start && out[j].end == d.end
  }

  /** The range of `d` has been emitted or is held. */
  ghost predicate Represented(l: Ledger, d: Segment) {
    || RangeEmitted(l.out, d)
    || (l.flow.Some? && d.start in l.flow.value.buf && l.flow.value.buf[d.start].end == d.end)
  }

  lemma EmittedRepresented(l: Ledger, e: FlowEvent, r: Outcome, x: Segment)
    requires x in r.passed || x in r.delivered
    ensures RangeEmitted(Record(l, e, r).out, x)
  {
    var more := r.passed + r.delivered;
    assert x in more;
    var j :| 0 <= j < |more| && more[j] == x;
    assert Record(l, e, r).out == l.out + more;
    assert Record(l, e, r).out[|l.out| + j] == x;
  }

  lemma EmittedStays(l: Ledger, e: FlowEvent, r: Outcome, d: Segment)
    requires RangeEmitted(l.out, d)
    ensures RangeEmitted(Record(l, e, r).out, d)
  {
    var j :| 0 <= j < |l.out| && l.out[j].start == d.start && l.out[j].end == d.end;
    assert Record(l, e, r).out[j] == l.out[j];
  }

  lemma HeldStaysRepresented(m: Arith, cfg: Config, l: Ledger, e: FlowEvent, k: int)
    requires l.flow.Some? && k in l.flow.value.buf && Keyed(m, l.flow.value.buf)
    requires SoundEvent(m, e) && React(m, cfg, l.flow, e).swept == map[]
    ensures Represented(Record(l, e, React(m, cfg, l.flow, e)), l.flow.value.buf[k])
  {
    hide React, Count, Arrivals, RangeEmitted;
    var x := l.flow.value.buf[k];
    var r := React(m, cfg, l.flow, e);
    ReactAccounts(m, cfg, l.flow, e, x);
    DroppedArrived(m, cfg, l.flow, e);
    OnlyArrivalDropped(e, r.dropped, x);
    CountPositive(r.passed, x);
    CountPositive(r.delivered, x);
    if x in r.passed || x in r.delivered {
      EmittedRepresented(l, e, r, x);
    } else {
      assert HeldCopies(r.flow, x) > 0;
    }
  }

  lemma OnlyArrivalDropped(e: FlowEvent, dropped: seq<Segment>, x: Segment)
    requires dropped == [] || (e.Arrival? && dropped == [e.seg])
    ensures Count(dropped, x) <= Count(Arrivals([e]), x)
  {
    if e.Arrival? { assert Arrivals([e]) == [e.seg]; }
  }

  lemma DroppedArrived(m: Arith, cfg: Config, o: Option<Flow>, e: FlowEvent)
    ensures var dropped := React(m, cfg, o, e).dropped;
      dropped != [] ==>
        && e.Arrival? && dropped == [e.seg] && o.Some? && e.seg.start in o.value.buf
        && Gap(m, e.seg.start, o.value.next) > 0
  {
    hide SkipGap, Drain, FlushAll, Gap;
  }

  lemma RepresentedStays(cfg: Config, l: Ledger, e: FlowEvent, d: Segment)
    requires l.flow.Some? ==> Keyed(Unbounded, l.flow.value.buf)
    requires SoundEvent(Unbounded, e) && React(Unbounded, cfg, l.flow, e).swept == map[] && Represented(l, d)
    ensures Represented(Record(l, e, React(Unbounded, cfg, l.flow, e)), d)
  {
    hide React;
    if RangeEmitted(l.out, d) {
      EmittedStays(l, e, React(Unbounded, cfg, l.flow, e), d);
    } else {
      HeldStaysRepresented(Unbounded, cfg, l, e, d.start);
    }
  }

  /** Without rivals an ignored packet carries the range of the one that is held. */
  lemma DroppedLikeHeld(xs: set<Segment>, f: Flow, s: Segment)
    requires Unrivalled(xs) && Ahead(xs, f) && s in xs && s.start in f.buf
    ensures f.buf[s.start].end == s.end
  {
    var c :| c in xs && c.end == f.next;
    assert !Rivals(c, f.buf[s.start], s);
  }

  /** A packet is ignored only while its range is held, and that range is not lost. */
  lemma {:induction false} DroppedRepresented(xs: set<Segment>, cfg: Config, es: seq<FlowEvent>, i: nat)
    requires NonEmpty(xs) && Clear(xs) && Unrivalled(xs) && Over(es, xs) && i < |Run(Unbounded, cfg, es).dropped|
    ensures var l := Run(Unbounded, cfg, es); Represented(l, l.dropped[i])
  {
    hide React, Clear, Unrivalled, Represented;
    var init, e := es[..|es| - 1], es[|es| - 1];
    var l := Run(Unbounded, cfg, init);
    OverSound(es, xs);
    RunSound(Unbounded, cfg, init);
    RunSweepsNothing(xs, cfg, init);
    ReactAhead(xs, cfg, l.flow, e);
    DroppedArrived(Unbounded, cfg, l.flow, e);
    var d := Run(Unbounded, cfg, es).dropped[i];
    if i < |l.dropped| {
      DroppedRepresented(xs, cfg, init, i);
    } else {
      HeldRepresented(xs, l, d);
    }
    RepresentedStays(cfg, l, e, d);
  }

  lemma HeldRepresented(xs: set<Segment>, l: Ledger, d: Segment)
    requires Unrivalled(xs) && l.flow.Some? && Ahead(xs, l.flow.value) && d in xs && d.start in l.flow.value.buf
    ensures Represented(l, d)
  {
    DroppedLikeHeld(xs, l.flow.value, d);
  }

  // ---------------------------------------------------------------- when a flow loses something

  /** The flow has been reaped and some range that arrived was never emitted. */
  ghost predicate Loses(m: Arith, cfg: Config, es: seq<FlowEvent>) {
    Run(m, cfg, es).flow.None? && exists x :: x in Arrivals(es) && !RangeEmitted(Run(m, cfg, es).out, x)
  }

  lemma {:induction false} ArrivedOver(es: seq<FlowEvent>, xs: set<Segment>, x: Segment)
    requires Over(es, xs) && x in Arrivals(es)
    ensures x in xs
  {
    if x in Arrivals(es[..|es| - 1]) { ArrivedOver(es[..|es| - 1], xs, x); }
  }

  lemma LosesNothing(xs: set<Segment>, cfg: Config, es: seq<FlowEvent>)
    requires NonEmpty(xs) && Clear(xs) && Unrivalled(xs) && Over(es, xs)
    ensures !Loses(Unbounded, cfg, es)
  {
    hide Run, Clear, Unrivalled, Arrivals, Count, Over;
    var l := Run(Unbounded, cfg, es);
    OverSound(es, xs);
    RunSweepsNothing(xs, cfg, es);
    if l.flow.None? {
      forall x | x in Arrivals(es) ensures RangeEmitted(l.out, x) {
        RunAccounts(Unbounded, cfg, es, x);
        CountPositive(Arrivals(es), x);
        CountPositive(l.out, x);
        CountPositive(l.dropped, x);
        if x !in l.out {
          var i :| 0 <= i < |l.dropped| && l.dropped[i] == x;
          DroppedRepresented(xs, cfg, es, i);
        }
      }
    }
  }

  // The other direction: a history that loses a given straddled or rivalled segment.

  /** Three arrivals at once, and a flush when the flow has become idle. */
  ghost function Burst(cfg: Config, x: Segment, y: Segment, z: Segment): seq<FlowEvent> {
    [Arrival(x, 0)] + [Arrival(y, 0)] + [Arrival(z, 0)] + [Flush(cfg.maxAge)]
  }

  lemma BurstOver(cfg: Config, x: Segment, y: Segment, z: Segment, xs: set<Segment>)
    requires x in xs && y in xs && z in xs
    ensures Over(Burst(cfg, x, y, z), xs)
  {
  }

  lemma RunOneMore(cfg: Config, es: seq<FlowEvent>, e: FlowEvent, r: Outcome)
    requires r == React(Unbounded, cfg, Run(Unbounded, cfg, es).flow, e) && r.passed == []
    ensures var l, l' := Run(Unbounded, cfg, es), Run(Unbounded, cfg, es + [e]);
      l'.flow == r.flow && l'.out == l.out + r.delivered && l'.swept == l.swept + multiset(r.swept.Values)
    ensures Arrivals(es + [e]) == Arrivals(es) + if e.Arrival? then [e.seg] else []
  {
    hide React, Extend;
    assert (es + [e])[..|es|] == es;
    var l := Run(Unbounded, cfg, es);
    assert l.out + [] + r.delivered == l.out + r.delivered;
  }

  /** The run of a burst, given its four steps. */
  lemma RunBurst(cfg: Config, x: Segment, y: Segment, z: Segment, p: Outcome, q: Outcome, r: Outcome, t: Outcome)
    requires p == React(Unbounded, cfg, None, Arrival(x, 0))
    requires q == React(Unbounded, cfg, p.flow, Arrival(y, 0))
    requires r == React(Unbounded, cfg, q.flow, Arrival(z, 0))
    requires t == React(Unbounded, cfg, r.flow, Flush(cfg.maxAge))
    requires p.passed == q.passed == r.passed == t.passed == []
    requires p.swept == q.swept == r.swept == map[]
    ensures var l := Run(Unbounded, cfg, Burst(cfg, x, y, z));
      && l.flow == t.flow && l.out == p.delivered + q.delivered + r.delivered + t.delivered
      && l.swept == multiset(t.swept.Values)
    ensures Arrivals(Burst(cfg, x, y, z)) == [x, y, z]
  {
    hide React, Run, Arrivals;
    var b := [Arrival(x, 0)] + [Arrival(y, 0)];
    var c := b + [Arrival(z, 0)];
    RunTwo(cfg, x, y, p, q);
    RunOneMore(cfg, b, Arrival(z, 0), r);
    RunOneMore(cfg, c, Flush(cfg.maxAge), t);
  }

  lemma RunTwo(cfg: Config, x: Segment, y: Segment, p: Outcome, q: Outcome)
    requires p == React(Unbounded, cfg, None, Arrival(x, 0)) && q == React(Unbounded, cfg, p.flow, Arrival(y, 0))
    requires p.passed == q.passed == [] && p.swept == q.swept == map[]
    ensures var l := Run(Unbounded, cfg, [Arrival(x, 0)] + [Arrival(y, 0)]);
      l.flow == q.flow && l.out == p.delivered + q.delivered && l.swept == multiset{}
    ensures Arrivals([Arrival(x, 0)] + [Arrival(y, 0)]) == [x, y]
  {
    hide React;
    assert Run(Unbounded, cfg, []) == Ledger(None, [], [], [], multiset{}) && Arrivals([]) == [];
    hide Run, Arrivals;
    var a := [Arrival(x, 0)];
    RunOneMore(cfg, [], Arrival(x, 0), p);
    assert [] + a == a && [] + p.delivered == p.delivered;
    RunOneMore(cfg, a, Arrival(y, 0), q);
  }

  /** The first segment primes the flow and comes out. */
  lemma FirstStep(cfg: Config, c: Segment)
    ensures React(Unbounded, cfg, None, Arrival(c, 0)) == Outcome(Some(Flow(c.end, map[], 0)), [], [c], [], map[])
  {
    assert Drain(Flow(c.end, map[], 0)).out == [];
    assert [c] + [] == [c];
  }

  /** An early segment is held when the window has room. */
  lemma EarlyStep(cfg: Config, n: int, s: Segment)
    requires cfg.window >= 1 && n < s.start
    ensures React(Unbounded, cfg, Some(Flow(n, map[], 0)), Arrival(s, 0))
         == Outcome(Some(Flow(n, map[s.start := s], 0)), [], [], [], map[])
  {
    assert |map[s.start := s]| == 1;
  }

  /** Skipping to the nearer of two held segments that reaches past the other one. */
  lemma SkipPast(n: int, a: Segment, b: Segment)
    requires n < a.start < b.start < a.end
    ensures SkipGap(Unbounded, Flow(n, map[b.start := b][a.start := a], 0))
         == Skip(true, Advance(Flow(a.end, map[b.start := b], 0), [a], map[]))
  {
    var f := Flow(n, map[b.start := b][a.start := a], 0);
    assert Future(Unbounded, f) == f.buf;
    assert a.start in f.buf.Keys;
    var k := Nearest(Unbounded, n, f.buf.Keys);
    assert Gap(Unbounded, k, n) <= Gap(Unbounded, a.start, n);
    var g := Flow(a.end, map[b.start := b], 0);
    assert f.buf - {a.start} == g.buf;
    assert Drain(g).flow == g && Drain(g).out == [];
    assert [a] + [] == [a];
  }

  lemma SkipNothing(n: int, b: Segment)
    requires b.start < n
    ensures FlushAll(Unbounded, Flow(n, map[b.start := b], 0)) == Advance(Flow(n, map[], 0), [], map[b.start := b])
  {
    assert Future(Unbounded, Flow(n, map[b.start := b], 0)) == map[];
  }

  lemma FlushPast(n: int, a: Segment, b: Segment)
    requires n < a.start < b.start < a.end
    ensures var r := FlushAll(Unbounded, Flow(n, map[b.start := b][a.start := a], 0));
      r.out == [a] && r.swept == map[b.start := b]
  {
    SkipPast(n, a, b);
    SkipNothing(a.end, b);
    hide SkipGap, Future, Drain;
    assert a.start in map[b.start := b][a.start := a];
    assert map[] + map[b.start := b] == map[b.start := b];
  }

  /** What the third arrival does: it comes out, or waits beside the other one. */
  lemma OvertakingStep(cfg: Config, n: int, a: Segment, b: Segment)
    requires cfg.window >= 1 && n <= a.start < b.start < a.end
    ensures var r := React(Unbounded, cfg, Some(Flow(n, map[b.start := b], 0)), Arrival(a, 0));
      if n == a.start || cfg.window == 1 then
        r == Outcome(Some(Flow(a.end, map[b.start := b], 0)), [], [a], [], map[])
      else
        r == Outcome(Some(Flow(n, map[b.start := b][a.start := a], 0)), [], [], [], map[])
  {
    var f, g := Flow(n, map[b.start := b], 0), Flow(a.end, map[b.start := b], 0);
    if n == a.start {
      assert Drain(g).flow == g && Drain(g).out == [];
      assert [a] + [] == [a];
    } else {
      assert |map[b.start := b]| == 1;
      InsertSize(f.buf, a.start, a);
      SkipPast(n, a, b);
      hide SkipGap;
    }
  }

  /** Whatever the window, a straddled segment is swept when it arrives before the one that
      reaches past its start, and never comes out. */
  lemma StraddledSwept(cfg: Config, c: Segment, a: Segment, b: Segment)
    requires cfg.window >= 1 && Straddles(c, a, b)
    ensures var l := Run(Unbounded, cfg, Burst(cfg, c, b, a));
      l.flow.None? && l.out == [c, a] && l.swept == multiset{b}
    ensures Arrivals(Burst(cfg, c, b, a)) == [c, b, a]
  {
    hide React, Run, Burst;
    FirstStep(cfg, c);
    EarlyStep(cfg, c.end, b);
    var r, t := OvertakingSteps(cfg, c.end, a, b);
    RunBurst(cfg, c, b, a, React(Unbounded, cfg, None, Arrival(c, 0)),
             React(Unbounded, cfg, Some(Flow(c.end, map[], 0)), Arrival(b, 0)), r, t);
    assert [c] + [] + r.delivered + t.delivered == [c] + (r.delivered + t.delivered);
    SingleValue(b.start, b);
  }

  /** The third arrival and the flush together emit `a` and sweep `b`. */
  lemma OvertakingSteps(cfg: Config, n: int, a: Segment, b: Segment) returns (r: Outcome, t: Outcome)
    requires cfg.window >= 1 && n <= a.start < b.start < a.end
    ensures r == React(Unbounded, cfg, Some(Flow(n, map[b.start := b], 0)), Arrival(a, 0))
    ensures t == React(Unbounded, cfg, r.flow, Flush(cfg.maxAge))
    ensures r.passed == t.passed == [] && r.swept == map[]
    ensures t.flow.None? && r.delivered + t.delivered == [a] && t.swept == map[b.start := b]
  {
    hide FlushAll, Arrive;
    OvertakingStep(cfg, n, a, b);
    r := React(Unbounded, cfg, Some(Flow(n, map[b.start := b], 0)), Arrival(a, 0));
    t := React(Unbounded, cfg, r.flow, Flush(cfg.maxAge));
    if n == a.start || cfg.window == 1 {
      SkipNothing(a.end, b);
      assert [a] + [] == [a];
    } else {
      FlushPast(n, a, b);
      assert [] + [a] == [a];
    }
  }

  /** Of two rivals the second one to arrive is ignored, and its range never comes out. */
  lemma RivalIgnored(cfg: Config, c: Segment, a: Segment, b: Segment)
    requires cfg.window >= 1 && Rivals(c, a, b)
    ensures var l := Run(Unbounded, cfg, Burst(cfg, c, a, b)); l.flow.None? && l.out == [c, a]
    ensures Arrivals(Burst(cfg, c, a, b)) == [c, a, b]
  {
    FirstStep(cfg, c);
    EarlyStep(cfg, c.end, a);
    var p := React(Unbounded, cfg, None, Arrival(c, 0));
    var q := React(Unbounded, cfg, p.flow, Arrival(a, 0));
    var r := React(Unbounded, cfg, q.flow, Arrival(b, 0));
    var t := React(Unbounded, cfg, r.flow, Flush(cfg.maxAge));
    RivalStep(cfg, c.end, a, b);
    FlushOne(c.end, a);
    assert t.flow.None? && t.passed == [] && t.delivered == [a];
    hide React, Run;
    RunBurst(cfg, c, a, b, p, q, r, t);
    assert [c] + [] + [] + [a] == [c, a];
  }

  lemma RivalStep(cfg: Config, n: int, a: Segment, b: Segment)
    requires cfg.window >= 1 && n < a.start == b.start
    ensures React(Unbounded, cfg, Some(Flow(n, map[a.start := a], 0)), Arrival(b, 0))
         == Outcome(Some(Flow(n, map[a.start := a], 0)), [], [], [b], map[])
  {
    assert |map[a.start := a]| == 1;
  }

  lemma FlushOne(n: int, a: Segment)
    requires n < a.start
    ensures FlushAll(Unbounded, Flow(n, map[a.start := a], 0)).out == [a]
  {
    var f := Flow(n, map[a.start := a], 0);
    assert Future(Unbounded, f) == f.buf;
    assert a.start in f.buf.Keys;
    assert Nearest(Unbounded, n, f.buf.Keys) in f.buf.Keys;
    assert f.buf - {a.start} == map[];
    assert Drain(Flow(a.end, map[], 0)).out == [] && Drain(Flow(a.end, map[], 0)).flow == Flow(a.end, map[], 0);
    assert [a] + [] + [] == [a];
  }

  // Without a window nothing is ever held.

  lemma NoWindowStep(cfg: Config, o: Option<Flow>, e: FlowEvent)
    requires cfg.window == 0 && (o.Some? ==> o.value.buf == map[])
    ensures var r := React(Unbounded, cfg, o, e);
      r.swept == map[] && r.dropped == [] && (r.flow.Some? ==> r.flow.value.buf == map[])
  {
    if e.Arrival? && o.Some? && e.seg.start > o.value.next {
      var g := SetAside(o.value.(lastSeen := e.now), e.seg);
      assert g.buf == map[e.seg.start := e.seg];
      assert |g.buf| == 1;
      assert Future(Unbounded, g) == g.buf;
      assert Nearest(Unbounded, g.next, g.buf.Keys) in g.buf.Keys;
      assert g.buf - {e.seg.start} == map[];
    }
  }

  lemma {:induction false} NoWindow(cfg: Config, es: seq<FlowEvent>)
    requires cfg.window == 0
    ensures var l := Run(Unbounded, cfg, es);
      l.swept == multiset{} && l.dropped == [] && (l.flow.Some? ==> l.flow.value.buf == map[])
  {
    hide React;
    if es != [] {
      NoWindow(cfg, es[..|es| - 1]);
      NoWindowStep(cfg, Run(Unbounded, cfg, es[..|es| - 1]).flow, es[|es| - 1]);
    }
  }

  lemma NoWindowNoLoss(cfg: Config, es: seq<FlowEvent>)
    requires cfg.window == 0 && SoundEvents(Unbounded, es)
    ensures !Loses(Unbounded, cfg, es)
  {
    hide Run, Arrivals, Count;
    NoWindow(cfg, es);
    var l := Run(Unbounded, cfg, es);
    forall x | x in Arrivals(es) && l.flow.None? ensures RangeEmitted(l.out, x) {
      RunAccounts(Unbounded, cfg, es, x);
      CountPositive(Arrivals(es), x);
      CountPositive(l.out, x);
      CountPositive(l.dropped, x);
    }
  }

  // ---------------------------------------------------------------- exactly when

  /** Some history over the segments sweeps one of them. */
  ghost predicate CanSweep(cfg: Config, xs: set<Segment>) {
    exists es :: Over(es, xs) && Run(Unbounded, cfg, es).swept != multiset{}
  }

  /** Some history over the segments loses one of them. */
  ghost predicate CanLose(cfg: Config, xs: set<Segment>) {
    exists es :: Over(es, xs) && Loses(Unbounded, cfg, es)
  }

  /** A flow can sweep a segment if and only if there is a window and some segment, behind the end
      of another, reaches past the start of a third. */
  lemma SweepsExactly(cfg: Config, xs: set<Segment>)
    ensures CanSweep(cfg, xs) <==> cfg.window >= 1 && !Clear(xs)
  {
    hide Run, Over;
    if es :| Over(es, xs) && Run(Unbounded, cfg, es).swept != multiset{} {
      if cfg.window == 0 { NoWindow(cfg, es); }
      if Clear(xs) { RunSweepsNothing(xs, cfg, es); }
    }
    if cfg.window >= 1 && !Clear(xs) {
      var c, a, b :| c in xs && a in xs && b in xs && Straddles(c, a, b);
      StraddledSwept(cfg, c, a, b);
      BurstOver(cfg, c, b, a, xs);
    }
  }

  lemma OverlapLost(cfg: Config, xs: set<Segment>, c: Segment, a: Segment, b: Segment)
    requires cfg.window >= 1 && NonEmpty(xs) && c in xs && a in xs && b in xs
    requires Straddles(c, a, b) || Rivals(c, a, b)
    ensures CanLose(cfg, xs)
  {
    hide Run, Over;
    var es := if Straddles(c, a, b) then Burst(cfg, c, b, a) else Burst(cfg, c, a, b);
    if Straddles(c, a, b) {
      StraddledSwept(cfg, c, a, b);
      BurstOver(cfg, c, b, a, xs);
      assert [c, b, a][1] == b;
    } else {
      RivalIgnored(cfg, c, a, b);
      BurstOver(cfg, c, a, b, xs);
      assert [c, a, b][2] == b;
    }
    assert b in Arrivals(es) && !RangeEmitted([c, a], b);
  }

  /** A flow can lose a range if and only if there is a window and, behind the end of another
      segment, one reaches past the start of a third, or two with one start differ in length. */
  lemma LosesExactly(cfg: Config, xs: set<Segment>)
    requires NonEmpty(xs)
    ensures CanLose(cfg, xs) <==> cfg.window >= 1 && !(Clear(xs) && Unrivalled(xs))
  {
    hide Loses, Over;
    if es :| Over(es, xs) && Loses(Unbounded, cfg, es) {
      if cfg.window == 0 {
        OverSound(es, xs);
        NoWindowNoLoss(cfg, es);
      }
      if Clear(xs) && Unrivalled(xs) { LosesNothing(xs, cfg, es); }
    }
    if cfg.window >= 1 && !(Clear(xs) && Unrivalled(xs)) {
      var c, a, b :| c in xs && a in xs && b in xs && (Straddles(c, a, b) || Rivals(c, a, b));
      OverlapLost(cfg, xs, c, a, b);
    }
  }

  // ---------------------------------------------------------------- the 32-bit flow

  lemma WrapSound(es: seq<FlowEvent>)
    ensures SoundEvents(Wrapping, WrapEvents(es))
  {
    forall i | 0 <= i < |es| ensures SoundEvent(Wrapping, WrapEvents(es)[i]) {
      assert WrapEvents(es)[i] == WrapEvent(es[i]);
    }
  }

  lemma RepresentedBySameRange(xs: set<Segment>, cfg: Config, es: seq<FlowEvent>, i: nat)
    requires NonEmpty(xs) && Clear(xs) && Unrivalled(xs) && Over(es, xs)
    requires var l := Run(Unbounded, cfg, es); l.flow.None? && i < |l.dropped|
    ensures var l := Run(Unbounded, cfg, es); RangeEmitted(WrapAll(l.out), WrapSegment(l.dropped[i]))
  {
    hide Run, Clear, Unrivalled, Over;
    DroppedRepresented(xs, cfg, es, i);
    var l := Run(Unbounded, cfg, es);
    var j :| 0 <= j < |l.out| && l.out[j].start == l.dropped[i].start && l.out[j].end == l.dropped[i].end;
    assert WrapAll(l.out)[j] == WrapSegment(l.out[j]);
  }

  /** No loss despite gap skips: when the segments of a 32-bit flow neither straddle nor rival each
      other and stay within range, nothing is swept; once the flow is reaped every packet pushed
      has been emitted exactly once, except a copy that arrived while the same range was held,
      and that range has been emitted too. */
  lemma NothingLost(xs: set<Segment>, cfg: Config, es: seq<FlowEvent>)
    requires NonEmpty(xs) && Clear(xs) && Unrivalled(xs) && Over(es, xs) && RunNear(cfg, es)
    ensures var l := Run(Wrapping, cfg, WrapEvents(es));
      && l.swept == multiset{}
      && (l.flow.None? ==>
            && (forall x :: Count(WrapAll(Arrivals(es)), x) == Count(l.out, x) + Count(l.dropped, x))
            && (forall i :: 0 <= i < |l.dropped| ==> RangeEmitted(l.out, l.dropped[i])))
  {
    hide Wrap, Run, Count, Simulates, RunNear, Clear, Unrivalled, SimulatesBag, RangeEmitted;
    RunSimulates(cfg, es);
    RunSweepsNothing(xs, cfg, es);
    WrapSound(es);
    var u, l := Run(Unbounded, cfg, es), Run(Wrapping, cfg, WrapEvents(es));
    BagEmpty(u.swept, l.swept);
    if l.flow.None? {
      forall x ensures Count(WrapAll(Arrivals(es)), x) == Count(l.out, x) + Count(l.dropped, x) {
        WrapArrivals(es);
        RunAccounts(Wrapping, cfg, WrapEvents(es), x);
      }
      forall i | 0 <= i < |l.dropped| ensures RangeEmitted(l.out, l.dropped[i]) {
        RepresentedBySameRange(xs, cfg, es, i);
      }
    }
  }

  /** The segments all lie in one stretch of 2^31 positions. */
  ghost predicate Fits(lo: int, xs: set<Segment>) {
    forall x :: x in xs ==> Inside(lo, x)
  }

  lemma FitsSimulates(lo: int, xs: set<Segment>, cfg: Config, es: seq<FlowEvent>)
    requires Fits(lo, xs) && Over(es, xs)
    ensures SimulatesLedger(Run(Unbounded, cfg, es), Run(Wrapping, cfg, WrapEvents(es)))
  {
    hide Run, Inside;
    ShortStreamCompact(cfg, es, lo);
    CompactNear(cfg, es);
    RunSimulates(cfg, es);
  }

  /** A 32-bit flow can sweep a segment exactly when the unbounded one can. */
  lemma WrappedSweepsExactly(lo: int, cfg: Config, xs: set<Segment>)
    requires Fits(lo, xs)
    ensures (exists es :: Over(es, xs) && Run(Wrapping, cfg, WrapEvents(es)).swept != multiset{})
      <==> cfg.window >= 1 && !Clear(xs)
  {
    hide Run, Over, Clear, Fits, Simulates, SimulatesBag;
    SweepsExactly(cfg, xs);
    forall es | Over(es, xs)
      ensures Run(Wrapping, cfg, WrapEvents(es)).swept != multiset{} <==> Run(Unbounded, cfg, es).swept != multiset{}
    {
      FitsSimulates(lo, xs, cfg, es);
      BagEmpty(Run(Unbounded, cfg, es).swept, Run(Wrapping, cfg, WrapEvents(es)).swept);
    }
  }

  lemma InsideSameRange(lo: int, x: Segment, y: Segment)
    requires Inside(lo, x) && Inside(lo, y)
    ensures Wrap(x.start) == Wrap(y.start) && Wrap(x.end) == Wrap(y.end) <==> x.start == y.start && x.end == y.end
  {
    WrapInjective(x.start, y.start);
    WrapInjective(x.end, y.end);
  }

  lemma WrapKeepsEmitted(lo: int, out: seq<Segment>, x: Segment)
    requires Inside(lo, x) && forall i :: 0 <= i < |out| ==> Inside(lo, out[i])
    ensures RangeEmitted(WrapAll(out), WrapSegment(x)) <==> RangeEmitted(out, x)
  {
    hide Wrap, Inside;
    forall i | 0 <= i < |out|
      ensures WrapAll(out)[i].start == WrapSegment(x).start && WrapAll(out)[i].end == WrapSegment(x).end
        <==> out[i].start == x.start && out[i].end == x.end
    {
      InsideSameRange(lo, out[i], x);
    }
    if RangeEmitted(out, x) {
      var i :| 0 <= i < |out| && out[i].start == x.start && out[i].end == x.end;
      assert WrapAll(out)[i].start == WrapSegment(x).start;
    }
  }

  lemma EmittedInside(lo: int, xs: set<Segment>, cfg: Config, es: seq<FlowEvent>, i: nat)
    requires Fits(lo, xs) && Over(es, xs) && i < |Run(Unbounded, cfg, es).out|
    ensures Inside(lo, Run(Unbounded, cfg, es).out[i])
  {
    hide Run, Arrivals, Count;
    OverSound(es, xs);
    var out := Run(Unbounded, cfg, es).out;
    RunAccounts(Unbounded, cfg, es, out[i]);
    CountPositive(out, out[i]);
    CountPositive(Arrivals(es), out[i]);
    ArrivedOver(es, xs, out[i]);
  }

  lemma WrapKeepsLoss(lo: int, xs: set<Segment>, cfg: Config, es: seq<FlowEvent>)
    requires Fits(lo, xs) && Over(es, xs)
    ensures Loses(Wrapping, cfg, WrapEvents(es)) <==> Loses(Unbounded, cfg, es)
  {
    hide Run, Over, Simulates, SimulatesBag, Inside, Arrivals, RangeEmitted, WrapSegment;
    FitsSimulates(lo, xs, cfg, es);
    WrapArrivals(es);
    var u, l := Run(Unbounded, cfg, es), Run(Wrapping, cfg, WrapEvents(es));
    var ys, ws := Arrivals(es), Arrivals(WrapEvents(es));
    forall i | 0 <= i < |ys| ensures RangeEmitted(l.out, ws[i]) <==> RangeEmitted(u.out, ys[i]) {
      ArrivedOver(es, xs, ys[i]);
      forall j | 0 <= j < |u.out| ensures Inside(lo, u.out[j]) { EmittedInside(lo, xs, cfg, es, j); }
      WrapKeepsEmitted(lo, u.out, ys[i]);
    }
    if x :| x in ys && !RangeEmitted(u.out, x) {
      var i :| 0 <= i < |ys| && ys[i] == x;
      assert ws[i] in ws;
    }
    if x :| x in ws && !RangeEmitted(l.out, x) {
      var i :| 0 <= i < |ws| && ws[i] == x;
      assert ys[i] in ys;
    }
  }

  /** A 32-bit flow can lose a range exactly when the unbounded one can. */
  lemma WrappedLosesExactly(lo: int, cfg: Config, xs: set<Segment>)
    requires Fits(lo, xs)
    ensures (exists es :: Over(es, xs) && Loses(Wrapping, cfg, WrapEvents(es)))
      <==> cfg.window >= 1 && !(Clear(xs) && Unrivalled(xs))
  {
    LosesExactly(cfg, xs);
    hide Loses, Over, Clear, Unrivalled, Fits;
    forall es | Over(es, xs) ensures Loses(Wrapping, cfg, WrapEvents(es)) <==> Loses(Unbounded, cfg, es) {
      WrapKeepsLoss(lo, xs, cfg, es);
    }
  }

  /** The 32-bit flow sweeps a straddled segment that arrives before the one reaching past it. */
  lemma WrappedStraddledLost(lo: int, cfg: Config, c: Segment, a: Segment, b: Segment)
    requires cfg.window >= 1 && Straddles(c, a, b) && Inside(lo, c) && Inside(lo, a) && Inside(lo, b)
    ensures var l := Run(Wrapping, cfg, Burst(cfg, WrapSegment(c), WrapSegment(b), WrapSegment(a)));
      l.flow.None? && l.out == [WrapSegment(c), WrapSegment(a)]
  {
    hide Run, Burst, WrapSegment, Inside, Over, Simulates, SimulatesBag, Straddles;
    StraddledSwept(cfg, c, a, b);
    BurstOver(cfg, c, b, a, {c, a, b});
    FitsSimulates(lo, {c, a, b}, cfg, Burst(cfg, c, b, a));
    assert WrapAll([c, a]) == [WrapSegment(c), WrapSegment(a)];
    WrapBurst(cfg, c, b, a);
  }

  lemma WrapBurst(cfg: Config, x: Segment, y: Segment, z: Segment)
    ensures WrapEvents(Burst(cfg, x, y, z)) == Burst(cfg, WrapSegment(x), WrapSegment(y), WrapSegment(z))
  {
    hide WrapSegment;
  }

  /** An input on which the 32-bit flow loses a segment, across the wrap: an in-order segment that
      overlaps a held one moves past its start, and the flush sweeps it. */
  lemma OverlapLoses(cfg: Config, first: Segment, lost: Segment, overlap: Segment)
    requires cfg.window >= 1 && first.start == 0xFFFF_FFF6 && first.end == 0
    requires overlap.start == 0 && overlap.end == 6 && lost.start == 5 && lost.end == 9
    ensures var l := Run(Wrapping, cfg, Burst(cfg, first, lost, overlap)); l.flow.None? && l.out == [first, overlap]
  {
    hide Run, Burst;
    var c := first.(start := -10);
    assert WrapSegment(c) == first && WrapSegment(overlap) == overlap && WrapSegment(lost) == lost;
    WrappedStraddledLost(-10, cfg, c, overlap, lost);
  }
}
