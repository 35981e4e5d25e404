/** The 32-bit flow simulates the flow over unbounded positions, step for step, as long as every
    number the code compares with `nextSeq` is within half the number circle of it. */
module Refinement {
  import opened Collections
  import opened Serial
  import opened FlowModel
  import opened FlowLaws

  ghost function WrapSegment(s: Segment): Segment {
    Segment(Wrap(s.start), Wrap(s.end), s.data)
  }

  ghost function WrapAll(xs: seq<Segment>): (ys: seq<Segment>)
    ensures |ys| == |xs| && forall i :: 0 <= i < |xs| ==> ys[i] == WrapSegment(xs[i])
  {
    seq(|xs|, i requires 0 <= i < |xs| => WrapSegment(xs[i]))
  }

  ghost function WrapEvent(e: FlowEvent): FlowEvent {
    match e
    case Arrival(s, now) => Arrival(WrapSegment(s), now)
    case Flush(now) => Flush(now)
  }

  ghost function WrapEvents(es: seq<FlowEvent>): (ws: seq<FlowEvent>)
    ensures |ws| == |es| && forall i :: 0 <= i < |es| ==> ws[i] == WrapEvent(es[i])
  {
    seq(|es|, i requires 0 <= i < |es| => WrapEvent(es[i]))
  }

  lemma {:induction false} WrapArrivals(es: seq<FlowEvent>)
    ensures Arrivals(WrapEvents(es)) == WrapAll(Arrivals(es))
  {
    if es != [] {
      WrapArrivals(es[..|es| - 1]);
      assert WrapEvents(es)[..|es| - 1] == WrapEvents(es[..|es| - 1]);
    }
  }

  // ---------------------------------------------------------------- the range condition

  /** Every held position is comparable with the next expected one in 32 bits. */
  ghost predicate Near(f: Flow) {
    forall k :: k in f.buf ==> Reachable(k - f.next)
  }

  /** `Near` in every state the drain loop passes through. */
  ghost predicate DrainNear(f: Flow)
    decreases f.buf.Keys
  {
    Near(f) && (f.next in f.buf ==> DrainNear(f.(next := f.buf[f.next].end, buf := f.buf - {f.next})))
  }

  ghost function Jump(f: Flow): Flow
    requires Future(Unbounded, f) != map[]
  {
    var fut := Future(Unbounded, f);
    var k := Nearest(Unbounded, f.next, fut.Keys);
    f.(next := fut[k].end, buf := fut - {k})
  }

  ghost predicate SkipNear(f: Flow) {
    Near(f) && (Future(Unbounded, f) != map[] ==> DrainNear(Jump(f)))
  }

  ghost predicate FlushNear(f: Flow)
    decreases f.buf.Keys
  {
    SkipNear(f) && (SkipGap(Unbounded, f).found ==> FlushNear(SkipGap(Unbounded, f).adv.flow))
  }

  /** `Near` in every state a step passes through, the pushed position included. */
  ghost predicate ReactNear(cfg: Config, o: Option<Flow>, e: FlowEvent) {
    match e
    case Flush(now) => o.Some? && Idle(cfg, o.value, now) ==> FlushNear(o.value)
    case Arrival(s, now) =>
      var f := Primed(o, s, now);
      var g := SetAside(f, s);
      Near(f) && Reachable(s.start - f.next) &&
      if s.start == f.next then DrainNear(f.(next := s.end))
      else s.start > f.next && |g.buf| > cfg.window ==> SkipNear(g)
  }

  ghost predicate RunNear(cfg: Config, es: seq<FlowEvent>) {
    es == [] ||
    (RunNear(cfg, es[..|es| - 1]) && ReactNear(cfg, Run(Unbounded, cfg, es[..|es| - 1]).flow, es[|es| - 1]))
  }

  // ---------------------------------------------------------------- the simulation relation

  /** The unbounded position that a 32-bit number stands for near `next`. */
  function Lift(next: int, s: int): int {
    next + Dist(s, Wrap(next))
  }

  /** `g` is `f` modulo 2^32. */
  ghost predicate Simulates(f: Flow, g: Flow) {
    && g.next == Wrap(f.next) && g.lastSeen == f.lastSeen
    && (forall k :: k in f.buf ==> f.buf[k].start == k)
    && (forall k {:trigger Wrap(k)} :: k in f.buf ==> Wrap(k) in g.buf && g.buf[Wrap(k)] == WrapSegment(f.buf[k]))
    && (forall s {:trigger Lift(f.next, s)} :: s in g.buf ==> IsSeq(s) && Lift(f.next, s) in f.buf)
  }

  ghost predicate SimulatesOption(o: Option<Flow>, p: Option<Flow>) {
    if o.Some? then p.Some? && Simulates(o.value, p.value) else p.None?
  }

  lemma LiftOfWrap(next: int, k: int)
    requires Reachable(k - next)
    ensures Lift(next, Wrap(k)) == k
  {
    DistOfWrapped(k, next);
  }

  lemma WrapOfHeld(f: Flow, g: Flow, s: int)
    requires Simulates(f, g) && s in g.buf
    ensures IsSeq(s) && Lift(f.next, s) in f.buf && Wrap(Lift(f.next, s)) == s
  {
    var k := Lift(f.next, s);
    WrapOfLift(s, f.next);
  }

  lemma SameSize(f: Flow, g: Flow)
    requires Simulates(f, g) && Near(f)
    ensures |f.buf| == |g.buf|
  {
    forall k | k in f.buf ensures Lift(f.next, Wrap(k)) == k { LiftOfWrap(f.next, k); }
    forall s | s in g.buf ensures Wrap(Lift(f.next, s)) == s { WrapOfHeld(f, g, s); }
    MatchedSize(f.buf.Keys, g.buf.Keys, k => Wrap(k), s => Lift(f.next, s));
    assert |f.buf| == |f.buf.Keys| && |g.buf| == |g.buf.Keys|;
  }

  /** Restricting both sides to corresponding entries and moving `next` keeps the relation. */
  lemma SimulatesPart(f: Flow, g: Flow, f': Flow, g': Flow)
    requires Simulates(f, g) && Near(f) && Near(f')
    requires SubMap(f'.buf, f.buf) && SubMap(g'.buf, g.buf)
    requires forall k :: k in f.buf ==> (k in f'.buf <==> Wrap(k) in g'.buf)
    requires g'.next == Wrap(f'.next) && g'.lastSeen == f'.lastSeen
    ensures Simulates(f', g')
  {
    forall s | s in g'.buf ensures IsSeq(s) && Lift(f'.next, s) in f'.buf {
      var k := Lift(f.next, s);
      assert k in f.buf;
      WrapOfLift(s, f.next);
      assert k in f'.buf;
      LiftOfWrap(f'.next, k);
    }
  }

  lemma {:induction false} DrainSimulates(f: Flow, g: Flow)
    requires Simulates(f, g) && DrainNear(f)
    ensures Simulates(Drain(f).flow, Drain(g).flow)
    ensures Drain(g).out == WrapAll(Drain(f).out)
    decreases f.buf.Keys
  {
    if f.next in f.buf {
      var s := f.buf[f.next];
      var f' := f.(next := s.end, buf := f.buf - {f.next});
      var g' := g.(next := Wrap(s.end), buf := g.buf - {g.next});
      forall k | k in f.buf ensures k in f'.buf <==> Wrap(k) in g'.buf { WrapInjective(k, f.next); }
      SimulatesPart(f, g, f', g');
      DrainSimulates(f', g');
      assert WrapAll([s] + Drain(f').out) == [WrapSegment(s)] + WrapAll(Drain(f').out);
    } else if g.next in g.buf {
      WrapOfHeld(f, g, g.next);
      LiftOfWrap(f.next, f.next);
    }
  }

  /** Corresponding entries are ahead of `next` together, by the same distance. */
  lemma FutureSimulates(f: Flow, g: Flow)
    requires Simulates(f, g) && Near(f)
    ensures forall k :: k in f.buf ==>
      Gap(Wrapping, Wrap(k), g.next) == k - f.next && (k in Future(Unbounded, f) <==> Wrap(k) in Future(Wrapping, g))
    ensures forall s :: s in Future(Wrapping, g) ==> Lift(f.next, s) in Future(Unbounded, f) && Wrap(Lift(f.next, s)) == s
  {
    forall k | k in f.buf ensures Dist(Wrap(k), g.next) == k - f.next { DistOfWrapped(k, f.next); }
    forall s | s in g.buf ensures Lift(f.next, s) in f.buf && Wrap(Lift(f.next, s)) == s { WrapOfHeld(f, g, s); }
    hide Wrap, Dist;
  }

  lemma FutureEmptiness(f: Flow, g: Flow)
    requires Simulates(f, g) && Near(f)
    ensures Future(Unbounded, f) == map[] <==> Future(Wrapping, g) == map[]
  {
    hide Wrap, Dist;
    FutureSimulates(f, g);
    var a, b := Future(Unbounded, f), Future(Wrapping, g);
    if a != map[] {
      var k := Pick(a.Keys);
      assert Wrap(k) in b;
    }
    if b != map[] {
      var s := Pick(b.Keys);
      assert Lift(f.next, s) in a;
    }
  }

  lemma NearestSimulates(f: Flow, g: Flow)
    requires Simulates(f, g) && Near(f) && Future(Unbounded, f) != map[] && Future(Wrapping, g) != map[]
    ensures Nearest(Wrapping, g.next, Future(Wrapping, g).Keys)
         == Wrap(Nearest(Unbounded, f.next, Future(Unbounded, f).Keys))
  {
    hide Wrap, Dist;
    FutureSimulates(f, g);
    var a, b := Future(Unbounded, f).Keys, Future(Wrapping, g).Keys;
    var k, s := Nearest(Unbounded, f.next, a), Nearest(Wrapping, g.next, b);
    var j := Lift(f.next, s);
    assert k in a && j in a && Wrap(k) in b && Wrap(j) == s;
    assert IsNearest(Unbounded, f.next, a, k) && IsNearest(Wrapping, g.next, b, s);
  }

  lemma JumpSimulates(f: Flow, g: Flow)
    requires Simulates(f, g) && SkipNear(f) && Future(Unbounded, f) != map[] && Future(Wrapping, g) != map[]
    ensures var fb := Future(Wrapping, g); var s := Nearest(Wrapping, g.next, fb.Keys);
      && fb[s] == WrapSegment(Future(Unbounded, f)[Nearest(Unbounded, f.next, Future(Unbounded, f).Keys)])
      && Simulates(Jump(f), g.(next := fb[s].end, buf := fb - {s}))
  {
    hide Dist;
    NearestSimulates(f, g);
    FutureSimulates(f, g);
    var fa, fb := Future(Unbounded, f), Future(Wrapping, g);
    var k := Nearest(Unbounded, f.next, fa.Keys);
    assert Wrap(k) in fb && fb[Wrap(k)] == WrapSegment(fa[k]);
    var f', g' := Jump(f), g.(next := Wrap(fa[k].end), buf := fb - {Wrap(k)});
    forall j | j in f.buf ensures j in f'.buf <==> Wrap(j) in g'.buf { WrapInjective(j, k); }
    hide Wrap;
    SimulatesPart(f, g, f', g');
  }

  /** Corresponding parts of what `f` and `g` hold. */
  ghost predicate SamePart(f: Flow, g: Flow, a: Held, b: Held) {
    && SubMap(a, f.buf) && SubMap(b, g.buf)
    && forall k {:trigger Wrap(k)} :: k in f.buf ==> (k in a <==> Wrap(k) in b)
  }

  /** A gap skip sweeps corresponding parts. */
  lemma SweptSimulates(f: Flow, g: Flow)
    requires Simulates(f, g) && Near(f)
    ensures SamePart(f, g, SkipGap(Unbounded, f).adv.swept, SkipGap(Wrapping, g).adv.swept)
  {
    FutureSimulates(f, g);
    FutureEmptiness(f, g);
    hide Wrap, Dist, Gap, Drain, Nearest;
    var fa, fb := Future(Unbounded, f), Future(Wrapping, g);
    if fa != map[] {
      assert SkipGap(Unbounded, f).adv.swept == f.buf - fa.Keys && SkipGap(Wrapping, g).adv.swept == g.buf - fb.Keys;
    } else {
      assert SkipGap(Unbounded, f).adv.swept == f.buf && SkipGap(Wrapping, g).adv.swept == g.buf;
    }
  }

  lemma SkipGapSimulates(f: Flow, g: Flow)
    requires Simulates(f, g) && SkipNear(f)
    ensures var a, b := SkipGap(Unbounded, f), SkipGap(Wrapping, g);
      && a.found == b.found && Simulates(a.adv.flow, b.adv.flow) && b.adv.out == WrapAll(a.adv.out)
      && SamePart(f, g, a.adv.swept, b.adv.swept)
  {
    hide Wrap, Dist, Gap, Simulates, SamePart, WrapSegment;
    SweptSimulates(f, g);
    FutureEmptiness(f, g);
    EmptyBuffers(f, g);
    var fa, fb := Future(Unbounded, f), Future(Wrapping, g);
    if fa != map[] {
      JumpSimulates(f, g);
      var x := fa[Nearest(Unbounded, f.next, fa.Keys)];
      var s := Nearest(Wrapping, g.next, fb.Keys);
      DrainSimulates(Jump(f), g.(next := fb[s].end, buf := fb - {s}));
      assert WrapAll([x] + Drain(Jump(f)).out) == [WrapSegment(x)] + WrapAll(Drain(Jump(f)).out);
    }
  }

  lemma EmptyBuffers(f: Flow, g: Flow)
    requires Simulates(f, g)
    ensures f.buf == map[] <==> g.buf == map[]
    ensures Simulates(f.(buf := map[]), g.(buf := map[]))
  {
    if f.buf != map[] {
      var k := Pick(f.buf.Keys);
      assert Wrap(k) in g.buf;
    }
    if g.buf != map[] {
      var s := Pick(g.buf.Keys);
      assert Lift(f.next, s) in f.buf;
    }
  }

  lemma {:induction false} FlushSimulates(f: Flow, g: Flow)
    requires Simulates(f, g) && FlushNear(f)
    ensures var a, b := FlushAll(Unbounded, f), FlushAll(Wrapping, g);
      b.out == WrapAll(a.out) && SamePart(f, g, a.swept, b.swept)
    decreases f.buf.Keys
  {
    hide Wrap, Dist, Simulates, SkipGap, SkipNear;
    EmptyBuffers(f, g);
    if f.buf != map[] {
      SkipGapSimulates(f, g);
      var a, b := SkipGap(Unbounded, f).adv, SkipGap(Wrapping, g).adv;
      if SkipGap(Unbounded, f).found {
        FlushSimulates(a.flow, b.flow);
        var a', b' := FlushAll(Unbounded, a.flow), FlushAll(Wrapping, b.flow);
        assert WrapAll(a.out + a'.out) == WrapAll(a.out) + WrapAll(a'.out);
        assert Near(f) by { NearFirst(f); }
        PartsJoin(f, g, a, b, a'.swept, b'.swept);
      }
    }
  }

  lemma NearFirst(f: Flow)
    requires FlushNear(f)
    ensures Near(f)
  {
  }

  lemma PartsJoin(f: Flow, g: Flow, a: Advance, b: Advance, p: Held, q: Held)
    requires Simulates(f, g) && Near(f) && SamePart(f, g, a.swept, b.swept)
    requires SubMap(a.flow.buf, f.buf) && SubMap(b.flow.buf, g.buf)
    requires Simulates(a.flow, b.flow) && SamePart(a.flow, b.flow, p, q)
    ensures SamePart(f, g, a.swept + p, b.swept + q)
  {
    forall k | k in f.buf && Wrap(k) in q ensures k in p {
      WrapOfHeld(a.flow, b.flow, Wrap(k));
      WrapInjective(Lift(a.flow.next, Wrap(k)), k);
    }
  }

  /** The same segments modulo 2^32, under the same numbers modulo 2^32. */
  ghost predicate SimulatesHeld(a: Held, b: Held) {
    && (forall k {:trigger Wrap(k)} :: k in a ==> a[k].start == k && Wrap(k) in b && b[Wrap(k)] == WrapSegment(a[k]))
    && (forall s :: s in b ==> exists k :: k in a && Wrap(k) == s)
    && (forall j, k {:trigger Wrap(j), Wrap(k)} :: j in a && k in a && Wrap(j) == Wrap(k) ==> j == k)
  }

  lemma PartSimulates(f: Flow, g: Flow, a: Held, b: Held)
    requires Simulates(f, g) && Near(f) && SamePart(f, g, a, b)
    ensures SimulatesHeld(a, b)
  {
    forall s | s in b ensures exists k :: k in a && Wrap(k) == s {
      WrapOfHeld(f, g, s);
    }
    forall j, k | j in a && k in a && Wrap(j) == Wrap(k) ensures j == k {
      WrapInjective(j, k);
    }
  }

  ghost predicate SimulatesOutcome(a: Outcome, b: Outcome) {
    && SimulatesOption(a.flow, b.flow)
    && b.passed == WrapAll(a.passed) && b.delivered == WrapAll(a.delivered) && b.dropped == WrapAll(a.dropped)
    && SimulatesHeld(a.swept, b.swept)
  }

  lemma SameHeld(f: Flow, g: Flow, k: int)
    requires Simulates(f, g) && Near(f) && Reachable(k - f.next)
    ensures k in f.buf <==> Wrap(k) in g.buf
  {
    LiftOfWrap(f.next, k);
    if Wrap(k) in g.buf { WrapOfHeld(f, g, Wrap(k)); }
  }

  lemma AsideForward(f: Flow, g: Flow, s: Segment, k: int)
    requires Simulates(f, g) && Near(f) && Reachable(s.start - f.next) && k in SetAside(f, s).buf
    ensures var f', g' := SetAside(f, s), SetAside(g, WrapSegment(s));
      f'.buf[k].start == k && Wrap(k) in g'.buf && g'.buf[Wrap(k)] == WrapSegment(f'.buf[k])
  {
    SameHeld(f, g, s.start);
    if k in f.buf {
      WrapInjective(k, s.start);
      assert Wrap(k) in g.buf;
    }
  }

  lemma AsideBackward(f: Flow, g: Flow, s: Segment, q: int)
    requires Simulates(f, g) && Near(f) && Reachable(s.start - f.next) && q in SetAside(g, WrapSegment(s)).buf
    ensures IsSeq(q) && Lift(f.next, q) in SetAside(f, s).buf
  {
    LiftOfWrap(f.next, s.start);
    hide Lift;
    if q in g.buf { WrapOfHeld(f, g, q); }
  }

  lemma SetAsideSimulates(f: Flow, g: Flow, s: Segment)
    requires Simulates(f, g) && Near(f) && Reachable(s.start - f.next)
    ensures s.start in f.buf <==> Wrap(s.start) in g.buf
    ensures var f', g' := SetAside(f, s), SetAside(g, WrapSegment(s)); Simulates(f', g') && |f'.buf| == |g'.buf|
  {
    SameHeld(f, g, s.start);
    var f', g' := SetAside(f, s), SetAside(g, WrapSegment(s));
    assert Near(f') && f'.next == f.next;
    assert g'.next == Wrap(f'.next) && g'.lastSeen == f'.lastSeen;
    forall k | k in f'.buf
      ensures f'.buf[k].start == k && Wrap(k) in g'.buf && g'.buf[Wrap(k)] == WrapSegment(f'.buf[k])
    {
      hide Simulates, Wrap, SetAside;
      AsideForward(f, g, s, k);
    }
    forall q | q in g'.buf ensures IsSeq(q) && Lift(f'.next, q) in f'.buf {
      hide Simulates, Lift, SetAside;
      AsideBackward(f, g, s, q);
    }
    ShowSimulates(f', g');
    hide Simulates;
    SameSize(f', g');
  }

  lemma ShowSimulates(f: Flow, g: Flow)
    requires g.next == Wrap(f.next) && g.lastSeen == f.lastSeen
    requires forall k :: k in f.buf ==> f.buf[k].start == k && Wrap(k) in g.buf && g.buf[Wrap(k)] == WrapSegment(f.buf[k])
    requires forall s :: s in g.buf ==> IsSeq(s) && Lift(f.next, s) in f.buf
    ensures Simulates(f, g)
  {
  }

  lemma NothingSwept()
    ensures SimulatesHeld(map[], map[])
  {
  }

  lemma HoldSimulates(cfg: Config, f: Flow, g: Flow, s: Segment)
    requires Simulates(f, g) && Near(f) && Reachable(s.start - f.next)
    requires |SetAside(f, s).buf| > cfg.window ==> SkipNear(SetAside(f, s))
    ensures SimulatesOutcome(Hold(Unbounded, cfg, f, s), Hold(Wrapping, cfg, g, WrapSegment(s)))
  {
    SetAsideSimulates(f, g, s);
    hide Wrap, Simulates, SkipGap, SetAside, SimulatesHeld;
    NothingSwept();
    assert WrapAll([s]) == [WrapSegment(s)];
    var f', g' := SetAside(f, s), SetAside(g, WrapSegment(s));
    if |f'.buf| > cfg.window {
      SkipGapSimulates(f', g');
      PartSimulates(f', g', SkipGap(Unbounded, f').adv.swept, SkipGap(Wrapping, g').adv.swept);
    }
  }

  lemma DeliverSimulates(f: Flow, g: Flow, s: Segment)
    requires Simulates(f, g) && Near(f) && DrainNear(f.(next := s.end))
    ensures SimulatesOutcome(Deliver(f, s), Deliver(g, WrapSegment(s)))
  {
    var f', g' := f.(next := s.end), g.(next := Wrap(s.end));
    SimulatesPart(f, g, f', g');
    hide Wrap, Simulates, Drain;
    DrainSimulates(f', g');
    assert WrapAll([s] + Drain(f').out) == [WrapSegment(s)] + WrapAll(Drain(f').out);
  }

  lemma PrimedSimulates(o: Option<Flow>, p: Option<Flow>, s: Segment, now: int)
    requires SimulatesOption(o, p)
    ensures Simulates(Primed(o, s, now), Primed(p, WrapSegment(s), now))
    ensures Primed(p, WrapSegment(s), now).next == Wrap(Primed(o, s, now).next)
  {
    hide Wrap, Dist, Lift;
    if o.Some? {
      var f, g := o.value, p.value;
      forall k | k in g.buf ensures IsSeq(k) && Lift(f.next, k) in f.buf {
        WrapOfHeld(f, g, k);
      }
    }
  }

  lemma ArriveSimulates(cfg: Config, o: Option<Flow>, p: Option<Flow>, s: Segment, now: int)
    requires SimulatesOption(o, p) && ReactNear(cfg, o, Arrival(s, now))
    ensures SimulatesOutcome(Arrive(Unbounded, cfg, o, s, now), Arrive(Wrapping, cfg, p, WrapSegment(s), now))
  {
    hide Wrap, Dist, Simulates, Deliver, Hold;
    var w := WrapSegment(s);
    var f, g := Primed(o, s, now), Primed(p, w, now);
    PrimedSimulates(o, p, s, now);
    DistOfWrapped(s.start, f.next);
    if s.start == f.next {
      DeliverSimulates(f, g, s);
    } else if s.start < f.next {
      assert WrapAll([s]) == [w] && WrapAll([]) == [];
    } else {
      HoldSimulates(cfg, f, g, s);
    }
  }

  /** One step of the 32-bit flow is the unbounded step modulo 2^32. */
  lemma ReactSimulates(cfg: Config, o: Option<Flow>, p: Option<Flow>, e: FlowEvent)
    requires SimulatesOption(o, p) && ReactNear(cfg, o, e)
    ensures SimulatesOutcome(React(Unbounded, cfg, o, e), React(Wrapping, cfg, p, WrapEvent(e)))
  {
    match e
    case Arrival(s, now) => ArriveSimulates(cfg, o, p, s, now);
    case Flush(now) =>
      if o.Some? && Idle(cfg, o.value, now) {
        FlushSimulates(o.value, p.value);
        hide Simulates, SamePart;
        NearFirst(o.value);
        PartSimulates(o.value, p.value, FlushAll(Unbounded, o.value).swept, FlushAll(Wrapping, p.value).swept);
      }
  }

  ghost predicate SimulatesLedger(a: Ledger, b: Ledger) {
    && SimulatesOption(a.flow, b.flow)
    && b.out == WrapAll(a.out) && b.epochs == WrapGroups(a.epochs) && b.dropped == WrapAll(a.dropped)
    && SimulatesBag(a.swept, b.swept)
  }

  ghost function WrapGroups(gs: seq<seq<Segment>>): (ws: seq<seq<Segment>>)
    ensures |ws| == |gs| && forall i :: 0 <= i < |gs| ==> ws[i] == WrapAll(gs[i])
  {
    seq(|gs|, i requires 0 <= i < |gs| => WrapAll(gs[i]))
  }

  /** The same segments modulo 2^32, equally often. */
  ghost predicate SimulatesBag(a: multiset<Segment>, b: multiset<Segment>) {
    exists xs :: ListsBoth(xs, a, b)
  }

  ghost predicate ListsBoth(xs: seq<Segment>, a: multiset<Segment>, b: multiset<Segment>) {
    a == multiset(xs) && b == multiset(WrapAll(xs))
  }

  lemma BagJoin(a: multiset<Segment>, b: multiset<Segment>, c: multiset<Segment>, d: multiset<Segment>)
    requires SimulatesBag(a, b) && SimulatesBag(c, d)
    ensures SimulatesBag(a + c, b + d)
  {
    hide WrapSegment;
    var xs :| ListsBoth(xs, a, b);
    var ys :| ListsBoth(ys, c, d);
    assert WrapAll(xs + ys) == WrapAll(xs) + WrapAll(ys);
    assert ListsBoth(xs + ys, a + c, b + d);
  }

  lemma BagEmpty(a: multiset<Segment>, b: multiset<Segment>)
    requires SimulatesBag(a, b)
    ensures a == multiset{} <==> b == multiset{}
  {
    var xs :| ListsBoth(xs, a, b);
    assert |a| == |xs| && |b| == |xs|;
  }

  lemma {:induction false} HeldBag(a: Held, b: Held)
    requires SimulatesHeld(a, b)
    ensures SimulatesBag(multiset(a.Values), multiset(b.Values))
    decreases a.Keys
  {
    if a == map[] {
      assert b == map[] by { assert forall s :: s !in b; }
      assert ListsBoth([], multiset(a.Values), multiset(b.Values));
    } else {
      var k := Pick(a.Keys);
      var a', b' := a - {k}, b - {Wrap(k)};
      SimulatesLess(a, b, k);
      HeldBag(a', b');
      hide SimulatesHeld, Wrap, SimulatesBag;
      OneBag(a[k]);
      BagJoin(multiset(a'.Values), multiset(b'.Values), multiset{a[k]}, multiset{WrapSegment(a[k])});
    }
  }

  lemma OneBag(x: Segment)
    ensures SimulatesBag(multiset{x}, multiset{WrapSegment(x)})
  {
    assert WrapAll([x]) == [WrapSegment(x)];
    assert ListsBoth([x], multiset{x}, multiset{WrapSegment(x)});
  }

  lemma SimulatesLess(a: Held, b: Held, k: int)
    requires SimulatesHeld(a, b) && k in a
    ensures Wrap(k) in b && b[Wrap(k)] == WrapSegment(a[k]) && SimulatesHeld(a - {k}, b - {Wrap(k)})
    ensures multiset(a.Values) == multiset((a - {k}).Values) + multiset{a[k]}
    ensures multiset(b.Values) == multiset((b - {Wrap(k)}).Values) + multiset{WrapSegment(a[k])}
  {
    hide Wrap;
    var a', b' := a - {k}, b - {Wrap(k)};
    forall s | s in b' ensures exists j :: j in a' && Wrap(j) == s {
      var j :| j in a && Wrap(j) == s;
      assert j in a';
    }
    forall s | s in b ensures b[s].start == s {
      var j :| j in a && Wrap(j) == s;
    }
    forall j | j in a ensures a[j].start == j { assert j in a && Wrap(j) in b; }
    RemoveValue(a, k);
    RemoveValue(b, Wrap(k));
  }

  lemma RecordSimulates(a: Ledger, b: Ledger, e: FlowEvent, x: Outcome, y: Outcome)
    requires SimulatesLedger(a, b) && SimulatesOutcome(x, y)
    ensures SimulatesLedger(Record(a, e, x), Record(b, WrapEvent(e), y))
  {
    hide SimulatesBag, SimulatesHeld, Simulates, WrapSegment;
    assert WrapAll(a.out + x.passed + x.delivered) == b.out + y.passed + y.delivered;
    assert WrapAll(a.dropped + x.dropped) == b.dropped + y.dropped;
    ExtendSimulates(a.epochs, e.Arrival? && a.flow.None?, x.delivered);
    HeldBag(x.swept, y.swept);
    BagJoin(a.swept, b.swept, multiset(x.swept.Values), multiset(y.swept.Values));
  }

  lemma ExtendSimulates(gs: seq<seq<Segment>>, opens: bool, more: seq<Segment>)
    ensures WrapGroups(Extend(gs, opens, more)) == Extend(WrapGroups(gs), opens, WrapAll(more))
  {
    hide WrapSegment;
    if !opens && gs != [] {
      var last := gs[|gs| - 1];
      assert WrapAll(last + more) == WrapAll(last) + WrapAll(more);
    }
  }

  /** Refinement: over any history within range, the 32-bit flow emits exactly what the
      unbounded flow emits and holds exactly what it holds, modulo 2^32. */
  lemma {:induction false} RunSimulates(cfg: Config, es: seq<FlowEvent>)
    requires RunNear(cfg, es)
    ensures SimulatesLedger(Run(Unbounded, cfg, es), Run(Wrapping, cfg, WrapEvents(es)))
  {
    hide Wrap, Simulates, React, ReactNear, Record;
    if es == [] {
      assert ListsBoth([], multiset{}, multiset{});
    } else {
      var init, e := es[..|es| - 1], es[|es| - 1];
      RunSimulates(cfg, init);
      assert WrapEvents(es)[..|es| - 1] == WrapEvents(init);
      var a, b := Run(Unbounded, cfg, init), Run(Wrapping, cfg, WrapEvents(init));
      ReactSimulates(cfg, a.flow, b.flow, e);
      RecordSimulates(a, b, e, React(Unbounded, cfg, a.flow, e), React(Wrapping, cfg, b.flow, WrapEvent(e)));
    }
  }

  /** Within range the 32-bit flow attributes each emission to the same record. */
  lemma {:induction false} SourcesSimulate(cfg: Config, es: seq<FlowEvent>)
    requires RunNear(cfg, es)
    ensures Sources(Wrapping, cfg, WrapEvents(es)) == Sources(Unbounded, cfg, es)
  {
    hide Wrap, Simulates, React, ReactNear, Record, SimulatesHeld, SimulatesBag;
    if es != [] {
      var init, e := es[..|es| - 1], es[|es| - 1];
      SourcesSimulate(cfg, init);
      RunSimulates(cfg, init);
      RunSimulates(cfg, es);
      assert WrapEvents(es)[..|es| - 1] == WrapEvents(init);
      ReactSimulates(cfg, Run(Unbounded, cfg, init).flow, Run(Wrapping, cfg, WrapEvents(init)).flow, e);
    }
  }

  /** Whole-run order of the 32-bit flow, within range: what it emits are the wraps of segments
      `us` at true positions, and of any two that one record delivered the later one starts at
      or after the end of the earlier one. */
  lemma WrappedDeliveriesIncrease(cfg: Config, es: seq<FlowEvent>) returns (us: seq<Segment>)
    requires SoundEvents(Unbounded, es) && RunNear(cfg, es)
    ensures var l, sources := Run(Wrapping, cfg, WrapEvents(es)), Sources(Wrapping, cfg, WrapEvents(es));
      && l.out == WrapAll(us) && |sources| == |us|
      && (forall i :: 0 <= i < |us| ==> us[i] in Arrivals(es) && us[i].start < us[i].end)
      && (forall i, j :: 0 <= i < j < |us| && sources[i].Some? && sources[i] == sources[j] ==> us[i].end <= us[j].start)
  {
    hide Run, Sources, Simulates, SimulatesBag, RunNear, Arrivals, Count;
    var u := Run(Unbounded, cfg, es);
    us := u.out;
    RunSimulates(cfg, es);
    SourcesSimulate(cfg, es);
    EmissionsSourced(Unbounded, cfg, es);
    forall i | 0 <= i < |us| ensures us[i] in Arrivals(es) && us[i].start < us[i].end {
      RunAccounts(Unbounded, cfg, es, us[i]);
      CountPositive(us, us[i]);
      CountPositive(Arrivals(es), us[i]);
      ArrivalsSound(Unbounded, es, us[i]);
    }
    var sources := Sources(Unbounded, cfg, es);
    forall i, j | 0 <= i < j < |us| && sources[i].Some? && sources[i] == sources[j]
      ensures us[i].end <= us[j].start
    {
      EmissionsIncrease(cfg, es, i, j);
    }
  }
}
