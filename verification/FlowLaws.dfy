/** Laws every history of a flow obeys, in either arithmetic and with no assumption on how the
    stream was cut: the bound on the buffer, the accounting of packets, and the order of
    deliveries. */
module FlowLaws {
  import opened Collections
  import opened Serial
  import opened FlowModel

  /** What a parsed segment satisfies: 32-bit numbers, or a non-empty range of positions. */
  predicate ValidSegment(m: Arith, s: Segment) {
    match m
    case Wrapping => IsSeq(s.start) && IsSeq(s.end)
    case Unbounded => s.start < s.end
  }

  /** Held segments are filed under their own start. */
  ghost predicate Keyed(m: Arith, buf: Held) {
    forall k :: k in buf ==> buf[k].start == k && ValidSegment(m, buf[k])
  }

  /** The invariant of a flow record. */
  ghost predicate Sound(m: Arith, cfg: Config, f: Flow) {
    && Keyed(m, f.buf)
    && f.next !in f.buf
    && |f.buf| <= cfg.window
    && (m.Wrapping? ==> IsSeq(f.next))
  }

  ghost predicate SoundEvent(m: Arith, e: FlowEvent) {
    e.Arrival? ==> ValidSegment(m, e.seg)
  }

  ghost predicate SoundEvents(m: Arith, es: seq<FlowEvent>) {
    forall i :: 0 <= i < |es| ==> SoundEvent(m, es[i])
  }

  // ---------------------------------------------------------------- bounds

  lemma {:induction false} DrainSound(m: Arith, f: Flow)
    requires Keyed(m, f.buf) && (m.Wrapping? ==> IsSeq(f.next))
    ensures Keyed(m, Drain(f).flow.buf) && (m.Wrapping? ==> IsSeq(Drain(f).flow.next))
    decreases f.buf.Keys
  {
    if f.next in f.buf {
      DrainSound(m, f.(next := f.buf[f.next].end, buf := f.buf - {f.next}));
    }
  }

  lemma SkipGapSound(m: Arith, f: Flow)
    requires Keyed(m, f.buf) && (m.Wrapping? ==> IsSeq(f.next))
    ensures Keyed(m, SkipGap(m, f).adv.flow.buf)
    ensures m.Wrapping? ==> IsSeq(SkipGap(m, f).adv.flow.next)
  {
    var fut := Future(m, f);
    if fut != map[] {
      var k := Nearest(m, f.next, fut.Keys);
      DrainSound(m, f.(next := fut[k].end, buf := fut - {k}));
    }
  }

  lemma SetAsideSound(m: Arith, f: Flow, s: Segment)
    requires Keyed(m, f.buf) && ValidSegment(m, s) && Gap(m, s.start, f.next) > 0 && f.next !in f.buf
    ensures var g := SetAside(f, s); Keyed(m, g.buf) && f.next !in g.buf && SkipGap(m, g).found
    ensures |SetAside(f, s).buf| <= |f.buf| + 1
  {
    assert s.start != f.next;
    hide Gap, Drain, Nearest;
    var g := SetAside(f, s);
    if s.start !in f.buf { InsertSize(f.buf, s.start, s); }
    assert s.start in Future(m, g);
  }

  lemma HoldSound(m: Arith, cfg: Config, f: Flow, s: Segment)
    requires Sound(m, cfg, f) && ValidSegment(m, s) && Gap(m, s.start, f.next) > 0
    ensures Sound(m, cfg, Hold(m, cfg, f, s).flow.value)
  {
    var g := SetAside(f, s);
    SetAsideSound(m, f, s);
    assert g.next == f.next;
    hide SetAside, SkipGap, Keyed, Gap;
    SkipGapSound(m, g);
    SubMapSize(SkipGap(m, g).adv.flow.buf, g.buf);
  }

  /** Every step keeps the invariant: at most `window` segments held, none of them the next
      expected one. */
  lemma ReactSound(m: Arith, cfg: Config, o: Option<Flow>, e: FlowEvent)
    requires o.Some? ==> Sound(m, cfg, o.value)
    requires SoundEvent(m, e)
    ensures var r := React(m, cfg, o, e); r.flow.Some? ==> Sound(m, cfg, r.flow.value)
  {
    if e.Arrival? {
      var s := e.seg;
      var f := Primed(o, s, e.now);
      var d := Gap(m, s.start, f.next);
      if d == 0 {
        var g := f.(next := s.end);
        DrainSound(m, g);
        SubMapSize(Drain(g).flow.buf, g.buf);
      } else if d > 0 {
        HoldSound(m, cfg, f, s);
      }
    }
  }

  /** Numbers stay filed under themselves whatever the size of the buffer. */
  lemma KeptKeyed(cfg: Config, o: Option<Flow>, e: FlowEvent)
    requires o.Some? ==> Keyed(Wrapping, o.value.buf)
    requires SoundEvent(Wrapping, e)
    ensures var r := React(Wrapping, cfg, o, e); r.flow.Some? ==> Keyed(Wrapping, r.flow.value.buf)
  {
    if e.Arrival? {
      var f := Primed(o, e.seg, e.now);
      hide Gap, Drain, SkipGap;
      var g := SetAside(f, e.seg);
      assert Keyed(Wrapping, f.buf) && Keyed(Wrapping, g.buf);
      hide SetAside;
      PartKeyed(Drain(f.(next := e.seg.end)).flow.buf, f.buf);
      PartKeyed(SkipGap(Wrapping, g).adv.flow.buf, g.buf);
      hide Keyed;
    }
  }

  lemma PartKeyed(part: Held, buf: Held)
    requires SubMap(part, buf) && Keyed(Wrapping, buf)
    ensures Keyed(Wrapping, part)
  {
  }

  lemma {:induction false} RunSound(m: Arith, cfg: Config, es: seq<FlowEvent>)
    requires SoundEvents(m, es)
    ensures var l := Run(m, cfg, es); l.flow.Some? ==> Sound(m, cfg, l.flow.value)
  {
    if es != [] {
      var init := es[..|es| - 1];
      RunSound(m, cfg, init);
      ReactSound(m, cfg, Run(m, cfg, init).flow, es[|es| - 1]);
    }
  }

  // ---------------------------------------------------------------- accounting

  /** How often a packet occurs in a sequence. */
  ghost function Count(xs: seq<Segment>, x: Segment): nat {
    if xs == [] then 0 else (if xs[0] == x then 1 else 0) + Count(xs[1..], x)
  }

  lemma {:induction false} CountAppend(xs: seq<Segment>, ys: seq<Segment>, x: Segment)
    ensures Count(xs + ys, x) == Count(xs, x) + Count(ys, x)
  {
    if xs == [] {
      assert xs + ys == ys;
    } else {
      CountAppend(xs[1..], ys, x);
      assert (xs + ys)[1..] == xs[1..] + ys;
    }
  }

  /** How often a packet is held: never or once. */
  ghost function Copies(buf: Held, x: Segment): nat {
    if x.start in buf && buf[x.start] == x then 1 else 0
  }

  ghost function HeldCopies(o: Option<Flow>, x: Segment): nat {
    if o.Some? then Copies(o.value.buf, x) else 0
  }

  lemma CopiesOfValues(m: Arith, buf: Held, x: Segment)
    requires Keyed(m, buf)
    ensures multiset(buf.Values)[x] == Copies(buf, x)
  {
    if x in buf.Values {
      var k := KeyOfValue(buf, x);
    }
  }

  lemma {:induction false} DrainAccounts(m: Arith, f: Flow, x: Segment)
    requires Keyed(m, f.buf)
    ensures Copies(f.buf, x) == Copies(Drain(f).flow.buf, x) + Count(Drain(f).out, x)
    decreases f.buf.Keys
  {
    if f.next in f.buf {
      DrainAccounts(m, f.(next := f.buf[f.next].end, buf := f.buf - {f.next}), x);
    }
  }

  lemma SkipGapAccounts(m: Arith, f: Flow, x: Segment)
    requires Keyed(m, f.buf)
    ensures var a := SkipGap(m, f).adv;
      Copies(f.buf, x) == Copies(a.flow.buf, x) + Count(a.out, x) + Copies(a.swept, x)
    ensures Keyed(m, SkipGap(m, f).adv.swept)
  {
    var fut := Future(m, f);
    if fut != map[] {
      var k := Nearest(m, f.next, fut.Keys);
      DrainAccounts(m, f.(next := fut[k].end, buf := fut - {k}), x);
    }
  }

  lemma {:induction false} FlushAccounts(m: Arith, f: Flow, x: Segment)
    requires Keyed(m, f.buf)
    ensures var a := FlushAll(m, f); Copies(f.buf, x) == Count(a.out, x) + Copies(a.swept, x)
    decreases f.buf.Keys
  {
    if f.buf != map[] {
      SkipGapAccounts(m, f, x);
      var k := SkipGap(m, f);
      if k.found {
        FlushAccounts(m, k.adv.flow, x);
        CountAppend(k.adv.out, FlushAll(m, k.adv.flow).out, x);
      }
    }
  }

  lemma DeliverAccounts(m: Arith, f: Flow, s: Segment, x: Segment)
    requires Keyed(m, f.buf)
    ensures var r := Deliver(f, s);
      Copies(f.buf, x) + Count([s], x) == HeldCopies(r.flow, x) + Count(r.delivered, x)
    ensures Deliver(f, s).dropped == [] && Deliver(f, s).swept == map[]
  {
    hide Drain;
    DrainAccounts(m, f.(next := s.end), x);
    CountAppend([s], Drain(f.(next := s.end)).out, x);
  }

  lemma HoldAccounts(m: Arith, cfg: Config, f: Flow, s: Segment, x: Segment)
    requires Keyed(m, f.buf) && ValidSegment(m, s)
    ensures var r := Hold(m, cfg, f, s);
      Copies(f.buf, x) + Count([s], x)
      == HeldCopies(r.flow, x) + Count(r.delivered, x) + Count(r.dropped, x) + Copies(r.swept, x)
    ensures Keyed(m, Hold(m, cfg, f, s).swept)
  {
    var g := SetAside(f, s);
    assert Keyed(m, g.buf);
    assert Copies(g.buf, x) == Copies(f.buf, x) + if s.start in f.buf then 0 else Count([s], x);
    hide SetAside, SkipGap, Keyed;
    SkipGapAccounts(m, g, x);
  }

  lemma ArriveAccounts(m: Arith, cfg: Config, o: Option<Flow>, s: Segment, now: int, x: Segment)
    requires o.Some? ==> Keyed(m, o.value.buf)
    requires ValidSegment(m, s)
    ensures var r := Arrive(m, cfg, o, s, now);
      HeldCopies(o, x) + Count([s], x)
      == HeldCopies(r.flow, x) + Count(r.passed, x) + Count(r.delivered, x) + Count(r.dropped, x) + Copies(r.swept, x)
    ensures Keyed(m, Arrive(m, cfg, o, s, now).swept)
  {
    hide Gap, Deliver, Hold;
    var f := Primed(o, s, now);
    assert HeldCopies(o, x) == Copies(f.buf, x);
    var d := Gap(m, s.start, f.next);
    if d == 0 {
      DeliverAccounts(m, f, s, x);
    } else if d > 0 {
      HoldAccounts(m, cfg, f, s, x);
    }
  }

  /** One step neither creates nor forgets a packet. */
  lemma ReactAccounts(m: Arith, cfg: Config, o: Option<Flow>, e: FlowEvent, x: Segment)
    requires o.Some? ==> Keyed(m, o.value.buf)
    requires SoundEvent(m, e)
    ensures var r := React(m, cfg, o, e);
      HeldCopies(o, x) + Count(Arrivals([e]), x)
      == HeldCopies(r.flow, x) + Count(r.passed, x) + Count(r.delivered, x) + Count(r.dropped, x) + Copies(r.swept, x)
    ensures Keyed(m, React(m, cfg, o, e).swept)
  {
    hide Arrive, FlushAll;
    match e
    case Flush(now) =>
      if o.Some? && Idle(cfg, o.value, now) {
        FlushAccounts(m, o.value, x);
      }
    case Arrival(s, now) =>
      ArriveAccounts(m, cfg, o, s, now, x);
      assert Arrivals([e]) == [s];
  }

  ghost function Accounted(l: Ledger, x: Segment): int {
    Count(l.out, x) + HeldCopies(l.flow, x) + Count(l.dropped, x) + l.swept[x]
  }

  lemma RecordAccounts(m: Arith, l: Ledger, e: FlowEvent, r: Outcome, x: Segment)
    requires Keyed(m, r.swept)
    ensures Accounted(Record(l, e, r), x) - Accounted(l, x)
      == HeldCopies(r.flow, x) - HeldCopies(l.flow, x)
         + Count(r.passed, x) + Count(r.delivered, x) + Count(r.dropped, x) + Copies(r.swept, x)
  {
    CopiesOfValues(m, r.swept, x);
    CountAppend(l.out, r.passed, x);
    CountAppend(l.out + r.passed, r.delivered, x);
    CountAppend(l.dropped, r.dropped, x);
  }

  /** Accounting over every history: each pushed packet has been emitted, is held, was ignored
      as already held, or was swept, and nothing else is any of these. */
  lemma {:induction false} RunAccounts(m: Arith, cfg: Config, es: seq<FlowEvent>, x: Segment)
    requires SoundEvents(m, es)
    ensures var l := Run(m, cfg, es);
      Count(Arrivals(es), x) == Count(l.out, x) + HeldCopies(l.flow, x) + Count(l.dropped, x) + l.swept[x]
  {
    if es != [] {
      var init, e := es[..|es| - 1], es[|es| - 1];
      RunAccounts(m, cfg, init, x);
      RunSound(m, cfg, init);
      var l := Run(m, cfg, init);
      var r := React(m, cfg, l.flow, e);
      ReactAccounts(m, cfg, l.flow, e, x);
      RecordAccounts(m, l, e, r, x);
      assert Accounted(Run(m, cfg, es), x) == Accounted(l, x) + Count(Arrivals([e]), x);
      CountAppend(Arrivals(init), Arrivals([e]), x);
      assert Arrivals(es) == Arrivals(init) + Arrivals([e]);
    }
  }

  lemma {:induction false} CountPositive(xs: seq<Segment>, x: Segment)
    ensures Count(xs, x) > 0 <==> x in xs
  {
    if xs != [] { CountPositive(xs[1..], x); }
  }

  lemma HeldArrived(m: Arith, cfg: Config, es: seq<FlowEvent>, k: int)
    requires SoundEvents(m, es)
    requires var l := Run(m, cfg, es); l.flow.Some? && k in l.flow.value.buf
    ensures Run(m, cfg, es).flow.value.buf[k] in Arrivals(es)
  {
    var l := Run(m, cfg, es);
    var x := l.flow.value.buf[k];
    RunSound(m, cfg, es);
    RunAccounts(m, cfg, es, x);
    CountPositive(Arrivals(es), x);
  }

  lemma {:induction false} ArrivalsSound(m: Arith, es: seq<FlowEvent>, x: Segment)
    requires SoundEvents(m, es) && x in Arrivals(es)
    ensures ValidSegment(m, x)
  {
    var e := es[|es| - 1];
    assert SoundEvent(m, e);
    if x in Arrivals(es[..|es| - 1]) { ArrivalsSound(m, es[..|es| - 1], x); }
  }

  // ---------------------------------------------------------------- order

  /** `out` can be delivered in order from `from`, ending at `to`: each segment starts at or
      ahead of the end of the one before. */
  ghost predicate Path(m: Arith, from: int, out: seq<Segment>, to: int)
    decreases out
  {
    if out == [] then from == to
    else ValidSegment(m, out[0]) && Gap(m, out[0].start, from) >= 0 && Path(m, out[0].end, out[1..], to)
  }

  lemma {:induction false} PathAppend(m: Arith, a: int, xs: seq<Segment>, b: int, ys: seq<Segment>, c: int)
    requires Path(m, a, xs, b) && Path(m, b, ys, c)
    ensures Path(m, a, xs + ys, c)
    decreases xs
  {
    if xs == [] {
      assert xs + ys == ys;
    } else {
      PathAppend(m, xs[0].end, xs[1..], b, ys, c);
      assert (xs + ys)[1..] == xs[1..] + ys;
    }
  }

  lemma {:induction false} DrainPath(m: Arith, f: Flow)
    requires Keyed(m, f.buf)
    ensures Path(m, f.next, Drain(f).out, Drain(f).flow.next)
    decreases f.buf.Keys
  {
    if f.next in f.buf {
      DrainPath(m, f.(next := f.buf[f.next].end, buf := f.buf - {f.next}));
    }
  }

  lemma SkipGapPath(m: Arith, f: Flow)
    requires Keyed(m, f.buf)
    ensures var a := SkipGap(m, f).adv; Path(m, f.next, a.out, a.flow.next)
  {
    var fut := Future(m, f);
    if fut != map[] {
      var k := Nearest(m, f.next, fut.Keys);
      DrainPath(m, f.(next := fut[k].end, buf := fut - {k}));
    }
  }

  lemma {:induction false} FlushPath(m: Arith, f: Flow)
    requires Keyed(m, f.buf)
    ensures Path(m, f.next, FlushAll(m, f).out, FlushAll(m, f).flow.next)
    decreases f.buf.Keys
  {
    if f.buf != map[] {
      SkipGapPath(m, f);
      var k := SkipGap(m, f);
      if k.found {
        FlushPath(m, k.adv.flow);
        PathAppend(m, f.next, k.adv.out, k.adv.flow.next, FlushAll(m, k.adv.flow).out, FlushAll(m, f).flow.next);
      }
    }
  }

  /** A pass-through changes neither the next expected number nor the held segments, and is the
      only thing its step emits. */
  lemma PassThroughInert(m: Arith, cfg: Config, o: Option<Flow>, e: FlowEvent)
    requires React(m, cfg, o, e).passed != []
    ensures var r := React(m, cfg, o, e);
      && e.Arrival? && o.Some? && Gap(m, e.seg.start, o.value.next) < 0
      && r.passed == [e.seg] && r.delivered == [] && r.dropped == [] && r.swept == map[]
      && r.flow == Some(o.value.(lastSeen := e.now))
  {
  }

  lemma HoldPath(m: Arith, cfg: Config, f: Flow, s: Segment)
    requires Keyed(m, f.buf) && ValidSegment(m, s)
    ensures var r := Hold(m, cfg, f, s); Path(m, f.next, r.delivered, r.flow.value.next)
  {
    SkipGapPath(m, SetAside(f, s));
  }

  lemma ReactPath(m: Arith, cfg: Config, o: Option<Flow>, e: FlowEvent)
    requires o.Some? ==> Keyed(m, o.value.buf)
    requires SoundEvent(m, e)
    requires o.Some? || e.Arrival?
    ensures var r := React(m, cfg, o, e);
      var from := if o.Some? then o.value.next else e.seg.start;
      if r.flow.Some? then Path(m, from, r.delivered, r.flow.value.next)
      else exists to :: Path(m, from, r.delivered, to)
  {
    hide Hold, FlushAll;
    match e
    case Flush(now) => FlushPath(m, o.value);
    case Arrival(s, now) =>
      var f := Primed(o, s, now);
      var d := Gap(m, s.start, f.next);
      if d == 0 {
        DrainPath(m, f.(next := s.end));
      } else if d > 0 {
        HoldPath(m, cfg, f, s);
      }
  }

  /** A group of deliveries in order from its own first segment. */
  ghost predicate Ordered(m: Arith, group: seq<Segment>) {
    group != [] && exists to :: Path(m, group[0].start, group, to)
  }

  ghost predicate OrderedHistory(m: Arith, l: Ledger) {
    && (forall i :: 0 <= i < |l.epochs| ==> Ordered(m, l.epochs[i]))
    && (l.flow.Some? ==>
          l.epochs != [] && Path(m, l.epochs[|l.epochs| - 1][0].start, l.epochs[|l.epochs| - 1], l.flow.value.next))
  }

  /** Without a record a flush does nothing, and an arriving segment is the first to come out. */
  lemma FreshReaction(m: Arith, cfg: Config, e: FlowEvent)
    ensures var r := React(m, cfg, None, e);
      && r.passed == []
      && if e.Arrival? then r.delivered != [] && r.delivered[0] == e.seg else r.flow.None? && r.delivered == []
  {
    hide Drain, Hold, FlushAll;
  }

  lemma RecordOrdered(m: Arith, cfg: Config, l: Ledger, e: FlowEvent)
    requires l.flow.Some? ==> Keyed(m, l.flow.value.buf)
    requires SoundEvent(m, e) && OrderedHistory(m, l)
    ensures OrderedHistory(m, Record(l, e, React(m, cfg, l.flow, e)))
  {
    hide React, Keyed;
    var r := React(m, cfg, l.flow, e);
    var l' := Record(l, e, r);
    if l.flow.None? {
      FreshReaction(m, cfg, e);
      if e.Arrival? {
        ReactPath(m, cfg, l.flow, e);
      } else {
        assert l'.epochs == l.epochs by {
          if l.epochs != [] { assert l.epochs[|l.epochs| - 1] + [] == l.epochs[|l.epochs| - 1]; }
        }
      }
    } else {
      ReactPath(m, cfg, l.flow, e);
      var last := l.epochs[|l.epochs| - 1];
      assert l'.epochs[|l'.epochs| - 1] == last + r.delivered;
      var to :| Path(m, l.flow.value.next, r.delivered, to) && (r.flow.Some? ==> to == r.flow.value.next);
      PathAppend(m, last[0].start, last, l.flow.value.next, r.delivered, to);
      assert Ordered(m, last);
    }
  }

  /** Whole-run order: between priming and reaping the deliveries of a flow follow each other in
      sequence space, across window overflows, flushes and wraparound. */
  lemma {:induction false} RunOrdered(m: Arith, cfg: Config, es: seq<FlowEvent>)
    requires SoundEvents(m, es)
    ensures OrderedHistory(m, Run(m, cfg, es))
  {
    if es != [] {
      var init := es[..|es| - 1];
      RunOrdered(m, cfg, init);
      RunSound(m, cfg, init);
      RecordOrdered(m, cfg, Run(m, cfg, init), es[|es| - 1]);
    }
  }

  // ---------------------------------------------------------------- unbounded positions

  /** The bytes a segment covers, modulo 2^32. */
  function Length(s: Segment): (n: int)
    ensures 0 <= n < 0x1_0000_0000
  {
    Wrap(s.end - s.start)
  }

  /** A range of unbounded positions. */
  datatype Range = Range(lo: int, hi: int)

  /** The range stands for the segment: it begins and ends where the numbers say. */
  ghost predicate Covers(r: Range, s: Segment) {
    Wrap(r.lo) == s.start && Wrap(r.hi) == s.end && r.hi - r.lo == Length(s)
  }

  /** The ranges place the segments on the integers in order, each beginning where the one before
      ended or less than 2^31 positions further on. */
  ghost predicate Unrolls(rs: seq<Range>, group: seq<Segment>) {
    && |rs| == |group|
    && (forall i :: 0 <= i < |rs| ==> Covers(rs[i], group[i]))
    && (forall i :: 0 < i < |rs| ==> 0 <= rs[i].lo - rs[i - 1].hi < 0x8000_0000)
  }

  lemma LengthReachesEnd(p: int, s: Segment)
    requires Wrap(p) == s.start && IsSeq(s.end)
    ensures Covers(Range(p, p + Length(s)), s)
  {
    assert (p + Wrap(s.end - s.start)) % 0x1_0000_0000 == (p + s.end - s.start) % 0x1_0000_0000;
  }

  /** Unrolls a path of 32-bit deliveries onto the integers, starting at position `at`. */
  lemma {:induction false} PathPlaced(at: int, from: int, out: seq<Segment>, to: int) returns (rs: seq<Range>)
    requires Path(Wrapping, from, out, to) && Wrap(at) == from
    ensures Unrolls(rs, out) && (rs != [] ==> 0 <= rs[0].lo - at < 0x8000_0000)
    decreases out
  {
    rs := [];
    if out != [] {
      var p := at + Dist(out[0].start, from);
      WrapOfLift(out[0].start, at);
      var r := Range(p, p + Length(out[0]));
      LengthReachesEnd(p, out[0]);
      hide Wrap, Dist, Covers;
      var rest := PathPlaced(r.hi, out[0].end, out[1..], to);
      rs := PrependRange(r, rest, out);
    }
  }

  lemma PrependRange(r: Range, rest: seq<Range>, out: seq<Segment>) returns (rs: seq<Range>)
    requires out != [] && Covers(r, out[0]) && Unrolls(rest, out[1..])
    requires rest != [] ==> 0 <= rest[0].lo - r.hi < 0x8000_0000
    ensures rs == [r] + rest && Unrolls(rs, out)
  {
    hide Covers;
    rs := [r] + rest;
    forall i | 0 <= i < |rs| ensures Covers(rs[i], out[i]) {
      if i > 0 { assert rs[i] == rest[i - 1] && out[i] == out[1..][i - 1]; }
    }
    forall i | 0 < i < |rs| ensures 0 <= rs[i].lo - rs[i - 1].hi < 0x8000_0000 {
      if i > 1 { assert rs[i] == rest[i - 1] && rs[i - 1] == rest[i - 2]; }
    }
  }

  /** Only segments in serial order can be placed like that. */
  lemma {:induction false} PlacedPath(rs: seq<Range>, out: seq<Segment>)
    requires Unrolls(rs, out) && out != [] && forall i :: 0 <= i < |out| ==> ValidSegment(Wrapping, out[i])
    ensures Path(Wrapping, out[0].start, out, out[|out| - 1].end)
    decreases out
  {
    if |out| == 1 {
      assert out[1..] == [];
    } else {
      NextPlaced(rs[0], rs[1], out[0], out[1]);
      var rest, tail := rs[1..], out[1..];
      hide Covers, Wrap, Dist;
      assert forall i :: 0 <= i < |tail| ==> rest[i] == rs[i + 1] && tail[i] == out[i + 1];
      PlacedPath(rest, tail);
    }
  }

  lemma NextPlaced(q: Range, r: Range, s: Segment, t: Segment)
    requires Covers(q, s) && Covers(r, t) && 0 <= r.lo - q.hi < 0x8000_0000
    ensures Dist(t.start, s.end) >= 0
  {
    DistOfWrapped(r.lo, q.hi);
  }

  /** Placed ranges never overlap and never go back. */
  lemma {:induction false} UnrolledIncrease(rs: seq<Range>, group: seq<Segment>, i: nat, j: nat)
    requires Unrolls(rs, group) && i < j < |rs|
    ensures rs[i].hi <= rs[j].lo
    decreases j
  {
    if i + 1 < j {
      UnrolledIncrease(rs, group, i, j - 1);
      assert Covers(rs[j - 1], group[j - 1]);
    }
  }

  /** 32-bit deliveries are in serial order exactly when they can be placed on the integers. */
  lemma OrderedIsUnrolled(group: seq<Segment>)
    requires forall i :: 0 <= i < |group| ==> ValidSegment(Wrapping, group[i])
    ensures Ordered(Wrapping, group) <==> group != [] && exists rs :: Unrolls(rs, group)
  {
    hide Unrolls, Path;
    if Ordered(Wrapping, group) {
      var to :| Path(Wrapping, group[0].start, group, to);
      WrapOfSeq(group[0].start);
      var rs := PathPlaced(group[0].start, group[0].start, group, to);
    }
    if rs :| group != [] && Unrolls(rs, group) {
      PlacedPath(rs, group);
    }
  }

  /** The deliveries of a record of a 32-bit flow occupy successive ranges of unbounded sequence
      space, whatever arrives: each begins where the one before ended, or less than 2^31 ahead. */
  lemma DeliveriesSuccessive(cfg: Config, es: seq<FlowEvent>, i: nat) returns (rs: seq<Range>)
    requires SoundEvents(Wrapping, es) && i < |Run(Wrapping, cfg, es).epochs|
    ensures var group := Run(Wrapping, cfg, es).epochs[i];
      && Unrolls(rs, group)
      && (forall j :: 0 <= j < |rs| && Length(group[j]) > 0 ==> rs[j].lo < rs[j].hi)
      && (forall j, k :: 0 <= j < k < |rs| ==> rs[j].hi <= rs[k].lo)
  {
    RunOrdered(Wrapping, cfg, es);
    hide Run, Path;
    var group := Run(Wrapping, cfg, es).epochs[i];
    assert Ordered(Wrapping, group);
    rs := PlaceGroup(group);
  }

  lemma PlaceGroup(group: seq<Segment>) returns (rs: seq<Range>)
    requires Ordered(Wrapping, group)
    ensures Unrolls(rs, group)
    ensures forall j :: 0 <= j < |rs| && Length(group[j]) > 0 ==> rs[j].lo < rs[j].hi
    ensures forall j, k :: 0 <= j < k < |rs| ==> rs[j].hi <= rs[k].lo
  {
    var to :| Path(Wrapping, group[0].start, group, to);
    WrapOfSeq(group[0].start);
    hide Path, Wrap, Length;
    rs := PathPlaced(group[0].start, group[0].start, group, to);
    forall j, k | 0 <= j < k < |rs| ensures rs[j].hi <= rs[k].lo { UnrolledIncrease(rs, group, j, k); }
  }

  lemma {:induction false} PathIncreasing(from: int, out: seq<Segment>, to: int)
    requires Path(Unbounded, from, out, to)
    ensures forall i :: 0 <= i < |out| ==> from <= out[i].start
    ensures forall i, j :: 0 <= i < j < |out| ==> out[i].end <= out[j].start
    decreases out
  {
    if out != [] {
      PathIncreasing(out[0].end, out[1..], to);
    }
  }

  /** Over unbounded positions: each delivery of a record ends before the next one starts. */
  lemma DeliveriesIncrease(cfg: Config, es: seq<FlowEvent>, i: nat)
    requires SoundEvents(Unbounded, es) && i < |Run(Unbounded, cfg, es).epochs|
    ensures var group := Run(Unbounded, cfg, es).epochs[i];
      forall j, k :: 0 <= j < k < |group| ==> group[j].end <= group[k].start
  {
    RunOrdered(Unbounded, cfg, es);
    var group := Run(Unbounded, cfg, es).epochs[i];
    assert Ordered(Unbounded, group);
    var to :| Path(Unbounded, group[0].start, group, to);
    PathIncreasing(group[0].start, group, to);
  }

  // ---------------------------------------------------------------- who emitted what

  /** For each emission of a history, the number of the record that delivered it; none for a
      pass-through. */
  ghost function Sources(m: Arith, cfg: Config, es: seq<FlowEvent>): seq<Option<int>> {
    if es == [] then []
    else
      var l := Run(m, cfg, es[..|es| - 1]);
      var r := React(m, cfg, l.flow, es[|es| - 1]);
      Sources(m, cfg, es[..|es| - 1]) + Repeat(None, |r.passed|) +
      Repeat(Some(|Run(m, cfg, es).epochs| - 1), |r.delivered|)
  }

  ghost function Repeat<T>(x: T, n: nat): (xs: seq<T>)
    ensures |xs| == n && forall i :: 0 <= i < n ==> xs[i] == x
  {
    seq(n, _ => x)
  }

  /** The emissions of one record, in order. */
  ghost function By<T>(xs: seq<T>, sources: seq<Option<int>>, r: int): seq<T>
    requires |xs| == |sources|
  {
    if xs == [] then []
    else
      By(xs[..|xs| - 1], sources[..|xs| - 1], r) + if sources[|xs| - 1] == Some(r) then [xs[|xs| - 1]] else []
  }

  lemma {:induction false} ByAppend<T>(xs: seq<T>, a: seq<Option<int>>, ys: seq<T>, o: Option<int>, r: int)
    requires |xs| == |a|
    ensures By(xs + ys, a + Repeat(o, |ys|), r) == By(xs, a, r) + if o == Some(r) then ys else []
    decreases ys
  {
    if ys == [] {
      assert xs + ys == xs && a + Repeat(o, 0) == a;
    } else {
      var init, n := ys[..|ys| - 1], |ys| - 1;
      ByAppend(xs, a, init, o, r);
      assert (xs + ys)[..|xs| + n] == xs + init;
      assert (a + Repeat(o, n + 1))[..|a| + n] == a + Repeat(o, n);
    }
  }

  lemma {:induction false} ByAbsent<T>(xs: seq<T>, sources: seq<Option<int>>, r: int)
    requires |xs| == |sources| && Some(r) !in sources
    ensures By(xs, sources, r) == []
  {
    if xs != [] { ByAbsent(xs[..|xs| - 1], sources[..|xs| - 1], r); }
  }

  /** Two emissions of one record are found in the same order among its emissions. */
  lemma {:induction false} ByKeepsOrder<T>(xs: seq<T>, sources: seq<Option<int>>, r: int, i: nat, j: nat)
    returns (a: nat, b: nat)
    requires |xs| == |sources| && i < j < |xs| && sources[i] == sources[j] == Some(r)
    ensures a < b < |By(xs, sources, r)| && By(xs, sources, r)[a] == xs[i] && By(xs, sources, r)[b] == xs[j]
    decreases xs
  {
    var n := |xs| - 1;
    if j < n {
      a, b := ByKeepsOrder(xs[..n], sources[..n], r, i, j);
    } else {
      a := ByHas(xs[..n], sources[..n], r, i);
      b := |By(xs, sources, r)| - 1;
    }
  }

  lemma {:induction false} ByHas<T>(xs: seq<T>, sources: seq<Option<int>>, r: int, i: nat) returns (a: nat)
    requires |xs| == |sources| && i < |xs| && sources[i] == Some(r)
    ensures a < |By(xs, sources, r)| && By(xs, sources, r)[a] == xs[i]
    decreases xs
  {
    var n := |xs| - 1;
    if i < n {
      a := ByHas(xs[..n], sources[..n], r, i);
    } else {
      a := |By(xs, sources, r)| - 1;
    }
  }

  /** What `Sources` says of a ledger: the emissions are those of the records, and pass-throughs. */
  ghost predicate Sourced(l: Ledger, sources: seq<Option<int>>) {
    && |sources| == |l.out| && (l.flow.Some? ==> l.epochs != [])
    && (forall i :: 0 <= i < |sources| && sources[i].Some? ==> 0 <= sources[i].value < |l.epochs|)
    && (forall r :: 0 <= r < |l.epochs| ==> By(l.out, sources, r) == l.epochs[r])
  }

  lemma RecordSourced(l: Ledger, a: seq<Option<int>>, e: FlowEvent, x: Outcome)
    requires Sourced(l, a)
    requires l.flow.None? && !e.Arrival? ==> x.flow.None? && x.delivered == []
    ensures var l' := Record(l, e, x);
      Sourced(l', a + Repeat(None, |x.passed|) + Repeat(Some(|l'.epochs| - 1), |x.delivered|))
  {
    hide By;
    var l' := Record(l, e, x);
    var last := |l'.epochs| - 1;
    var mid := a + Repeat(None, |x.passed|);
    forall r | 0 <= r < |l'.epochs|
      ensures By(l'.out, mid + Repeat(Some(last), |x.delivered|), r) == l'.epochs[r]
    {
      ByAppend(l.out, a, x.passed, None, r);
      ByAppend(l.out + x.passed, mid, x.delivered, Some(last), r);
      if r == |l.epochs| { ByAbsent(l.out, a, r); }
    }
  }

  /** The emissions of a flow are the deliveries of its records, in order, and pass-throughs. */
  lemma {:induction false} EmissionsSourced(m: Arith, cfg: Config, es: seq<FlowEvent>)
    ensures Sourced(Run(m, cfg, es), Sources(m, cfg, es))
  {
    hide React, Record, Sourced;
    if es == [] {
      NothingSourced();
    } else {
      var init, e := es[..|es| - 1], es[|es| - 1];
      var l := Run(m, cfg, init);
      EmissionsSourced(m, cfg, init);
      if l.flow.None? { FreshReaction(m, cfg, e); }
      RecordSourced(l, Sources(m, cfg, init), e, React(m, cfg, l.flow, e));
    }
  }

  lemma NothingSourced()
    ensures Sourced(Ledger(None, [], [], [], multiset{}), [])
  {
  }

  /** Of two emissions delivered by one record the later one starts at or after the end of the
      earlier one. */
  lemma EmissionsIncrease(cfg: Config, es: seq<FlowEvent>, i: nat, j: nat)
    requires SoundEvents(Unbounded, es) && |Sources(Unbounded, cfg, es)| == |Run(Unbounded, cfg, es).out|
    requires var sources := Sources(Unbounded, cfg, es);
      i < j < |sources| && sources[i].Some? && sources[i] == sources[j]
    ensures var out := Run(Unbounded, cfg, es).out; out[i].end <= out[j].start
  {
    hide Run, Sources, By;
    EmissionsSourced(Unbounded, cfg, es);
    var l, sources := Run(Unbounded, cfg, es), Sources(Unbounded, cfg, es);
    var r := sources[i].value;
    var a, b := ByKeepsOrder(l.out, sources, r, i, j);
    DeliveriesIncrease(cfg, es, r);
  }
}
