/** When the range condition of `Refinement` holds: it is enough that, at each step, everything
    in play fits in one stretch of 2^31 positions. */
module Span {
  import opened Collections
  import opened Serial
  import opened FlowModel
  import opened FlowLaws
  import opened Refinement

  /** The segment is not empty and lies in the 2^31 positions from `lo`. */
  predicate Inside(lo: int, s: Segment) {
    lo <= s.start < s.end <= lo + 0x8000_0000
  }

  /** The flow's next position and everything it holds lie in the 2^31 positions from `lo`. */
  ghost predicate Within(lo: int, f: Flow) {
    && lo <= f.next <= lo + 0x8000_0000
    && forall k :: k in f.buf ==> f.buf[k].start == k && Inside(lo, f.buf[k])
  }

  ghost predicate InPlay(lo: int, o: Option<Flow>, e: FlowEvent) {
    && (o.Some? ==> Within(lo, o.value))
    && (e.Arrival? ==> Inside(lo, e.seg))
  }

  lemma {:induction false} DrainWithin(lo: int, f: Flow)
    requires Within(lo, f)
    ensures DrainNear(f) && Within(lo, Drain(f).flow)
    decreases f.buf.Keys
  {
    if f.next in f.buf {
      DrainWithin(lo, f.(next := f.buf[f.next].end, buf := f.buf - {f.next}));
    }
  }

  lemma SkipGapWithin(lo: int, f: Flow)
    requires Within(lo, f)
    ensures SkipNear(f) && Within(lo, SkipGap(Unbounded, f).adv.flow)
  {
    if Future(Unbounded, f) != map[] {
      DrainWithin(lo, Jump(f));
    }
  }

  lemma {:induction false} FlushWithin(lo: int, f: Flow)
    requires Within(lo, f)
    ensures FlushNear(f)
    decreases f.buf.Keys
  {
    SkipGapWithin(lo, f);
    if SkipGap(Unbounded, f).found {
      FlushWithin(lo, SkipGap(Unbounded, f).adv.flow);
    }
  }

  lemma SetAsideWithin(lo: int, f: Flow, s: Segment)
    requires Within(lo, f) && Inside(lo, s)
    ensures Within(lo, SetAside(f, s))
  {
  }

  lemma HoldWithin(lo: int, cfg: Config, f: Flow, s: Segment)
    requires Within(lo, f) && Inside(lo, s)
    ensures SkipNear(SetAside(f, s)) && Within(lo, Hold(Unbounded, cfg, f, s).flow.value)
  {
    SetAsideWithin(lo, f, s);
    hide SetAside, SkipGap, Within, SkipNear;
    SkipGapWithin(lo, SetAside(f, s));
  }

  lemma DeliverWithin(lo: int, f: Flow, s: Segment)
    requires Within(lo, f) && Inside(lo, s)
    ensures DrainNear(f.(next := s.end)) && Within(lo, Deliver(f, s).flow.value)
  {
    DrainWithin(lo, f.(next := s.end));
  }

  lemma ArriveWithin(cfg: Config, o: Option<Flow>, s: Segment, now: int, lo: int)
    requires (o.Some? ==> Within(lo, o.value)) && Inside(lo, s)
    ensures ReactNear(cfg, o, Arrival(s, now))
    ensures Within(lo, Arrive(Unbounded, cfg, o, s, now).flow.value)
  {
    var f := Primed(o, s, now);
    assert Within(lo, f);
    HoldWithin(lo, cfg, f, s);
    DeliverWithin(lo, f, s);
    assert Near(f) && Reachable(s.start - f.next);
    hide Within, Near, DrainNear, SkipNear, SetAside, Hold, Deliver, Primed, Reachable;
  }

  /** A step whose segments all fit in one stretch of 2^31 positions is within range, and what it
      leaves fits in the same stretch. */
  lemma ReactWithin(cfg: Config, o: Option<Flow>, e: FlowEvent, lo: int)
    requires InPlay(lo, o, e)
    ensures ReactNear(cfg, o, e)
    ensures var r := React(Unbounded, cfg, o, e); r.flow.Some? ==> Within(lo, r.flow.value)
  {
    hide Arrive, Within, Inside, FlushNear, FlushAll, Primed;
    match e
    case Flush(now) => if o.Some? { FlushWithin(lo, o.value); }
    case Arrival(s, now) => ArriveWithin(cfg, o, s, now, lo);
  }

  /** At every step everything in play fits in some stretch of 2^31 positions; the stretch may
      move along with the stream. */
  ghost predicate Compact(cfg: Config, es: seq<FlowEvent>) {
    es == [] ||
    (var o, e := Run(Unbounded, cfg, es[..|es| - 1]).flow, es[|es| - 1];
     Compact(cfg, es[..|es| - 1]) && exists lo :: InPlay(lo, o, e))
  }

  lemma {:induction false} CompactNear(cfg: Config, es: seq<FlowEvent>)
    requires Compact(cfg, es)
    ensures RunNear(cfg, es)
  {
    if es != [] {
      CompactNear(cfg, es[..|es| - 1]);
      var o := Run(Unbounded, cfg, es[..|es| - 1]).flow;
      var lo :| InPlay(lo, o, es[|es| - 1]);
      ReactWithin(cfg, o, es[|es| - 1], lo);
    }
  }

  /** A stream of at most 2^31 bytes is compact wherever in the number circle it starts, whatever
      the order of arrival and however the flow is flushed. */
  lemma {:induction false} ShortStreamCompact(cfg: Config, es: seq<FlowEvent>, lo: int)
    requires forall i :: 0 <= i < |es| && es[i].Arrival? ==> Inside(lo, es[i].seg)
    ensures Compact(cfg, es)
    ensures var l := Run(Unbounded, cfg, es); l.flow.Some? ==> Within(lo, l.flow.value)
  {
    if es != [] {
      ShortStreamCompact(cfg, es[..|es| - 1], lo);
      var o := Run(Unbounded, cfg, es[..|es| - 1]).flow;
      assert InPlay(lo, o, es[|es| - 1]);
      ReactWithin(cfg, o, es[|es| - 1], lo);
    }
  }
}
