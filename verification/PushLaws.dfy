/** What one push does to a flow, as a relation between the state before, the segment, and what comes
    out: in either arithmetic, for every state. */
module PushLaws {
  import opened Collections
  import opened Serial
  import opened FlowModel
  import opened FlowLaws

  /** Segments that follow each other without a gap from `from` on. */
  ghost predicate Chain(from: int, out: seq<Segment>) {
    forall i :: 0 <= i < |out| ==> out[i].start == EndOf(from, out[..i])
  }

  ghost function EndOf(from: int, out: seq<Segment>): int {
    if out == [] then from else out[|out| - 1].end
  }

  ghost function Starts(out: seq<Segment>): set<int> {
    set i | 0 <= i < |out| :: out[i].start
  }

  /** `out` is taken out of `buf`, each segment once, and `rest` is what remains. */
  ghost predicate TakenOut(buf: Held, out: seq<Segment>, rest: Held) {
    && (forall i :: 0 <= i < |out| ==> out[i].start in buf && buf[out[i].start] == out[i])
    && (forall i, j :: 0 <= i < j < |out| ==> out[i].start != out[j].start)
    && rest == buf - Starts(out)
  }

  /** From `from` on, everything that follows without a gap is released, and nothing else: what is
      left does not continue it. */
  ghost predicate ReleasesRun(from: int, buf: Held, out: seq<Segment>, f: Flow) {
    Chain(from, out) && TakenOut(buf, out, f.buf) && f.next == EndOf(from, out) && f.next !in f.buf
  }

  lemma {:induction false} DrainReleases(m: Arith, f: Flow)
    requires Keyed(m, f.buf)
    ensures ReleasesRun(f.next, f.buf, Drain(f).out, Drain(f).flow)
    decreases f.buf.Keys
  {
    if f.next !in f.buf {
      assert Starts([]) == {};
      assert f.buf - {} == f.buf;
    } else {
      var s := f.buf[f.next];
      var g := f.(next := s.end, buf := f.buf - {f.next});
      DrainReleases(m, g);
      ReleaseOneMore(f, s, Drain(g).out, Drain(g).flow);
    }
  }

  lemma ReleaseOneMore(f: Flow, s: Segment, out: seq<Segment>, g: Flow)
    requires f.next in f.buf && f.buf[f.next] == s && s.start == f.next
    requires ReleasesRun(s.end, f.buf - {f.next}, out, g)
    ensures ReleasesRun(f.next, f.buf, [s] + out, g)
  {
    ChainMore(s, out);
    TakenMore(f.buf, s, out, g.buf);
    hide Chain, TakenOut;
    assert EndOf(s.start, [s] + out) == EndOf(s.end, out);
  }

  lemma ChainMore(s: Segment, out: seq<Segment>)
    requires Chain(s.end, out)
    ensures Chain(s.start, [s] + out)
  {
    var all := [s] + out;
    forall i | 0 <= i < |all| ensures all[i].start == EndOf(s.start, all[..i]) {
      if i == 0 {
        assert all[..0] == [];
      } else {
        var h := i - 1;
        assert all[..i] == [s] + out[..h];
        assert out[h].start == EndOf(s.end, out[..h]);
      }
    }
  }

  lemma TakenMore(buf: Held, s: Segment, out: seq<Segment>, rest: Held)
    requires s.start in buf && buf[s.start] == s && TakenOut(buf - {s.start}, out, rest)
    ensures TakenOut(buf, [s] + out, rest)
  {
    StartsMore(s, out);
    assert buf - Starts([s] + out) == (buf - {s.start}) - Starts(out);
    hide Starts;
    var all := [s] + out;
    forall i | 0 <= i < |all| ensures all[i].start in buf && buf[all[i].start] == all[i] {
      if i > 0 { assert all[i] == out[i - 1]; }
    }
    forall i, j | 0 <= i < j < |all| ensures all[i].start != all[j].start {
      assert all[j] == out[j - 1];
      if i > 0 { assert all[i] == out[i - 1]; }
    }
  }

  lemma StartsMore(s: Segment, out: seq<Segment>)
    ensures Starts([s] + out) == {s.start} + Starts(out)
  {
    var all := [s] + out;
    forall p | p in {s.start} + Starts(out) ensures p in Starts(all) {
      if p == s.start {
        assert all[0].start == p;
      } else {
        var i :| 0 <= i < |out| && out[i].start == p;
        assert all[i + 1].start == p;
      }
    }
  }

  /** The held segments, or `s` beside them if its number is not held yet. */
  ghost function Beside(held: Held, s: Segment): Held {
    if s.start in held then held else held[s.start := s]
  }

  /** An overflow: what is not ahead of `next` is swept, the nearest segment ahead comes out with
      everything that follows it without a gap, and nothing else does. */
  ghost predicate SkipsOneGap(m: Arith, next: int, held: Held, out: seq<Segment>, f: Flow, swept: Held) {
    var ahead := map k | k in held && Gap(m, k, next) > 0 :: held[k];
    && swept == held - ahead.Keys
    && out != [] && out[0].start in ahead && ahead[out[0].start] == out[0]
    && (forall k :: k in ahead ==> Gap(m, out[0].start, next) <= Gap(m, k, next))
    && ReleasesRun(out[0].end, ahead - {out[0].start}, out[1..], f)
  }

  lemma SkipGapSkipsOne(m: Arith, f: Flow)
    requires Keyed(m, f.buf) && Future(m, f) != map[]
    ensures var a := SkipGap(m, f).adv; SkipsOneGap(m, f.next, f.buf, a.out, a.flow, a.swept)
  {
    var fut := Future(m, f);
    var k := Nearest(m, f.next, fut.Keys);
    var s := fut[k];
    var g := f.(next := s.end, buf := fut - {k});
    DrainReleases(m, g);
    hide ReleasesRun, Drain, Gap;
    assert ([s] + Drain(g).out)[1..] == Drain(g).out;
  }

  /** In order, the segment comes out with everything held that follows it without a gap. */
  ghost predicate InOrderPush(held: Held, s: Segment, r: Outcome)
    requires r.flow.Some?
  {
    && r.passed == [] && r.dropped == [] && r.swept == map[]
    && r.delivered != [] && r.delivered[0] == s && ReleasesRun(s.end, held, r.delivered[1..], r.flow.value)
  }

  /** Behind, it comes out alone and changes nothing. */
  ghost predicate BehindPush(next: int, held: Held, s: Segment, r: Outcome)
    requires r.flow.Some?
  {
    && r.passed == [s] && r.delivered == [] && r.dropped == [] && r.swept == map[]
    && r.flow.value.next == next && r.flow.value.buf == held
  }

  /** Ahead, it is held, once per number; if that makes more than `window`, exactly one gap is
      skipped. */
  ghost predicate AheadPush(m: Arith, cfg: Config, next: int, held: Held, s: Segment, r: Outcome)
    requires r.flow.Some?
  {
    && r.passed == [] && r.dropped == (if s.start in held then [s] else [])
    && if |Beside(held, s)| <= cfg.window then
         && r.delivered == [] && r.swept == map[]
         && r.flow.value.next == next && r.flow.value.buf == Beside(held, s)
       else SkipsOneGap(m, next, Beside(held, s), r.delivered, r.flow.value, r.swept)
  }

  /** `Push`, exactly. A new flow starts at the segment, and the distance from the next expected
      number decides between the three cases. */
  lemma PushExactly(m: Arith, cfg: Config, o: Option<Flow>, s: Segment, now: int)
    requires (o.Some? ==> Keyed(m, o.value.buf)) && ValidSegment(m, s)
    ensures var r := React(m, cfg, o, Arrival(s, now));
      var next, held := if o.Some? then o.value.next else s.start, if o.Some? then o.value.buf else map[];
      var d := Gap(m, s.start, next);
      && r.flow.Some? && r.flow.value.lastSeen == now && (o.None? ==> d == 0)
      && (d == 0 ==> InOrderPush(held, s, r))
      && (d < 0 ==> BehindPush(next, held, s, r))
      && (d > 0 ==> AheadPush(m, cfg, next, held, s, r))
  {
    NewFlowStarts(m, s);
    hide Gap, Hold, Deliver, InOrderPush, AheadPush;
    var f := Primed(o, s, now);
    var d := Gap(m, s.start, f.next);
    if d == 0 {
      DeliverInOrder(m, f, s);
    } else if d > 0 {
      HoldAhead(m, cfg, f, s);
    }
  }

  lemma HoldAhead(m: Arith, cfg: Config, f: Flow, s: Segment)
    requires Keyed(m, f.buf) && ValidSegment(m, s) && Gap(m, s.start, f.next) > 0
    ensures AheadPush(m, cfg, f.next, f.buf, s, Hold(m, cfg, f, s))
  {
    var g := SetAside(f, s);
    assert g.buf == Beside(f.buf, s) && g.next == f.next;
    assert s.start in Future(m, g) && Keyed(m, g.buf);
    hide SkipsOneGap, SkipGap, Future, Keyed, Gap, SetAside, Beside;
    SkipGapSkipsOne(m, g);
  }

  lemma DeliverInOrder(m: Arith, f: Flow, s: Segment)
    requires Keyed(m, f.buf)
    ensures InOrderPush(f.buf, s, Deliver(f, s))
  {
    hide ReleasesRun, Drain;
    DeliverReleases(m, f, s);
  }

  lemma DeliverReleases(m: Arith, f: Flow, s: Segment)
    requires Keyed(m, f.buf)
    ensures var r := Deliver(f, s);
      r.delivered != [] && r.delivered[0] == s && ReleasesRun(s.end, f.buf, r.delivered[1..], r.flow.value)
  {
    var g := f.(next := s.end);
    DrainReleases(m, g);
    hide Drain, ReleasesRun;
    assert ([s] + Drain(g).out)[1..] == Drain(g).out;
  }

  lemma NewFlowStarts(m: Arith, s: Segment)
    ensures Gap(m, s.start, s.start) == 0
  {
  }
}
