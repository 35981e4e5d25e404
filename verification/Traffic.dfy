/** The per-flow laws lifted to whole traffic: any interleaving of packets of any number of
    flows, of other packets, and of flushes. */
module Traffic {
  import opened Collections
  import opened Serial
  import opened FlowModel
  import opened FlowLaws
  import opened Refinement
  import opened Restoration
  import V = Overflow
  import opened NoLoss
  import opened Packet
  import opened Resequencer
  import G = Greedy

  // ---------------------------------------------------------------- what a flow sees

  ghost predicate AllOwn(k: FlowKey, xs: seq<Segment>) {
    forall i :: 0 <= i < |xs| ==> Own(k, xs[i])
  }

  lemma ArrivalsOfView(e: Event, k: FlowKey)
    ensures Packets(Arrivals(View(e, k))) == Select(PushedBy(e), Some(k))
    ensures AllOwn(k, Arrivals(View(e, k)))
  {
    hide ParseTCP;
    if e.Push? && FlowOf(e.ip) == Some(k) {
      ArrivalsOfOne(View(e, k)[0]);
    }
  }

  /** The packets of a flow, seen as its arrivals. */
  lemma {:induction false} ArrivalsOfProject(es: seq<Event>, k: FlowKey)
    ensures Packets(Arrivals(Project(es, k))) == Select(Pushed(es), Some(k))
    ensures AllOwn(k, Arrivals(Project(es, k)))
  {
    hide View, Own, PushedBy, Arrivals, Select, Packets;
    if es == [] {
      NoArrivals();
    } else {
      var init, e := es[..|es| - 1], es[|es| - 1];
      ArrivalsOfProject(init, k);
      ArrivalsOfView(e, k);
      ViewShort(e, k);
      ArrivalsAppend(Project(init, k), View(e, k));
      PacketsAppend(Arrivals(Project(init, k)), Arrivals(View(e, k)));
      SelectAppend(Pushed(init), PushedBy(e), Some(k));
    }
  }

  lemma NoArrivals()
    ensures Arrivals([]) == [] && Packets([]) == [] && forall id :: Select([], id) == []
  {
  }

  lemma ArrivalsAppend(fe: seq<FlowEvent>, v: seq<FlowEvent>)
    requires |v| <= 1
    ensures Arrivals(fe + v) == Arrivals(fe) + Arrivals(v)
  {
    if v == [] {
      assert fe + v == fe;
    } else {
      assert (fe + v)[..|fe|] == fe;
      assert v == [v[0]];
    }
  }

  lemma {:induction false} ProjectSound(es: seq<Event>, k: FlowKey)
    ensures SoundEvents(Wrapping, Project(es, k))
  {
    hide ParseTCP;
    if es != [] { ProjectSound(es[..|es| - 1], k); }
  }

  // ---------------------------------------------------------------- bounds

  /** In every reachable state every flow holds at most `window` segments, never the next
      expected one. */
  lemma TrafficBounded(cfg: Config, es: seq<Event>, k: FlowKey)
    requires VisitsAll(cfg, es) && k in Execute(cfg, es).flows
    ensures Sound(Wrapping, cfg, Execute(cfg, es).flows[k])
  {
    hide Execute, Run;
    FlowIsolation(cfg, es, k);
    ProjectSound(es, k);
    RunSound(Wrapping, cfg, Project(es, k));
  }

  /** After a flush every surviving flow was seen less than `maxAge` ago. */
  lemma FlushLeavesRecent(cfg: Config, es: seq<Event>, now: int, order: seq<FlowKey>, k: FlowKey)
    requires VisitsAll(cfg, es + [FlushExpired(now, order)])
    ensures var s := Execute(cfg, es + [FlushExpired(now, order)]);
      k in s.flows ==> now - s.flows[k].lastSeen < cfg.maxAge
  {
    var e := FlushExpired(now, order);
    assert (es + [e])[..|es|] == es;
    FlowIsolation(cfg, es, k);
    FlushIsolated(cfg, Execute(cfg, es).flows, now, order, k);
  }

  /** A packet's own flow survives the flush that follows it at the same time. */
  lemma OwnFlowSurvives(cfg: Config, es: seq<Event>, ip: Bytes, now: int, order: seq<FlowKey>)
    requires cfg.maxAge > 0 && ParseTCP(ip).Some?
    requires VisitsAll(cfg, es + [Push(ip, now)] + [FlushExpired(now, order)])
    ensures ParseTCP(ip).value.key in Execute(cfg, es + [Push(ip, now)] + [FlushExpired(now, order)]).flows
  {
    hide ParseTCP, Arrive, FlushAll;
    var k := ParseTCP(ip).value.key;
    var mid := es + [Push(ip, now)];
    assert mid[..|es|] == es;
    assert (mid + [FlushExpired(now, order)])[..|mid|] == mid;
    FlowIsolation(cfg, es, k);
    PushIsolated(cfg, Execute(cfg, es).flows, ip, now, k);
    FlowIsolation(cfg, mid, k);
    FlushIsolated(cfg, Execute(cfg, mid).flows, now, order, k);
  }

  // ---------------------------------------------------------------- accounting

  ghost function Times(ps: seq<Bytes>, p: Bytes): nat {
    if ps == [] then 0 else (if ps[0] == p then 1 else 0) + Times(ps[1..], p)
  }

  lemma {:induction false} TimesSelected(ps: seq<Bytes>, p: Bytes)
    ensures Times(Select(ps, FlowOf(p)), p) == Times(ps, p)
  {
    hide FlowOf;
    if ps != [] {
      TimesSelected(ps[1..], p);
      var rest := Select(ps[1..], FlowOf(p));
      if FlowOf(ps[0]) == FlowOf(p) {
        assert ([ps[0]] + rest)[1..] == rest;
      } else {
        assert [] + rest == rest;
      }
    }
  }

  lemma {:induction false} TimesOfOwn(xs: seq<Segment>, k: FlowKey, p: Bytes)
    requires FlowOf(p) == Some(k) && AllOwn(k, xs)
    ensures Times(Packets(xs), p) == Count(xs, ParseTCP(p).value.seg)
  {
    hide ParseTCP;
    if xs != [] {
      TimesOfOwn(xs[1..], k, p);
      assert Packets(xs)[1..] == Packets(xs[1..]);
      assert Own(k, xs[0]);
    }
  }

  lemma EmittedOwn(cfg: Config, es: seq<Event>, k: FlowKey)
    ensures AllOwn(k, Run(Wrapping, cfg, Project(es, k)).out)
  {
    hide Own, Run;
    var fe := Project(es, k);
    var out := Run(Wrapping, cfg, fe).out;
    ProjectSound(es, k);
    ArrivalsOfProject(es, k);
    forall i | 0 <= i < |out| ensures Own(k, out[i]) {
      RunAccounts(Wrapping, cfg, fe, out[i]);
      CountPositive(out, out[i]);
      CountPositive(Arrivals(fe), out[i]);
    }
  }

  /** Accounting over all traffic: each time a packet of a flow was pushed it has been emitted, is
      held, was ignored as already held, or was swept; nothing else is ever emitted. */
  lemma TrafficAccounts(cfg: Config, es: seq<Event>, k: FlowKey, p: Bytes)
    requires VisitsAll(cfg, es) && FlowOf(p) == Some(k)
    ensures var s := Execute(cfg, es);
      var l := Run(Wrapping, cfg, Project(es, k));
      var x := ParseTCP(p).value.seg;
      Times(Pushed(es), p) == Times(s.out, p) + HeldCopies(Get(s.flows, k), x) + Count(l.dropped, x) + l.swept[x]
  {
    hide Run, Execute, Times, ParseTCP, Get, HeldCopies, Pushed, Project;
    var x := ParseTCP(p).value.seg;
    var fe := Project(es, k);
    FlowIsolation(cfg, es, k);
    ProjectSound(es, k);
    RunAccounts(Wrapping, cfg, fe, x);
    ArrivalsOfProject(es, k);
    EmittedOwn(cfg, es, k);
    TimesOfOwn(Arrivals(fe), k, p);
    TimesOfOwn(Run(Wrapping, cfg, fe).out, k, p);
    TimesSelected(Pushed(es), p);
    TimesSelected(Execute(cfg, es).out, p);
  }

  /** A packet that belongs to no flow is emitted as often as it was pushed. */
  lemma BypassAccounts(cfg: Config, es: seq<Event>, p: Bytes)
    requires VisitsAll(cfg, es) && FlowOf(p) == None
    ensures Times(Pushed(es), p) == Times(Execute(cfg, es).out, p)
  {
    FlowIsolation(cfg, es, []);
    TimesSelected(Pushed(es), p);
    TimesSelected(Execute(cfg, es).out, p);
  }

  // ---------------------------------------------------------------- order

  lemma {:induction false} ByPackets(xs: seq<Segment>, sources: seq<Option<int>>, r: int)
    requires |xs| == |sources|
    ensures By(Packets(xs), sources, r) == Packets(By(xs, sources, r))
  {
    if xs != [] {
      var n := |xs| - 1;
      ByPackets(xs[..n], sources[..n], r);
      assert Packets(xs)[..n] == Packets(xs[..n]);
    }
  }

  lemma {:induction false} ByOwn(k: FlowKey, xs: seq<Segment>, sources: seq<Option<int>>, r: int)
    requires |xs| == |sources| && AllOwn(k, xs)
    ensures AllOwn(k, By(xs, sources, r))
  {
    hide Own;
    if xs != [] { ByOwn(k, xs[..|xs| - 1], sources[..|xs| - 1], r); }
  }

  lemma OwnCovers(k: FlowKey, s: Segment)
    requires Own(k, s) && |s.data| < 0x1_0000_0000
    ensures Length(s) > 0
  {
    ParsedLength(s.data);
  }

  /** Order amid other traffic, whatever arrives: of a flow's output, the packets delivered by one
      record occupy successive ranges of unbounded sequence space, none of them empty; the rest
      of the flow's output is that of its other records, and pass-throughs. */
  lemma OrderInTraffic(cfg: Config, es: seq<Event>, k: FlowKey, r: nat) returns (rs: seq<Range>)
    requires VisitsAll(cfg, es) && r < |Run(Wrapping, cfg, Project(es, k)).epochs|
    ensures var out, sources := Select(Execute(cfg, es).out, Some(k)), Sources(Wrapping, cfg, Project(es, k));
      var group := Run(Wrapping, cfg, Project(es, k)).epochs[r];
      && |sources| == |out| && By(out, sources, r) == Packets(group) && AllOwn(k, group) && Unrolls(rs, group)
      && (forall i :: 0 <= i < |rs| && |group[i].data| < 0x1_0000_0000 ==> rs[i].lo < rs[i].hi)
      && (forall i, j :: 0 <= i < j < |rs| ==> rs[i].hi <= rs[j].lo)
  {
    hide Execute, Run, Select, Sources, By, Own, Unrolls, Project, Length;
    var fe := Project(es, k);
    var l, sources := Run(Wrapping, cfg, fe), Sources(Wrapping, cfg, fe);
    FlowIsolation(cfg, es, k);
    EmissionsSourced(Wrapping, cfg, fe);
    ByPackets(l.out, sources, r);
    EmittedOwn(cfg, es, k);
    ByOwn(k, l.out, sources, r);
    ProjectSound(es, k);
    rs := DeliveriesSuccessive(cfg, fe, r);
    var group := l.epochs[r];
    assert |rs| == |group| by { UnrollsLength(rs, group); }
    forall i | 0 <= i < |rs| && |group[i].data| < 0x1_0000_0000 ensures rs[i].lo < rs[i].hi {
      OwnCovers(k, group[i]);
    }
  }

  lemma UnrollsLength(rs: seq<Range>, group: seq<Segment>)
    requires Unrolls(rs, group)
    ensures |rs| == |group|
  {
  }

  /** Order amid other traffic, within range: a flow's output is that of segments at true
      positions, and of any two that one record delivered the later one starts at or after the
      end of the earlier one. */
  lemma PositionsInTraffic(cfg: Config, es: seq<Event>, k: FlowKey, fe: seq<FlowEvent>) returns (us: seq<Segment>)
    requires VisitsAll(cfg, es) && Project(es, k) == WrapEvents(fe)
    requires SoundEvents(Unbounded, fe) && RunNear(cfg, fe)
    ensures var out, sources := Select(Execute(cfg, es).out, Some(k)), Sources(Wrapping, cfg, Project(es, k));
      && out == Packets(us) && |sources| == |us|
      && (forall i :: 0 <= i < |us| ==> us[i] in Arrivals(fe) && us[i].start < us[i].end)
      && (forall i, j :: 0 <= i < j < |us| && sources[i].Some? && sources[i] == sources[j] ==> us[i].end <= us[j].start)
  {
    hide Execute, Run, Select, Sources, Project, RunNear, Arrivals;
    FlowIsolation(cfg, es, k);
    us := WrappedDeliveriesIncrease(cfg, fe);
    assert Packets(WrapAll(us)) == Packets(us);
  }

  // ---------------------------------------------------------------- flushes

  ghost predicate ShortSegment(e: FlowEvent, n: nat) {
    e.Arrival? ==> G.Numbered(e.seg) && Length(e.seg) <= n
  }

  ghost predicate AllShort(fe: seq<FlowEvent>, n: nat) {
    forall i :: 0 <= i < |fe| ==> ShortSegment(fe[i], n)
  }

  lemma ShortView(e: Event, k: FlowKey, n: nat)
    requires n < 0x1_0000_0000 && (e.Push? ==> |e.ip| <= n)
    ensures AllShort(View(e, k), n)
  {
    hide ParseTCP, Length;
    if e.Push? && ParseTCP(e.ip).Some? { ParsedLength(e.ip); }
  }

  lemma {:induction false} ShortArrivals(es: seq<Event>, k: FlowKey, n: nat)
    requires n < 0x1_0000_0000 && forall i :: 0 <= i < |es| && es[i].Push? ==> |es[i].ip| <= n
    ensures AllShort(Project(es, k), n)
  {
    hide View, ShortSegment;
    if es != [] {
      ShortArrivals(es[..|es| - 1], k, n);
      ShortView(es[|es| - 1], k, n);
    }
  }

  lemma ShortFlush(cfg: Config, fe: seq<FlowEvent>, n: nat, now: int)
    requires cfg.window * n <= 0x8000_0000 && AllShort(fe, n)
    requires var o := Run(Wrapping, cfg, fe).flow; o.Some? && Idle(cfg, o.value, now)
    ensures var g := Run(Wrapping, cfg, fe).flow.value;
      Run(Wrapping, cfg, fe + [Flush(now)]).out
      == Run(Wrapping, cfg, fe).out + G.KeepByOffset(g.next, G.ByDistance(g.next, Future(Wrapping, g)), 0)
  {
    hide Run, G.KeepByOffset, G.ByDistance, Length, G.Numbered;
    G.IdleFlushIsGreedy(cfg, fe, n, now);
  }

  /** Every flush is a greedy filter: when `window` packets of the greatest length come to at most
      2^31 bytes, flushing an idle flow emits, after what it emitted before, exactly the packets
      that one pass over its future segments by distance would keep. */
  lemma FlushIsGreedyInTraffic(cfg: Config, es: seq<Event>, n: nat, now: int, order: seq<FlowKey>, k: FlowKey)
    requires VisitsAll(cfg, es + [FlushExpired(now, order)]) && VisitsAll(cfg, es)
    requires n < 0x1_0000_0000 && cfg.window * n <= 0x8000_0000
    requires forall i :: 0 <= i < |es| && es[i].Push? ==> |es[i].ip| <= n
    requires k in Execute(cfg, es).flows && Idle(cfg, Execute(cfg, es).flows[k], now)
    ensures var g := Execute(cfg, es).flows[k];
      Select(Execute(cfg, es + [FlushExpired(now, order)]).out, Some(k))
      == Select(Execute(cfg, es).out, Some(k))
       + Packets(G.KeepByOffset(g.next, G.ByDistance(g.next, Future(Wrapping, g)), 0))
  {
    var e := FlushExpired(now, order);
    assert (es + [e])[..|es|] == es;
    assert Project(es + [e], k) == Project(es, k) + [Flush(now)];
    hide Execute, Run, Select, Project, G.KeepByOffset, G.ByDistance, Future, Length, VisitsAll, AllShort;
    FlowIsolation(cfg, es, k);
    FlowIsolation(cfg, es + [e], k);
    ShortArrivals(es, k, n);
    ShortFlush(cfg, Project(es, k), n, now);
    var g := Execute(cfg, es).flows[k];
    PacketsAppend(Run(Wrapping, cfg, Project(es, k)).out,
                  G.KeepByOffset(g.next, G.ByDistance(g.next, Future(Wrapping, g)), 0));
  }

  // ---------------------------------------------------------------- restoration and no loss

  /** A segment is determined by its packet. */
  lemma OwnByPacket(k: FlowKey, xs: seq<Segment>, ys: seq<Segment>)
    requires AllOwn(k, xs) && AllOwn(k, ys) && Packets(xs) == Packets(ys)
    ensures xs == ys
  {
    hide ParseTCP;
    assert |xs| == |Packets(xs)| == |Packets(ys)| == |ys|;
    forall i | 0 <= i < |xs| ensures xs[i] == ys[i] {
      assert Packets(xs)[i] == Packets(ys)[i];
      assert Own(k, xs[i]) && Own(k, ys[i]);
    }
  }

  lemma StreamOwn(es: seq<Event>, k: FlowKey, s: seq<Segment>, order: seq<nat>, fe: seq<FlowEvent>)
    requires Project(es, k) == WrapEvents(fe)
    requires Stream(s) && Permutation(order, |s|) && Pushes(s, order, fe) && |Arrivals(fe)| == |s|
    ensures AllOwn(k, WrapAll(s))
  {
    hide Own;
    ArrivalsOfProject(es, k);
    WrapArrivals(fe);
    forall i | 0 <= i < |s| ensures Own(k, WrapAll(s)[i]) {
      assert i in order;
      var b :| 0 <= b < |order| && order[b] == i;
      assert Arrivals(Project(es, k))[b] == WrapAll(s)[i];
    }
  }

  /** Restoration amid other traffic: the flow's part of the output is the stream, in stream
      order, if and only if its first segment arrives first and at most `window` of its segments
      are ever early; nothing of it is then left behind. */
  lemma StreamRestoredInTraffic(cfg: Config, es: seq<Event>, k: FlowKey,
                                s: seq<Segment>, order: seq<nat>, fe: seq<FlowEvent>)
    requires VisitsAll(cfg, es) && Project(es, k) == WrapEvents(fe)
    requires Stream(s) && Permutation(order, |s|) && WithinReach(s, order)
    requires Pushes(s, order, fe) && Quiet(cfg, fe) && |Arrivals(fe)| == |s|
    ensures var t := Execute(cfg, es);
      && (Select(t.out, Some(k)) == Packets(WrapAll(s)) <==> Led(order) && WithinWindow(order, |s|, cfg.window))
      && (Led(order) && WithinWindow(order, |s|, cfg.window) ==> Get(t.flows, k).Some? && Get(t.flows, k).value.buf == map[])
  {
    hide Execute, Run, Select, WithinWindow, Permutation, Pushes, AllOwn, Led;
    FlowIsolation(cfg, es, k);
    WrappedStreamRestored(cfg, s, order, fe);
    var l := Run(Wrapping, cfg, Project(es, k));
    if Packets(l.out) == Packets(WrapAll(s)) {
      EmittedOwn(cfg, es, k);
      StreamOwn(es, k, s, order, fe);
      OwnByPacket(k, l.out, WrapAll(s));
    }
  }

  /** Overflows amid other traffic: whatever order the segments of a stream arrive in, the flow's
      part of the output is what the reference on indices says. */
  lemma OverflowInTraffic(cfg: Config, es: seq<Event>, k: FlowKey,
                          s: seq<Segment>, order: seq<nat>, fe: seq<FlowEvent>)
    requires VisitsAll(cfg, es) && Project(es, k) == WrapEvents(fe)
    requires Stream(s) && V.Follows(s, order, fe) && V.Comparable(s, order, cfg.window) && Quiet(cfg, fe)
    ensures Select(Execute(cfg, es).out, Some(k)) == Packets(V.Output(s, order, cfg.window, |Arrivals(fe)|))
  {
    hide Execute, Run, Select, V.Follows, V.Comparable, V.Output, Quiet, Stream, Arrivals;
    FlowIsolation(cfg, es, k);
    V.FollowsBounds(s, order, fe);
    V.WrappedOnIndices(cfg, s, order, fe);
    var xs := V.Output(s, order, cfg.window, |Arrivals(fe)|);
    assert Packets(WrapAll(xs)) == Packets(xs);
  }

  /** No loss amid other traffic: when a consistently cut flow within range has been reaped, each
      of its packets has been emitted as often as it was pushed, less the copies that arrived
      while the same range was held. */
  lemma NothingLostInTraffic(xs: set<Segment>, cfg: Config, es: seq<Event>, k: FlowKey, fe: seq<FlowEvent>, p: Bytes)
    requires VisitsAll(cfg, es) && Project(es, k) == WrapEvents(fe) && FlowOf(p) == Some(k)
    requires NonEmpty(xs) && Clear(xs) && Unrivalled(xs) && Over(fe, xs) && RunNear(cfg, fe)
    requires k !in Execute(cfg, es).flows
    ensures var l := Run(Wrapping, cfg, Project(es, k));
      && Times(Pushed(es), p) == Times(Execute(cfg, es).out, p) + Count(l.dropped, ParseTCP(p).value.seg)
      && forall i :: 0 <= i < |l.dropped| ==> RangeEmitted(l.out, l.dropped[i])
  {
    hide Execute, Run, Times, Count, Clear, Unrivalled, RunNear, ParseTCP, RangeEmitted, Pushed;
    FlowIsolation(cfg, es, k);
    NothingLost(xs, cfg, fe);
    TrafficAccounts(cfg, es, k, p);
  }
}
