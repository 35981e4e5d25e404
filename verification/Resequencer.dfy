/** All flows together: the resequencer as a state machine over packets and flushes, and the
    isolation of each flow from the others. */
module Resequencer {
  import opened Collections
  import opened Serial
  import opened FlowModel
  import opened FlowLaws
  import opened Packet

  type Flows = map<FlowKey, Flow>

  datatype Event =
    | Push(ip: Bytes, now: int)
      /** `order` is the order in which the flow map happens to be visited. */
    | FlushExpired(now: int, order: seq<FlowKey>)

  datatype System = System(flows: Flows, out: seq<Bytes>)

  ghost function Get(flows: Flows, k: FlowKey): Option<Flow> {
    if k in flows then Some(flows[k]) else None
  }

  ghost function Put(flows: Flows, k: FlowKey, o: Option<Flow>): Flows {
    if o.Some? then flows[k := o.value] else flows - {k}
  }

  /** The packets of emitted segments. */
  ghost function Packets(xs: seq<Segment>): (ps: seq<Bytes>)
    ensures |ps| == |xs| && forall i :: 0 <= i < |xs| ==> ps[i] == xs[i].data
  {
    seq(|xs|, i requires 0 <= i < |xs| => xs[i].data)
  }

  /** `Push`. */
  ghost function PushPacket(cfg: Config, flows: Flows, ip: Bytes, now: int): System {
    var p := ParseTCP(ip);
    if p.None? then System(flows, [ip])
    else
      var r := Arrive(Wrapping, cfg, Get(flows, p.value.key), p.value.seg, now);
      System(Put(flows, p.value.key, r.flow), Packets(r.passed + r.delivered))
  }

  /** `FlushExpired`, visiting the flows in the given order. */
  ghost function FlushInOrder(cfg: Config, flows: Flows, now: int, order: seq<FlowKey>): System
    decreases order
  {
    if order == [] then System(flows, [])
    else
      var k := order[0];
      var r := Tick(Wrapping, cfg, Get(flows, k), now);
      var rest := FlushInOrder(cfg, Put(flows, k, r.flow), now, order[1..]);
      System(rest.flows, Packets(r.passed + r.delivered) + rest.out)
  }

  ghost function Step(cfg: Config, flows: Flows, e: Event): System {
    match e
    case Push(ip, now) => PushPacket(cfg, flows, ip, now)
    case FlushExpired(now, order) => FlushInOrder(cfg, flows, now, order)
  }

  ghost function Execute(cfg: Config, es: seq<Event>): System {
    if es == [] then System(map[], [])
    else
      var s := Execute(cfg, es[..|es| - 1]);
      var t := Step(cfg, s.flows, es[|es| - 1]);
      System(t.flows, s.out + t.out)
  }

  /** Every flush visits every flow there is. */
  ghost predicate VisitsAll(cfg: Config, es: seq<Event>) {
    es == [] ||
    (var s, e := Execute(cfg, es[..|es| - 1]), es[|es| - 1];
     VisitsAll(cfg, es[..|es| - 1]) && (e.FlushExpired? ==> forall k :: k in s.flows ==> k in e.order))
  }

  // ---------------------------------------------------------------- one flow's view

  ghost function FlowOf(ip: Bytes): Option<FlowKey> {
    var p := ParseTCP(ip);
    if p.Some? then Some(p.value.key) else None
  }

  /** The events one flow sees: its own packets and every flush. */
  ghost function View(e: Event, k: FlowKey): seq<FlowEvent> {
    match e
    case Push(ip, now) => if FlowOf(ip) == Some(k) then [Arrival(ParseTCP(ip).value.seg, now)] else []
    case FlushExpired(now, _) => [Flush(now)]
  }

  ghost function Project(es: seq<Event>, k: FlowKey): seq<FlowEvent> {
    if es == [] then [] else Project(es[..|es| - 1], k) + View(es[|es| - 1], k)
  }

  /** The packets of one flow, or with None those that belong to no flow. */
  ghost function Select(ps: seq<Bytes>, id: Option<FlowKey>): seq<Bytes> {
    if ps == [] then []
    else (if FlowOf(ps[0]) == id then [ps[0]] else []) + Select(ps[1..], id)
  }

  lemma {:induction false} SelectAppend(ps: seq<Bytes>, qs: seq<Bytes>, id: Option<FlowKey>)
    ensures Select(ps + qs, id) == Select(ps, id) + Select(qs, id)
  {
    hide FlowOf;
    if ps == [] {
      assert ps + qs == qs;
    } else {
      assert (ps + qs)[1..] == ps[1..] + qs && (ps + qs)[0] == ps[0];
      SelectAppend(ps[1..], qs, id);
    }
  }

  lemma {:induction false} SelectUniform(ps: seq<Bytes>, from: Option<FlowKey>, id: Option<FlowKey>)
    requires forall i :: 0 <= i < |ps| ==> FlowOf(ps[i]) == from
    ensures Select(ps, id) == if from == id then ps else []
  {
    hide FlowOf;
    if ps != [] { SelectUniform(ps[1..], from, id); }
  }

  /** A segment that parsing its own packet gives back, in this flow. */
  ghost predicate Own(k: FlowKey, x: Segment) {
    ParseTCP(x.data) == Some(Parsed(k, x))
  }

  /** Everything held for a flow is the flow's own. */
  ghost predicate Filed(k: FlowKey, o: Option<Flow>) {
    o.Some? ==> Keyed(Wrapping, o.value.buf) && forall i :: i in o.value.buf ==> Own(k, o.value.buf[i])
  }

  ghost predicate AllFiled(flows: Flows) {
    forall k :: k in flows ==> Filed(k, Some(flows[k]))
  }

  lemma OwnEmitted(cfg: Config, k: FlowKey, o: Option<Flow>, e: FlowEvent, x: Segment)
    requires Filed(k, o) && (e.Arrival? ==> Own(k, e.seg))
    requires var r := React(Wrapping, cfg, o, e); x in r.passed || x in r.delivered || HeldCopies(r.flow, x) > 0
    ensures Own(k, x)
  {
    hide React, Own, Count;
    assert SoundEvent(Wrapping, e) by { OwnSound(k, e); }
    var r := React(Wrapping, cfg, o, e);
    ReactAccounts(Wrapping, cfg, o, e, x);
    CountPositive(r.passed, x);
    CountPositive(r.delivered, x);
    CountPositive(Arrivals([e]), x);
    ArrivalsOfOne(e);
  }

  lemma OwnSound(k: FlowKey, e: FlowEvent)
    requires e.Arrival? ==> Own(k, e.seg)
    ensures SoundEvent(Wrapping, e)
  {
    hide ParseTCP;
  }

  lemma ArrivalsOfOne(e: FlowEvent)
    ensures Arrivals([e]) == if e.Arrival? then [e.seg] else []
  {
  }

  /** A step of a flow emits only packets of that flow and keeps its buffer its own. */
  lemma ReactFiled(cfg: Config, k: FlowKey, o: Option<Flow>, e: FlowEvent)
    requires Filed(k, o) && (e.Arrival? ==> Own(k, e.seg))
    ensures var r := React(Wrapping, cfg, o, e);
      && Filed(k, r.flow)
      && forall i :: 0 <= i < |r.passed + r.delivered| ==> FlowOf(Packets(r.passed + r.delivered)[i]) == Some(k)
  {
    var r := React(Wrapping, cfg, o, e);
    ReactKeyed(cfg, k, o, e);
    hide React;
    var xs := r.passed + r.delivered;
    forall i | 0 <= i < |xs| ensures FlowOf(Packets(xs)[i]) == Some(k) {
      assert xs[i] in r.passed || xs[i] in r.delivered;
      OwnEmitted(cfg, k, o, e, xs[i]);
    }
    if r.flow.Some? {
      forall i | i in r.flow.value.buf ensures Own(k, r.flow.value.buf[i]) {
        OwnEmitted(cfg, k, o, e, r.flow.value.buf[i]);
      }
    }
  }

  lemma ReactKeyed(cfg: Config, k: FlowKey, o: Option<Flow>, e: FlowEvent)
    requires Filed(k, o) && (e.Arrival? ==> Own(k, e.seg))
    ensures var r := React(Wrapping, cfg, o, e); r.flow.Some? ==> Keyed(Wrapping, r.flow.value.buf)
  {
    OwnSound(k, e);
    hide ParseTCP, Own;
    KeptKeyed(cfg, o, e);
  }

  // ---------------------------------------------------------------- isolation

  lemma PutFiled(flows: Flows, k: FlowKey, o: Option<Flow>)
    requires AllFiled(flows) && Filed(k, o)
    ensures AllFiled(Put(flows, k, o))
    ensures Get(Put(flows, k, o), k) == o
    ensures forall j :: j != k ==> Get(Put(flows, k, o), j) == Get(flows, j)
  {
    hide Filed;
  }

  lemma GetFiled(flows: Flows, k: FlowKey)
    requires AllFiled(flows)
    ensures Filed(k, Get(flows, k))
  {
  }

  /** A flow that has just been looked at is not changed by being looked at again. */
  lemma TickTwice(m: Arith, cfg: Config, o: Option<Flow>, now: int)
    ensures var r := Tick(m, cfg, o, now);
      var again := Tick(m, cfg, r.flow, now);
      again.flow == r.flow && again.passed + again.delivered == []
  {
    hide FlushAll;
  }

  /** What a flush does to one flow does not depend on the others or on the order of visits. */
  lemma {:induction false} FlushIsolated(cfg: Config, flows: Flows, now: int, order: seq<FlowKey>, k: FlowKey)
    requires AllFiled(flows)
    ensures var s := FlushInOrder(cfg, flows, now, order);
      var r := Tick(Wrapping, cfg, Get(flows, k), now);
      && AllFiled(s.flows) && Select(s.out, None) == []
      && (k in order ==> Get(s.flows, k) == r.flow && Select(s.out, Some(k)) == Packets(r.passed + r.delivered))
      && (k !in order ==> Get(s.flows, k) == Get(flows, k) && Select(s.out, Some(k)) == [])
    decreases order
  {
    hide Tick, AllFiled, Filed, FlowOf, Put, Get;
    if order != [] {
      var h := order[0];
      var r := Tick(Wrapping, cfg, Get(flows, h), now);
      var flows' := Put(flows, h, r.flow);
      GetFiled(flows, h);
      ReactFiled(cfg, h, Get(flows, h), Flush(now));
      PutFiled(flows, h, r.flow);
      FlushIsolated(cfg, flows', now, order[1..], k);
      var rest := FlushInOrder(cfg, flows', now, order[1..]);
      var ps := Packets(r.passed + r.delivered);
      SelectAppend(ps, rest.out, None);
      SelectAppend(ps, rest.out, Some(k));
      SelectUniform(ps, Some(h), None);
      SelectUniform(ps, Some(h), Some(k));
      TickTwice(Wrapping, cfg, Get(flows, k), now);
    }
  }

  lemma PushIsolated(cfg: Config, flows: Flows, ip: Bytes, now: int, k: FlowKey)
    requires AllFiled(flows)
    ensures var s := PushPacket(cfg, flows, ip, now);
      && AllFiled(s.flows) && Select(s.out, None) == Select([ip], None)
      && (if FlowOf(ip) == Some(k) then
            var r := Arrive(Wrapping, cfg, Get(flows, k), ParseTCP(ip).value.seg, now);
            Get(s.flows, k) == r.flow && Select(s.out, Some(k)) == Packets(r.passed + r.delivered)
          else Get(s.flows, k) == Get(flows, k) && Select(s.out, Some(k)) == [])
  {
    hide Arrive, AllFiled, Filed, Put, Get, ParseTCP;
    var p := ParseTCP(ip);
    if p.Some? {
      var h := p.value.key;
      var r := Arrive(Wrapping, cfg, Get(flows, h), p.value.seg, now);
      GetFiled(flows, h);
      ReactFiled(cfg, h, Get(flows, h), Arrival(p.value.seg, now));
      PutFiled(flows, h, r.flow);
      SelectUniform(Packets(r.passed + r.delivered), Some(h), None);
      SelectUniform(Packets(r.passed + r.delivered), Some(h), Some(k));
    }
  }

  /** The packet an event pushes, if any. */
  ghost function PushedBy(e: Event): seq<Bytes> {
    if e.Push? then [e.ip] else []
  }

  /** The packets pushed, in order. */
  ghost function Pushed(es: seq<Event>): seq<Bytes> {
    if es == [] then [] else Pushed(es[..|es| - 1]) + PushedBy(es[|es| - 1])
  }

  lemma StepIsolated(cfg: Config, flows: Flows, e: Event, k: FlowKey)
    requires AllFiled(flows)
    requires e.FlushExpired? ==> forall j :: j in flows ==> j in e.order
    ensures var t := Step(cfg, flows, e);
      && AllFiled(t.flows) && Select(t.out, None) == Select(PushedBy(e), None)
      && if View(e, k) == [] then Get(t.flows, k) == Get(flows, k) && Select(t.out, Some(k)) == []
         else
           var r := React(Wrapping, cfg, Get(flows, k), View(e, k)[0]);
           Get(t.flows, k) == r.flow && Select(t.out, Some(k)) == Packets(r.passed + r.delivered)
  {
    hide Arrive, AllFiled, ParseTCP, FlowOf, PushPacket, FlushInOrder, Packets, FlushAll;
    match e
    case Push(ip, now) => PushIsolated(cfg, flows, ip, now, k);
    case FlushExpired(now, order) => FlushIsolated(cfg, flows, now, order, k);
  }

  lemma PacketsAppend(xs: seq<Segment>, ys: seq<Segment>)
    ensures Packets(xs + ys) == Packets(xs) + Packets(ys)
  {
  }

  /** One event of the system, in one flow's history. */
  lemma ProjectStep(cfg: Config, fe: seq<FlowEvent>, v: seq<FlowEvent>)
    requires |v| <= 1
    ensures var l, l' := Run(Wrapping, cfg, fe), Run(Wrapping, cfg, fe + v);
      if v == [] then l' == l
      else
        var r := React(Wrapping, cfg, l.flow, v[0]);
        l'.flow == r.flow && Packets(l'.out) == Packets(l.out) + Packets(r.passed + r.delivered)
  {
    hide React, Packets;
    if v == [] {
      assert fe + v == fe;
    } else {
      assert (fe + v)[..|fe|] == fe;
      var l := Run(Wrapping, cfg, fe);
      var r := React(Wrapping, cfg, l.flow, v[0]);
      assert l.out + r.passed + r.delivered == l.out + (r.passed + r.delivered);
      PacketsAppend(l.out, r.passed + r.delivered);
    }
  }

  /** Flow isolation: under any interleaving of pushes and flushes over any number of flows, and
      any order of visiting them, what one flow holds and emits is what it would hold and emit
      alone. Packets that belong to no flow come out in the order they were pushed. */
  lemma {:induction false} FlowIsolation(cfg: Config, es: seq<Event>, k: FlowKey)
    requires VisitsAll(cfg, es)
    ensures var s := Execute(cfg, es);
      var l := Run(Wrapping, cfg, Project(es, k));
      && AllFiled(s.flows) && Get(s.flows, k) == l.flow && Select(s.out, Some(k)) == Packets(l.out)
      && Select(s.out, None) == Select(Pushed(es), None)
  {
    if es != [] {
      hide React, AllFiled, View, Step, Run, Select, PushedBy;
      var init, e := es[..|es| - 1], es[|es| - 1];
      FlowIsolation(cfg, init, k);
      var s := Execute(cfg, init);
      var t := Step(cfg, s.flows, e);
      StepIsolated(cfg, s.flows, e, k);
      SelectAppend(s.out, t.out, Some(k));
      SelectAppend(s.out, t.out, None);
      SelectAppend(Pushed(init), PushedBy(e), None);
      ViewShort(e, k);
      ProjectStep(cfg, Project(init, k), View(e, k));
    }
  }

  lemma ViewShort(e: Event, k: FlowKey)
    ensures |View(e, k)| <= 1
  {
    hide FlowOf, ParseTCP;
  }
}
