/** One flow of the resequencer as a value: what `Push`, `drain`, `skipGap` and the flush loop
    do to `nextSeq` and the held segments, and what they emit. Every function is written once
    and read in either arithmetic of `Serial`. */
module FlowModel {
  import opened Collections
  import opened Serial

  /** A TCP segment: the sequence numbers of its first byte and of the byte after its last,
      and the whole IP packet that carried it. */
  datatype Segment = Segment(start: int, end: int, data: seq<bv8>)

  type Held = map<int, Segment>

  datatype Flow = Flow(next: int, buf: Held, lastSeen: int)

  /** What a release of held segments leaves, emits in order, and throws away. */
  datatype Advance = Advance(flow: Flow, out: seq<Segment>, swept: Held)

  /** Emits held segments for as long as one starts exactly at `next`. */
  ghost function Drain(f: Flow): (r: Advance)
    ensures SubMap(r.flow.buf, f.buf)
    ensures r.flow.next !in r.flow.buf && r.flow.lastSeen == f.lastSeen && r.swept == map[]
    decreases f.buf.Keys
  {
    if f.next !in f.buf then Advance(f, [], map[])
    else
      var s := f.buf[f.next];
      var r := Drain(f.(next := s.end, buf := f.buf - {f.next}));
      Advance(r.flow, [s] + r.out, map[])
  }

  /** The held segments that start strictly ahead of `next`. */
  ghost function Future(m: Arith, f: Flow): (fut: Held)
    ensures SubMap(fut, f.buf)
  {
    map k | k in f.buf && Gap(m, k, f.next) > 0 :: f.buf[k]
  }

  ghost predicate IsNearest(m: Arith, next: int, keys: set<int>, k: int) {
    k in keys && forall j :: j in keys ==> Gap(m, k, next) <= Gap(m, j, next)
  }

  lemma {:induction false} NearestExists(m: Arith, next: int, keys: set<int>)
    requires keys != {}
    ensures exists k :: IsNearest(m, next, keys, k)
    decreases keys
  {
    var k := Pick(keys);
    var rest := keys - {k};
    if rest == {} {
      assert keys == {k};
      assert IsNearest(m, next, keys, k);
    } else {
      NearestExists(m, next, rest);
      var j :| IsNearest(m, next, rest, j);
      assert IsNearest(m, next, keys, if Gap(m, k, next) < Gap(m, j, next) then k else j);
    }
  }

  ghost function Nearest(m: Arith, next: int, keys: set<int>): (k: int)
    requires keys != {}
    ensures IsNearest(m, next, keys, k)
  {
    NearestExists(m, next, keys);
    var k :| IsNearest(m, next, keys, k);
    k
  }

  datatype Skip = Skip(found: bool, adv: Advance)

  /** Gives up on the missing `next`: sweeps every held segment that is not ahead of it, jumps
      to the nearest remaining one, emits it and its successors. */
  ghost function SkipGap(m: Arith, f: Flow): (r: Skip)
    ensures SubMap(r.adv.flow.buf, f.buf)
    ensures SubMap(r.adv.swept, f.buf) && r.adv.swept.Keys !! r.adv.flow.buf.Keys
    ensures r.adv.flow.lastSeen == f.lastSeen
    ensures !r.found ==> r.adv.flow.buf == map[] && r.adv.out == []
    ensures r.found ==> r.adv.flow.next !in r.adv.flow.buf && r.adv.flow.buf.Keys < f.buf.Keys
  {
    var fut := Future(m, f);
    if fut == map[] then
      Skip(false, Advance(f.(buf := map[]), [], f.buf))
    else
      var k := Nearest(m, f.next, fut.Keys);
      var s := fut[k];
      var r := Drain(f.(next := s.end, buf := fut - {k}));
      assert k !in r.flow.buf;
      Skip(true, Advance(r.flow, [s] + r.out, f.buf - fut.Keys))
  }

  /** The flush loop: skip gaps until nothing is held or nothing held is ahead. */
  ghost function FlushAll(m: Arith, f: Flow): (r: Advance)
    ensures r.flow.buf == map[]
    ensures SubMap(r.swept, f.buf)
    decreases f.buf.Keys
  {
    if f.buf == map[] then Advance(f, [], map[])
    else
      var k := SkipGap(m, f);
      if !k.found then k.adv
      else
        var r := FlushAll(m, k.adv.flow);
        Advance(r.flow, k.adv.out + r.out, k.adv.swept + r.swept)
  }

  datatype Config = Config(window: nat, maxAge: int)

  /** What one event does to a flow. `passed` and `delivered` are what is emitted, in that
      order; `dropped` is a segment ignored because its number is already held. */
  datatype Outcome = Outcome(flow: Option<Flow>, passed: seq<Segment>, delivered: seq<Segment>,
                             dropped: seq<Segment>, swept: Held)

  /** The flow record a segment is pushed into: a new one is primed at the segment. */
  ghost function Primed(o: Option<Flow>, s: Segment, now: int): (f: Flow)
    ensures f.lastSeen == now
  {
    if o.None? then Flow(s.start, map[], now) else o.value.(lastSeen := now)
  }

  /** An in-order segment is delivered, and with it every held successor. */
  ghost function Deliver(f: Flow, s: Segment): (r: Outcome)
    ensures r.flow.Some? && r.flow.value.lastSeen == f.lastSeen && r.passed == []
  {
    var a := Drain(f.(next := s.end));
    Outcome(Some(a.flow), [], [s] + a.out, [], map[])
  }

  /** The buffer after setting aside an early segment: a number already held is not replaced. */
  ghost function SetAside(f: Flow, s: Segment): Flow {
    if s.start in f.buf then f else f.(buf := f.buf[s.start := s])
  }

  /** An early segment is set aside; if that overfills the window, a gap is skipped. */
  ghost function Hold(m: Arith, cfg: Config, f: Flow, s: Segment): (r: Outcome)
    ensures r.flow.Some? && r.flow.value.lastSeen == f.lastSeen && r.passed == []
  {
    var g := SetAside(f, s);
    var dropped := if s.start in f.buf then [s] else [];
    if |g.buf| > cfg.window then
      var a := SkipGap(m, g).adv;
      Outcome(Some(a.flow), [], a.out, dropped, a.swept)
    else
      Outcome(Some(g), [], [], dropped, map[])
  }

  /** `Push` for a TCP segment. */
  ghost function Arrive(m: Arith, cfg: Config, o: Option<Flow>, s: Segment, now: int): (r: Outcome)
    ensures r.flow.Some? && r.flow.value.lastSeen == now
  {
    var f := Primed(o, s, now);
    var d := Gap(m, s.start, f.next);
    if d == 0 then Deliver(f, s)
    else if d < 0 then Outcome(Some(f), [s], [], [], map[])
    else Hold(m, cfg, f, s)
  }

  predicate Idle(cfg: Config, f: Flow, now: int) {
    now - f.lastSeen >= cfg.maxAge
  }

  /** `FlushExpired` as seen by one flow: an idle flow is emptied and forgotten. */
  ghost function Tick(m: Arith, cfg: Config, o: Option<Flow>, now: int): (r: Outcome)
    ensures r.flow.Some? ==> r.flow == o && !Idle(cfg, o.value, now)
  {
    if o.None? || !Idle(cfg, o.value, now) then Outcome(o, [], [], [], map[])
    else
      var r := FlushAll(m, o.value);
      Outcome(None, [], r.out, [], r.swept)
  }

  datatype FlowEvent = Arrival(seg: Segment, now: int) | Flush(now: int)

  ghost function React(m: Arith, cfg: Config, o: Option<Flow>, e: FlowEvent): Outcome {
    match e
    case Arrival(s, now) => Arrive(m, cfg, o, s, now)
    case Flush(now) => Tick(m, cfg, o, now)
  }

  /** The whole history of a flow: everything emitted so far, the deliveries grouped by the
      record (from priming to reaping) that made them, and everything not emitted. */
  datatype Ledger = Ledger(flow: Option<Flow>, out: seq<Segment>, epochs: seq<seq<Segment>>,
                           dropped: seq<Segment>, swept: multiset<Segment>)

  /** Deliveries extend the open record's group; the first segment of a new record opens one. */
  ghost function Extend(epochs: seq<seq<Segment>>, opens: bool, more: seq<Segment>): seq<seq<Segment>>
  {
    if opens then epochs + [more]
    else if epochs == [] then epochs
    else epochs[..|epochs| - 1] + [epochs[|epochs| - 1] + more]
  }

  ghost function Record(l: Ledger, e: FlowEvent, r: Outcome): Ledger {
    Ledger(r.flow, l.out + r.passed + r.delivered,
           Extend(l.epochs, e.Arrival? && l.flow.None?, r.delivered),
           l.dropped + r.dropped, l.swept + multiset(r.swept.Values))
  }

  ghost function Run(m: Arith, cfg: Config, es: seq<FlowEvent>): Ledger {
    if es == [] then Ledger(None, [], [], [], multiset{})
    else
      var l := Run(m, cfg, es[..|es| - 1]);
      var e := es[|es| - 1];
      Record(l, e, React(m, cfg, l.flow, e))
  }

  /** The segments pushed by a history, in arrival order. */
  ghost function Arrivals(es: seq<FlowEvent>): seq<Segment> {
    if es == [] then []
    else
      var e := es[|es| - 1];
      Arrivals(es[..|es| - 1]) + if e.Arrival? then [e.seg] else []
  }
}
