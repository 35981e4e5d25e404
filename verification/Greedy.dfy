/** The flush loop as a filter: whatever order the buffer is visited in, flushing an idle flow
    emits what one pass over the held segments, sorted by distance, would keep. */
module Greedy {
  import opened Collections
  import opened Serial
  import opened FlowModel
  import opened FlowLaws
  import opened Refinement

  /** Keeps each segment that starts at or after the end of the last one kept. */
  ghost function Keep(xs: seq<Segment>, from: int): seq<Segment>
    decreases xs
  {
    if xs == [] then []
    else if xs[0].start >= from then [xs[0]] + Keep(xs[1..], xs[0].end)
    else Keep(xs[1..], from)
  }

  /** `xs` lists exactly the held segments, by increasing start. */
  ghost predicate Lists(xs: seq<Segment>, buf: Held) {
    && (forall i :: 0 <= i < |xs| ==> xs[i].start in buf && buf[xs[i].start] == xs[i] && xs[i].start < xs[i].end)
    && (forall k :: k in buf ==> buf[k].start == k && buf[k] in xs)
    && (forall i, j :: 0 <= i < j < |xs| ==> xs[i].start < xs[j].start)
  }

  lemma ListsTail(xs: seq<Segment>, buf: Held)
    requires Lists(xs, buf) && xs != []
    ensures Lists(xs[1..], buf - {xs[0].start})
  {
    var rest := buf - {xs[0].start};
    forall k | k in rest ensures rest[k] in xs[1..] {
      var i :| 0 <= i < |xs| && xs[i] == buf[k];
      assert xs[1..][i - 1] == buf[k];
    }
  }

  /** A segment behind `next` plays no part in a drain. */
  lemma {:induction false} DrainIgnores(f: Flow, k: int)
    requires k in f.buf && k < f.next && forall j :: j in f.buf ==> j < f.buf[j].end
    ensures var a, b := Drain(f), Drain(f.(buf := f.buf - {k}));
      && b.out == a.out && b.flow.next == a.flow.next && b.flow.lastSeen == a.flow.lastSeen
      && k in a.flow.buf && k < a.flow.next && b.flow.buf == a.flow.buf - {k}
    decreases f.buf.Keys
  {
    if f.next in f.buf {
      var s := f.buf[f.next];
      var g := f.(next := s.end, buf := f.buf - {f.next});
      DrainIgnores(g, k);
      assert (f.buf - {k}) - {f.next} == g.buf - {k};
    }
  }

  /** Only the segments ahead of `next` play a part in a flush. */
  lemma FlushOfFuture(m: Arith, f: Flow, g: Flow)
    requires f.next == g.next && f.lastSeen == g.lastSeen && Future(m, f) == Future(m, g)
    ensures FlushAll(m, f).out == FlushAll(m, g).out
  {
    var fut := Future(m, f);
    if fut != map[] {
      var k := Pick(fut.Keys);
      assert k in f.buf && k in g.buf;
      assert SkipGap(m, f).adv.flow == SkipGap(m, g).adv.flow;
    }
  }

  lemma FlushIgnores(f: Flow, k: int)
    requires k in f.buf && k < f.next
    ensures FlushAll(Unbounded, f).out == FlushAll(Unbounded, f.(buf := f.buf - {k})).out
  {
    var g := f.(buf := f.buf - {k});
    assert Future(Unbounded, f) == Future(Unbounded, g);
    FlushOfFuture(Unbounded, f, g);
  }

  ghost function DrainThenFlush(f: Flow): seq<Segment> {
    Drain(f).out + FlushAll(Unbounded, Drain(f).flow).out
  }

  lemma {:induction false} FlushKeeps(f: Flow, xs: seq<Segment>)
    requires Lists(xs, f.buf)
    ensures DrainThenFlush(f) == Keep(xs, f.next)
    decreases |xs|
  {
    if xs == [] {
      assert f.buf == map[] by { assert forall k :: k !in f.buf; }
    } else {
      var s := xs[0];
      var rest := f.buf - {s.start};
      ListsTail(xs, f.buf);
      assert s.start in f.buf && f.buf[s.start] == s;
      var g := f.(next := s.end, buf := rest);
      if s.start < f.next {
        FlushBehind(f, s.start);
        hide DrainThenFlush, Lists;
        FlushKeeps(f.(buf := rest), xs[1..]);
      } else if s.start == f.next {
        DrainStep(f);
        hide DrainThenFlush, Lists;
        FlushKeeps(g, xs[1..]);
      } else {
        FlushStep(f, xs);
        hide DrainThenFlush, Lists;
        FlushKeeps(g, xs[1..]);
      }
    }
  }

  lemma FlushBehind(f: Flow, k: int)
    requires k in f.buf && k < f.next && forall p :: p in f.buf ==> f.buf[p].start == p && p < f.buf[p].end
    ensures DrainThenFlush(f) == DrainThenFlush(f.(buf := f.buf - {k}))
  {
    DrainIgnores(f, k);
    hide Drain, FlushAll;
    FlushIgnores(Drain(f).flow, k);
    assert Drain(f.(buf := f.buf - {k})).flow == Drain(f).flow.(buf := Drain(f).flow.buf - {k});
  }

  lemma DrainStep(f: Flow)
    requires f.next in f.buf
    ensures var s := f.buf[f.next];
      DrainThenFlush(f) == [s] + DrainThenFlush(f.(next := s.end, buf := f.buf - {f.next}))
  {
    var s := f.buf[f.next];
    var g := f.(next := s.end, buf := f.buf - {f.next});
    assert Drain(f).out == [s] + Drain(g).out && Drain(f).flow == Drain(g).flow;
  }

  lemma FlushStep(f: Flow, xs: seq<Segment>)
    requires Lists(xs, f.buf) && xs != [] && f.next < xs[0].start
    ensures DrainThenFlush(f) == [xs[0]] + DrainThenFlush(f.(next := xs[0].end, buf := f.buf - {xs[0].start}))
  {
    hide Lists, Future, Nearest, Drain, SkipGap;
    FirstIsNearest(f, xs);
    var s := xs[0];
    var g := f.(next := s.end, buf := f.buf - {s.start});
    SkipToFirst(f, s);
    assert [] + FlushAll(Unbounded, f).out == FlushAll(Unbounded, f).out;
    assert ([s] + Drain(g).out) + FlushAll(Unbounded, Drain(g).flow).out == [s] + DrainThenFlush(g);
  }

  lemma SkipToFirst(f: Flow, s: Segment)
    requires Future(Unbounded, f) == f.buf && s.start in f.buf && f.buf[s.start] == s
    requires Nearest(Unbounded, f.next, f.buf.Keys) == s.start
    ensures var k := SkipGap(Unbounded, f);
      var d := Drain(f.(next := s.end, buf := f.buf - {s.start}));
      k.found && k.adv.flow == d.flow && k.adv.out == [s] + d.out
  {
    hide Drain, Future, Nearest;
  }

  lemma FirstIsNearest(f: Flow, xs: seq<Segment>)
    requires Lists(xs, f.buf) && xs != [] && f.next < xs[0].start
    ensures Drain(f).flow == f && Drain(f).out == [] && Future(Unbounded, f) == f.buf
    ensures xs[0].start in f.buf && f.buf[xs[0].start] == xs[0]
    ensures Nearest(Unbounded, f.next, f.buf.Keys) == xs[0].start
  {
    var s := xs[0];
    forall k | k in f.buf ensures s.start <= k {
      var i :| 0 <= i < |xs| && xs[i] == f.buf[k];
    }
    assert s.start in f.buf;
    var k := Nearest(Unbounded, f.next, f.buf.Keys);
    assert Gap(Unbounded, k, f.next) <= Gap(Unbounded, s.start, f.next);
  }

  // ---------------------------------------------------------------- held bytes

  /** The number of bytes the held segments cover. */
  ghost function Bytes(buf: Held): nat
    decreases buf.Keys
  {
    if buf == map[] then 0
    else
      var k := Nearest(Unbounded, 0, buf.Keys);
      Length(buf[k]) + Bytes(buf - {k})
  }

  lemma {:induction false} BytesRemove(buf: Held, k: int)
    requires k in buf
    ensures Bytes(buf) == Length(buf[k]) + Bytes(buf - {k})
    decreases buf.Keys
  {
    hide Length;
    var j := Nearest(Unbounded, 0, buf.Keys);
    if j != k {
      var rest := buf - {k};
      assert j in rest;
      var j' := Nearest(Unbounded, 0, rest.Keys);
      assert Gap(Unbounded, j', 0) == Gap(Unbounded, j, 0);
      BytesRemove(buf - {j}, k);
      assert (buf - {j}) - {k} == rest - {j};
    }
  }

  lemma SameKeys<T>(a: set<T>, b: set<T>)
    requires a <= b && b - a == {}
    ensures a == b
  {
    forall x | x in b ensures x in a {
      assert x !in b - a;
    }
  }

  lemma {:induction false} BytesPart(part: Held, buf: Held)
    requires SubMap(part, buf)
    ensures Bytes(part) <= Bytes(buf)
    decreases buf.Keys
  {
    hide Length;
    if buf.Keys - part.Keys != {} {
      var k := Pick(buf.Keys - part.Keys);
      BytesRemove(buf, k);
      BytesPart(part, buf - {k});
    } else {
      SameKeys(part.Keys, buf.Keys);
      assert part == buf;
    }
  }

  /** A buffer of few enough, short enough segments. */
  lemma {:induction false} BytesBound(buf: Held, n: nat)
    requires forall k :: k in buf ==> Length(buf[k]) <= n
    ensures Bytes(buf) <= |buf| * n
    decreases buf.Keys
  {
    if buf != map[] {
      var k := Nearest(Unbounded, 0, buf.Keys);
      var rest := buf - {k};
      BytesBound(rest, n);
      assert rest.Keys == buf.Keys - {k};
      assert |buf| == |buf.Keys| && |rest| == |rest.Keys|;
      assert |rest| + 1 == |buf|;
      assert |buf| * n == |rest| * n + n;
    }
  }

  // ---------------------------------------------------------------- flushing stays in range

  /** Held segments of less than 2^32 bytes, at most `slack` behind `next` and less than 2^31
      ahead of it, where the slack and the held bytes together stay within 2^31. */
  ghost predicate Slack(f: Flow, slack: nat) {
    && (forall k :: k in f.buf ==> f.buf[k].start == k && f.buf[k].end - k == Length(f.buf[k]))
    && (forall k :: k in f.buf ==> f.next - slack <= k < f.next + 0x8000_0000)
    && slack + Bytes(f.buf) <= 0x8000_0000
  }

  lemma {:induction false} DrainInRange(f: Flow, slack: nat) returns (slack': nat)
    requires Slack(f, slack)
    ensures DrainNear(f) && Slack(Drain(f).flow, slack')
    decreases f.buf.Keys
  {
    hide Length;
    slack' := slack;
    if f.next in f.buf {
      var s := f.buf[f.next];
      BytesRemove(f.buf, f.next);
      slack' := DrainInRange(f.(next := s.end, buf := f.buf - {f.next}), slack + Length(s));
    }
  }

  lemma SkipGapInRange(f: Flow, slack: nat) returns (slack': nat)
    requires Slack(f, slack)
    ensures SkipNear(f) && Slack(SkipGap(Unbounded, f).adv.flow, slack')
  {
    hide Length;
    slack' := 0;
    var fut := Future(Unbounded, f);
    if fut != map[] {
      var k := Nearest(Unbounded, f.next, fut.Keys);
      BytesPart(fut, f.buf);
      BytesRemove(fut, k);
      assert forall j :: j in fut ==> Gap(Unbounded, k, f.next) <= Gap(Unbounded, j, f.next);
      assert Slack(Jump(f), Length(fut[k]));
      slack' := DrainInRange(Jump(f), Length(fut[k]));
    }
  }

  lemma {:induction false} FlushInRange(f: Flow, slack: nat)
    requires Slack(f, slack)
    ensures FlushNear(f)
    decreases f.buf.Keys
  {
    var slack' := SkipGapInRange(f, slack);
    if SkipGap(Unbounded, f).found {
      FlushInRange(SkipGap(Unbounded, f).adv.flow, slack');
    }
  }

  // ---------------------------------------------------------------- the 32-bit flush

  /** The held segments by increasing distance from `next`. */
  ghost function ByDistance(next: int, buf: Held): seq<Segment>
    decreases buf.Keys
  {
    if buf == map[] then []
    else
      var k := Nearest(Wrapping, next, buf.Keys);
      [buf[k]] + ByDistance(next, buf - {k})
  }

  /** The greedy pass in 32-bit terms: offsets from `next`, keeping each segment whose offset is
      not below the end of the last one kept. */
  ghost function KeepByOffset(next: int, xs: seq<Segment>, from: int): seq<Segment>
    decreases xs
  {
    if xs == [] then []
    else
      var offset := Dist(xs[0].start, next);
      if offset >= from then [xs[0]] + KeepByOffset(next, xs[1..], offset + Length(xs[0]))
      else KeepByOffset(next, xs[1..], from)
  }

  /** The segment at the unbounded position nearest to `base` that its number stands for. */
  ghost function LiftSegment(base: int, s: Segment): Segment {
    var p := Lift(base, s.start);
    Segment(p, p + Length(s), s.data)
  }

  ghost function LiftAll(base: int, xs: seq<Segment>): (ys: seq<Segment>)
    ensures |ys| == |xs| && forall i :: 0 <= i < |xs| ==> ys[i] == LiftSegment(base, xs[i])
  {
    seq(|xs|, i requires 0 <= i < |xs| => LiftSegment(base, xs[i]))
  }

  ghost predicate Numbered(s: Segment) {
    ValidSegment(Wrapping, s) && Length(s) > 0
  }

  lemma LiftedSegment(base: int, s: Segment)
    requires IsSeq(base) && Numbered(s)
    ensures var t := LiftSegment(base, s);
      && WrapSegment(t) == s && Reachable(t.start - base)
      && t.start - base == Dist(s.start, base) && t.start < t.end && Length(t) == t.end - t.start == Length(s)
  {
    hide Wrap, Dist;
    WrapOfSeq(base);
    WrapOfLift(s.start, base);
    LengthReachesEnd(Lift(base, s.start), s);
    WrapOfSeq(Length(s));
  }

  /** `xs` holds 32-bit segments by strictly increasing distance, all ahead of `next`. */
  ghost predicate Spread(next: int, xs: seq<Segment>) {
    && (forall i :: 0 <= i < |xs| ==> Numbered(xs[i]) && Dist(xs[i].start, next) > 0)
    && (forall i, j :: 0 <= i < j < |xs| ==> Dist(xs[i].start, next) < Dist(xs[j].start, next))
  }

  lemma {:induction false} KeepLifted(base: int, xs: seq<Segment>, from: int)
    requires IsSeq(base) && forall i :: 0 <= i < |xs| ==> Numbered(xs[i])
    ensures WrapAll(Keep(LiftAll(base, xs), base + from)) == KeepByOffset(base, xs, from)
    decreases xs
  {
    hide Wrap, Dist, Length, Lift, LiftSegment, WrapSegment, Numbered;
    if xs != [] {
      var t := LiftSegment(base, xs[0]);
      LiftedSegment(base, xs[0]);
      assert LiftAll(base, xs)[1..] == LiftAll(base, xs[1..]);
      if t.start - base >= from {
        KeepLifted(base, xs[1..], t.end - base);
        var rest := Keep(LiftAll(base, xs[1..]), t.end);
        assert WrapAll([t] + rest) == [WrapSegment(t)] + WrapAll(rest);
      } else {
        KeepLifted(base, xs[1..], from);
      }
    }
  }

  lemma SpreadCons(next: int, s: Segment, xs: seq<Segment>)
    requires Spread(next, xs) && Numbered(s) && Dist(s.start, next) > 0
    requires forall i :: 0 <= i < |xs| ==> Dist(s.start, next) < Dist(xs[i].start, next)
    ensures Spread(next, [s] + xs)
  {
    hide Dist, Numbered;
  }

  lemma NearestStrictly(next: int, keys: set<int>, j: int)
    requires j in keys && (forall k :: k in keys ==> IsSeq(k)) && j != Nearest(Wrapping, next, keys)
    ensures Dist(Nearest(Wrapping, next, keys), next) < Dist(j, next)
  {
    var k := Nearest(Wrapping, next, keys);
    assert Gap(Wrapping, k, next) <= Gap(Wrapping, j, next);
    if Dist(k, next) == Dist(j, next) { DistInjective(k, j, next); }
  }

  lemma {:induction false} ByDistanceLists(next: int, buf: Held)
    requires forall k :: k in buf ==> buf[k].start == k
    ensures var xs := ByDistance(next, buf);
      && (forall i :: 0 <= i < |xs| ==> xs[i].start in buf && buf[xs[i].start] == xs[i])
      && (forall k :: k in buf ==> buf[k] in xs)
    decreases buf.Keys
  {
    if buf != map[] {
      var k := Nearest(Wrapping, next, buf.Keys);
      var rest := buf - {k};
      ByDistanceLists(next, rest);
      forall j | j in buf ensures buf[j] in ByDistance(next, buf) {
        if j != k { assert rest[j] in ByDistance(next, rest); }
      }
    }
  }

  lemma {:induction false} ByDistanceSpread(next: int, buf: Held)
    requires forall k :: k in buf ==> buf[k].start == k && Numbered(buf[k]) && Dist(k, next) > 0
    ensures Spread(next, ByDistance(next, buf))
    decreases buf.Keys
  {
    hide Length, Wrap, Dist;
    if buf != map[] {
      var k := Nearest(Wrapping, next, buf.Keys);
      var rest := buf - {k};
      ByDistanceSpread(next, rest);
      ByDistanceLists(next, rest);
      var xs := ByDistance(next, rest);
      forall i | 0 <= i < |xs| ensures Dist(k, next) < Dist(xs[i].start, next) {
        NearestStrictly(next, buf.Keys, xs[i].start);
      }
      SpreadCons(next, buf[k], xs);
    }
  }

  /** The held segments at the unbounded positions they stand for. */
  ghost function LiftHeld(base: int, buf: Held): Held {
    map p | p in (set k | k in buf :: Lift(base, k)) && Wrap(p) in buf :: LiftSegment(base, buf[Wrap(p)])
  }

  ghost predicate AllNumbered(buf: Held) {
    forall k :: k in buf ==> buf[k].start == k && Numbered(buf[k])
  }

  lemma LiftedHeld(base: int, buf: Held)
    requires IsSeq(base) && AllNumbered(buf)
    ensures forall k {:trigger Lift(base, k)} :: k in buf ==> Lift(base, k) in LiftHeld(base, buf)
    ensures forall p {:trigger Wrap(p)} :: p in LiftHeld(base, buf) ==>
      && Wrap(p) in buf && LiftHeld(base, buf)[p] == LiftSegment(base, buf[Wrap(p)])
      && Lift(base, Wrap(p)) == p && Reachable(p - base)
  {
    forall k | k in buf ensures Lift(base, k) in LiftHeld(base, buf) {
      LiftedSegment(base, buf[k]);
    }
    forall p | p in LiftHeld(base, buf) ensures Lift(base, Wrap(p)) == p && Reachable(p - base) {
      var k :| k in buf && p == Lift(base, k);
      LiftedSegment(base, buf[k]);
      LiftOfWrap(base, p);
    }
  }

  lemma LiftSimulates(g: Flow)
    requires IsSeq(g.next) && AllNumbered(g.buf)
    ensures var f := g.(buf := LiftHeld(g.next, g.buf)); Simulates(f, g) && Near(f)
  {
    hide Wrap, Dist, Length, LiftHeld, LiftSegment;
    WrapOfSeq(g.next);
    var f := g.(buf := LiftHeld(g.next, g.buf));
    LiftedHeld(g.next, g.buf);
    forall p | p in f.buf
      ensures f.buf[p].start == p
      ensures Wrap(p) in g.buf && Reachable(p - g.next) && g.buf[Wrap(p)] == WrapSegment(f.buf[p])
    {
      assert Wrap(p) in g.buf;
      LiftedSegment(g.next, g.buf[Wrap(p)]);
    }
  }

  lemma LiftedWrap(base: int, s: int)
    requires IsSeq(base) && IsSeq(s)
    ensures Wrap(Lift(base, s)) == s
  {
    WrapOfLift(s, base);
  }

  lemma LiftedSorted(base: int, xs: seq<Segment>)
    requires IsSeq(base) && Spread(base, xs)
    ensures var ys := LiftAll(base, xs);
      && (forall i :: 0 <= i < |ys| ==> ys[i].start < ys[i].end)
      && (forall i, j :: 0 <= i < j < |ys| ==> ys[i].start < ys[j].start)
  {
    hide Dist, LiftSegment, Numbered;
    forall i | 0 <= i < |xs| ensures
      var t := LiftSegment(base, xs[i]); t.start < t.end && t.start - base == Dist(xs[i].start, base)
    {
      LiftedSegment(base, xs[i]);
    }
  }

  lemma LiftedEntry(base: int, buf: Held, s: Segment)
    requires IsSeq(base) && AllNumbered(buf) && s.start in buf && buf[s.start] == s
    ensures var t := LiftSegment(base, s); t.start in LiftHeld(base, buf) && LiftHeld(base, buf)[t.start] == t
  {
    hide Dist, Length, Wrap, LiftHeld;
    LiftedHeld(base, buf);
    LiftedWrap(base, s.start);
  }

  lemma ListsLifted(base: int, buf: Held)
    requires IsSeq(base) && AllNumbered(buf) && forall k :: k in buf ==> Dist(k, base) > 0
    ensures Lists(LiftAll(base, ByDistance(base, buf)), LiftHeld(base, buf))
  {
    hide Wrap, Dist, Lift, LiftHeld, LiftSegment, ByDistance, Spread;
    var xs := ByDistance(base, buf);
    var ys, lifted := LiftAll(base, xs), LiftHeld(base, buf);
    ByDistanceLists(base, buf);
    ByDistanceSpread(base, buf);
    LiftedSorted(base, xs);
    forall i | 0 <= i < |ys| ensures ys[i].start in lifted && lifted[ys[i].start] == ys[i] {
      LiftedEntry(base, buf, xs[i]);
    }
    forall p | p in lifted ensures lifted[p].start == p && lifted[p] in ys {
      LiftedHeld(base, buf);
      var k := Wrap(p);
      var i :| 0 <= i < |xs| && xs[i] == buf[k];
      assert ys[i] == lifted[p];
      StartOfLifted(base, buf[k]);
    }
  }

  lemma StartOfLifted(base: int, s: Segment)
    ensures LiftSegment(base, s).start == Lift(base, s.start)
  {
  }

  lemma {:induction false} BytesLifted(base: int, buf: Held)
    requires IsSeq(base) && AllNumbered(buf)
    ensures Bytes(LiftHeld(base, buf)) == Bytes(buf)
    decreases buf.Keys
  {
    hide Wrap, Dist, Length, Lift, LiftHeld;
    var lifted := LiftHeld(base, buf);
    LiftedHeld(base, buf);
    if buf == map[] {
      if lifted != map[] {
        var p := Pick(lifted.Keys);
        var s := Wrap(p);
      }
    } else {
      var k := Nearest(Unbounded, 0, buf.Keys);
      var p := Lift(base, k);
      var rest := buf - {k};
      LiftedSegment(base, buf[k]);
      LiftedWrap(base, k);
      BytesLifted(base, rest);
      LiftedRest(base, buf, k);
      BytesRemove(lifted, p);
    }
  }

  lemma LiftedRest(base: int, buf: Held, k: int)
    requires IsSeq(base) && AllNumbered(buf) && k in buf
    ensures LiftHeld(base, buf) - {Lift(base, k)} == LiftHeld(base, buf - {k})
  {
    hide Dist, Length, Lift, LiftHeld, Wrap;
    var a, b := LiftHeld(base, buf) - {Lift(base, k)}, LiftHeld(base, buf - {k});
    LiftedHeld(base, buf);
    LiftedHeld(base, buf - {k});
    LiftedWrap(base, k);
    forall p | p in a ensures p in b && b[p] == a[p] {
      assert Lift(base, Wrap(p)) == p;
    }
    forall p | p in b ensures p in a {
      assert Lift(base, Wrap(p)) == p;
    }
  }

  /** The greedy filter for a flow that holds nothing behind `next`. */
  lemma FlushOfAheadIsGreedy(g: Flow)
    requires IsSeq(g.next) && AllNumbered(g.buf) && Bytes(g.buf) <= 0x8000_0000
    requires forall k :: k in g.buf ==> Dist(k, g.next) > 0
    ensures FlushAll(Wrapping, g).out == KeepByOffset(g.next, ByDistance(g.next, g.buf), 0)
  {
    hide Wrap, Dist, Length, LiftHeld, Simulates, FlushAll, Keep, KeepByOffset, ByDistance, FlushNear, Lists, Slack, LiftAll;
    var f := g.(buf := LiftHeld(g.next, g.buf));
    var xs := ByDistance(g.next, g.buf);
    BytesLifted(g.next, g.buf);
    LiftSimulates(g);
    LiftedFutureHasSlack(g.next, g.buf, g.lastSeen);
    FlushInRange(f, 0);
    FlushSimulates(f, g);
    ListsLifted(g.next, g.buf);
    FlushKeeps(f, LiftAll(g.next, xs));
    assert DrainThenFlush(f) == FlushAll(Unbounded, f).out;
    hide *;
    KeepByDistance(g.next, g.buf);
  }

  lemma KeepByDistance(base: int, buf: Held)
    requires IsSeq(base) && AllNumbered(buf) && forall k :: k in buf ==> Dist(k, base) > 0
    ensures var xs := ByDistance(base, buf); WrapAll(Keep(LiftAll(base, xs), base)) == KeepByOffset(base, xs, 0)
  {
    hide Keep, KeepByOffset, ByDistance, LiftAll;
    ByDistanceSpread(base, buf);
    KeepLifted(base, ByDistance(base, buf), 0);
  }

  lemma FutureOfFuture(m: Arith, g: Flow)
    ensures Future(m, g.(buf := Future(m, g))) == Future(m, g)
    ensures forall k :: k in Future(m, g) ==> Gap(m, k, g.next) > 0
  {
  }

  /** Flush as a greedy filter: flushing a 32-bit flow whose held bytes total at most 2^31 emits
      exactly the segments that a pass over its future segments by distance would keep. */
  lemma FlushIsGreedy(g: Flow)
    requires IsSeq(g.next) && AllNumbered(g.buf) && Bytes(g.buf) <= 0x8000_0000
    ensures FlushAll(Wrapping, g).out == KeepByOffset(g.next, ByDistance(g.next, Future(Wrapping, g)), 0)
  {
    var fut := Future(Wrapping, g);
    FutureOfFuture(Wrapping, g);
    hide Dist, Length, Future, FlushAll, KeepByOffset, ByDistance, Numbered;
    BytesPart(fut, g.buf);
    FlushOfFuture(Wrapping, g, g.(buf := fut));
    FlushOfAheadIsGreedy(g.(buf := fut));
  }

  lemma LiftedFutureHasSlack(next: int, fut: Held, lastSeen: int)
    requires IsSeq(next) && AllNumbered(fut) && Bytes(LiftHeld(next, fut)) <= 0x8000_0000
    requires forall k :: k in fut ==> Dist(k, next) > 0
    ensures var f := Flow(next, LiftHeld(next, fut), lastSeen); Slack(f, 0) && f.next !in f.buf
  {
    LiftedHeld(next, fut);
    forall p | p in LiftHeld(next, fut) ensures
      var s := LiftHeld(next, fut)[p]; s.start == p && s.end - p == Length(s) && next < p < next + 0x8000_0000
    {
      LiftedSegment(next, fut[Wrap(p)]);
    }
  }

  /** The same for every reachable idle flow, when the window is small enough for the packets it
      can hold: 128 segments of at most 4096 bytes, as configured, are far below the limit. */
  lemma IdleFlushIsGreedy(cfg: Config, es: seq<FlowEvent>, n: nat, now: int)
    requires forall i :: 0 <= i < |es| && es[i].Arrival? ==> Numbered(es[i].seg) && Length(es[i].seg) <= n
    requires cfg.window * n <= 0x8000_0000
    requires var o := Run(Wrapping, cfg, es).flow; o.Some? && Idle(cfg, o.value, now)
    ensures var g := Run(Wrapping, cfg, es).flow.value;
      Run(Wrapping, cfg, es + [Flush(now)]).out
      == Run(Wrapping, cfg, es).out + KeepByOffset(g.next, ByDistance(g.next, Future(Wrapping, g)), 0)
  {
    hide KeepByOffset, ByDistance, FlushAll, Future, Length, Bytes, Run;
    var g := Run(Wrapping, cfg, es).flow.value;
    ReachableBytes(cfg, es, n);
    FlushIsGreedy(g);
    OneFlushMore(cfg, es, now);
  }

  lemma OneFlushMore(cfg: Config, es: seq<FlowEvent>, now: int)
    requires var o := Run(Wrapping, cfg, es).flow; o.Some? && Idle(cfg, o.value, now)
    ensures Run(Wrapping, cfg, es + [Flush(now)]).out
      == Run(Wrapping, cfg, es).out + FlushAll(Wrapping, Run(Wrapping, cfg, es).flow.value).out
  {
    hide FlushAll, Arrive;
    assert (es + [Flush(now)])[..|es|] == es;
    var l := Run(Wrapping, cfg, es);
    assert l.out + [] == l.out;
  }

  lemma ReachableBytes(cfg: Config, es: seq<FlowEvent>, n: nat)
    requires forall i :: 0 <= i < |es| && es[i].Arrival? ==> Numbered(es[i].seg) && Length(es[i].seg) <= n
    requires cfg.window * n <= 0x8000_0000 && Run(Wrapping, cfg, es).flow.Some?
    ensures var g := Run(Wrapping, cfg, es).flow.value;
      IsSeq(g.next) && AllNumbered(g.buf) && Bytes(g.buf) <= 0x8000_0000
  {
    hide Run, Length, Bytes;
    RunSound(Wrapping, cfg, es);
    var g := Run(Wrapping, cfg, es).flow.value;
    forall k | k in g.buf ensures Numbered(g.buf[k]) && Length(g.buf[k]) <= n {
      HeldArrived(Wrapping, cfg, es, k);
      ArrivalOf(es, g.buf[k]);
    }
    BytesBound(g.buf, n);
    assert |g.buf| * n <= cfg.window * n;
  }

  lemma {:induction false} ArrivalOf(es: seq<FlowEvent>, x: Segment)
    requires x in Arrivals(es)
    ensures exists i :: 0 <= i < |es| && es[i].Arrival? && es[i].seg == x
  {
    var init := es[..|es| - 1];
    if x in Arrivals(init) {
      ArrivalOf(init, x);
      var i :| 0 <= i < |init| && init[i].Arrival? && init[i].seg == x;
      assert es[i] == init[i];
    }
  }
}
