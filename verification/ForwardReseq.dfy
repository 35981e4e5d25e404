/** `ForwardReseq` as the program runs it: flow records on the heap, packets as slices of byte
    arrays, held segments in arrays of their own, loops over maps in an arbitrary order. Each
    method is proved against the function of the same purpose on values. */
module ForwardReseqImpl {
  import opened Collections
  import opened Serial
  import M = FlowModel
  import opened FlowLaws
  import opened Packet
  import R = Resequencer

  /** arr[:len], a Go slice from the start of its backing array. */
  datatype Slice = Slice(arr: array<bv8>, len: nat)

  ghost function Arrays(out: seq<Slice>): set<array<bv8>> {
    set i | 0 <= i < |out| :: out[i].arr
  }

  /** The slices denote, now, exactly the packets of these segments. */
  ghost predicate Denotes(out: seq<Slice>, xs: seq<M.Segment>)
    reads Arrays(out)
  {
    && |out| == |xs|
    && forall i :: 0 <= i < |out| ==> out[i].len <= out[i].arr.Length && out[i].arr[..out[i].len] == xs[i].data
  }

  lemma DenotesAppend(out: seq<Slice>, xs: seq<M.Segment>, more: seq<Slice>, ys: seq<M.Segment>)
    requires Denotes(out, xs) && Denotes(more, ys)
    ensures Denotes(out + more, xs + ys) && Arrays(out + more) == Arrays(out) + Arrays(more)
  {
    forall a | a in Arrays(out) + Arrays(more) ensures a in Arrays(out + more) {
      if a in Arrays(out) {
        var i :| 0 <= i < |out| && out[i].arr == a;
        assert (out + more)[i].arr == a;
      } else {
        var i :| 0 <= i < |more| && more[i].arr == a;
        assert (out + more)[|out| + i].arr == a;
      }
    }
  }

  lemma DenotesOne(a: array<bv8>, n: nat, x: M.Segment)
    requires n <= a.Length && a[..n] == x.data
    ensures Denotes([Slice(a, n)], [x]) && Arrays([Slice(a, n)]) == {a}
  {
    assert [Slice(a, n)][0].arr == a;
  }

  lemma DenotesNone()
    ensures Denotes([], []) && Arrays([]) == {}
  {
  }

  /** `reseqEntry`: an owned copy of the packet and the number after it. */
  datatype Entry = Entry(data: array<bv8>, nextAfter: int)

  lemma DrainStep(f: M.Flow)
    requires f.next in f.buf
    ensures var s := f.buf[f.next];
      var r := M.Drain(f.(next := s.end, buf := f.buf - {f.next}));
      M.Drain(f).flow == r.flow && M.Drain(f).out == [s] + r.out
  {
  }

  lemma DrainStop(f: M.Flow)
    requires f.next !in f.buf
    ensures M.Drain(f).flow == f && M.Drain(f).out == []
  {
  }

  lemma NearestUnique(next: int, keys: set<int>, k: int)
    requires M.IsNearest(Wrapping, next, keys, k) && forall j :: j in keys ==> IsSeq(j)
    ensures keys != {} && M.Nearest(Wrapping, next, keys) == k
  {
    var j := M.Nearest(Wrapping, next, keys);
    assert Gap(Wrapping, j, next) <= Gap(Wrapping, k, next) <= Gap(Wrapping, j, next);
    DistInjective(j, k, next);
  }

  class ReseqFlow {
    var primed: bool
    var nextSeq: int
    var buf: map<int, Entry>
    var lastSeen: int

    constructor ()
      ensures !primed && buf == map[]
    {
      primed, nextSeq, buf, lastSeen := false, 0, map[], 0;
    }

    /** The arrays that hold this flow's copies. */
    ghost function Owned(): set<array<bv8>>
      reads this`buf
    {
      set k | k in buf :: buf[k].data
    }

    ghost predicate Valid()
      reads this
    {
      IsSeq(nextSeq) && forall k :: k in buf ==> IsSeq(k) && IsSeq(buf[k].nextAfter)
    }

    ghost function HeldView(): M.Held
      reads this`buf, Owned()
    {
      map k | k in buf :: M.Segment(k, buf[k].nextAfter, buf[k].data[..])
    }

    /** The flow as a value. */
    ghost function View(): M.Flow
      reads this, Owned()
    {
      M.Flow(nextSeq, HeldView(), lastSeen)
    }

    lemma OwnsNothing()
      requires buf == map[]
      ensures Owned() == {}
    {
    }

    lemma ViewKeys()
      ensures View().buf.Keys == buf.Keys && View().next == nextSeq && View().lastSeen == lastSeen
    {
    }

    /** No one has written to the flow, nor to the copies it holds. */
    twostate predicate Kept()
      reads this, Owned()
    {
      unchanged(this) && forall k :: k in old(buf) ==> buf[k].data[..] == old(buf[k].data[..])
    }

    twostate lemma Untouched()
      requires Kept()
      ensures View() == old(View()) && Owned() == old(Owned()) && Valid() == old(Valid()) && primed == old(primed)
    {
      assert HeldView() == old(HeldView());
    }

    /** Takes the entry for a buffered number out of the buffer and expects its successor. */
    method Take(k: int) returns (e: Entry)
      requires Valid() && k in buf
      modifies this`nextSeq, this`buf
      ensures Valid() && Owned() <= old(Owned()) && buf == old(buf) - {k}
      ensures e.data in old(Owned())
      ensures var s := old(View()).buf[k];
        e.data[..] == s.data && View() == old(View()).(next := s.end, buf := old(View()).buf - {k})
    {
      e := buf[k];
      assert e.data in Owned();
      buf := buf - {k};
      nextSeq := e.nextAfter;
      assert HeldView() == old(HeldView()) - {k};
    }

    /** The drain loop: takes out the entry filed under nextSeq until there is none. */
    method Drain() returns (out: seq<Slice>)
      requires Valid()
      modifies this`nextSeq, this`buf
      ensures Valid() && Owned() <= old(Owned())
      ensures View() == M.Drain(old(View())).flow
      ensures Arrays(out) <= old(Owned()) && Denotes(out, M.Drain(old(View())).out)
    {
      hide M.Drain, Denotes, Arrays;
      DenotesNone();
      out := [];
      ghost var done: seq<M.Segment> := [];
      while nextSeq in buf
        invariant Valid() && Owned() <= old(Owned())
        invariant Arrays(out) <= old(Owned()) && Denotes(out, done)
        invariant M.Drain(old(View())).flow == M.Drain(View()).flow
        invariant M.Drain(old(View())).out == done + M.Drain(View()).out
        decreases buf.Keys
      {
        ghost var was := View();
        DrainStep(was);
        ghost var s := was.buf[nextSeq];
        var e := Take(nextSeq);
        assert done + ([s] + M.Drain(View()).out) == (done + [s]) + M.Drain(View()).out;
        DenotesOne(e.data, e.data.Length, s);
        DenotesAppend(out, done, [Slice(e.data, e.data.Length)], [s]);
        out, done := out + [Slice(e.data, e.data.Length)], done + [s];
      }
      DrainStop(View());
      assert done + [] == done;
    }

    /** The loop of `skipGap`: visits the buffered numbers in an arbitrary order, deleting those
        that are not ahead of nextSeq, and finds the nearest of the others. */
    method SweepAndFind() returns (found: bool, oldest: int)
      requires Valid()
      modifies this`buf
      ensures Valid() && Owned() <= old(Owned())
      ensures View() == old(View()).(buf := M.Future(Wrapping, old(View())))
      ensures found <==> buf != map[]
      ensures found ==> oldest in buf && oldest == M.Nearest(Wrapping, nextSeq, buf.Keys)
    {
      hide Dist;
      ghost var was := buf;
      var best := 0;
      found, oldest := false, 0;
      var rest := buf.Keys;
      while rest != {}
        invariant rest <= buf.Keys && SubMap(buf, was)
        invariant forall k :: k in was ==> (k in buf <==> k in rest || Dist(k, nextSeq) > 0)
        invariant !found ==> buf.Keys == rest
        invariant found ==> oldest in buf && oldest !in rest && best == Dist(oldest, nextSeq)
        invariant found ==> forall k :: k in buf && k !in rest ==> best <= Dist(k, nextSeq)
        decreases rest
      {
        ghost var w := Pick(rest);
        var s :| s in rest;
        rest := rest - {s};
        var dist := Dist(s, nextSeq);
        if dist <= 0 {
          buf := buf - {s};
        } else if !found || dist < best {
          found, best, oldest := true, dist, s;
        }
      }
      assert HeldView() == M.Future(Wrapping, old(View()));
      if found {
        assert M.IsNearest(Wrapping, nextSeq, buf.Keys, oldest);
        NearestUnique(nextSeq, buf.Keys, oldest);
      } else {
        assert buf == map[];
      }
    }

    /** The whole of `skipGap`: the sweep, then the entry it found, then the drain loop; `ok` says
        whether it found one. */
    method SkipGap() returns (out: seq<Slice>, ok: bool)
      requires Valid()
      modifies this`nextSeq, this`buf
      ensures Valid() && Owned() <= old(Owned())
      ensures var r := M.SkipGap(Wrapping, old(View()));
        ok == r.found && View() == r.adv.flow && Arrays(out) <= old(Owned()) && Denotes(out, r.adv.out)
    {
      hide M.Drain, M.Nearest, M.Future, Denotes, Arrays;
      DenotesNone();
      var found, oldest := SweepAndFind();
      if !found {
        assert HeldView() == map[];
        return [], false;
      }
      ghost var mid := View();
      assert mid.buf.Keys == buf.Keys;
      var e := Take(oldest);
      ghost var s := mid.buf[oldest];
      ghost var tail := M.Drain(View()).out;
      var rest := Drain();
      DenotesOne(e.data, e.data.Length, s);
      DenotesAppend([Slice(e.data, e.data.Length)], [s], rest, tail);
      out, ok := [Slice(e.data, e.data.Length)] + rest, true;
    }

    /** The flush loop of `FlushExpired` for this flow. It never leaves anything behind: when no
        future segment remains, the sweep has already emptied the buffer. */
    method FlushAll() returns (out: seq<Slice>)
      requires Valid()
      modifies this`nextSeq, this`buf
      ensures Valid() && Arrays(out) <= old(Owned()) && buf == map[]
      ensures Denotes(out, M.FlushAll(Wrapping, old(View())).out)
    {
      hide M.FlushAll, M.SkipGap, Denotes, View, HeldView, Owned;
      DenotesNone();
      out := [];
      ghost var done: seq<M.Segment> := [];
      while |buf| > 0
        invariant Valid() && Owned() <= old(Owned()) && Arrays(out) <= old(Owned())
        invariant Denotes(out, done)
        invariant M.FlushAll(Wrapping, old(View())).out == done + M.FlushAll(Wrapping, View()).out
        decreases buf.Keys
      {
        ghost var was := View();
        ghost var xs := M.SkipGap(Wrapping, was).adv.out;
        ViewKeys();
        FlushStep(was);
        var more, ok := SkipGap();
        ViewKeys();
        assert done + (xs + M.FlushAll(Wrapping, View()).out) == (done + xs) + M.FlushAll(Wrapping, View()).out;
        DenotesAppend(out, done, more, xs);
        out, done := out + more, done + xs;
        if !ok {
          break;
        }
      }
      ViewKeys();
      FlushStop(View());
      assert done + [] == done;
    }

    /** Keeps a copy of an early segment, unless its number is buffered already. */
    method SetAside(ip: Slice, s: M.Segment)
      requires Valid() && ValidSegment(Wrapping, s) && ip.len <= ip.arr.Length && ip.arr[..ip.len] == s.data
      modifies this`buf
      ensures Valid() && View() == M.SetAside(old(View()), s)
      ensures forall a :: a in Owned() ==> a in old(Owned()) || fresh(a)
    {
      if s.start !in buf {
        var cp := new bv8[ip.len];
        forall i | 0 <= i < ip.len {
          cp[i] := ip.arr[i];
        }
        assert cp[..] == ip.arr[..ip.len];
        assert forall k :: k in buf ==> buf[k].data[..] == old(buf[k].data[..]);
        buf := buf[s.start := Entry(cp, s.end)];
        ghost var held := HeldView();
        assert held[s.start].data == s.data;
        assert held == old(HeldView())[s.start := s];
      }
    }

    /** The early case of `Push`. */
    method Hold(ip: Slice, s: M.Segment, cfg: M.Config) returns (out: seq<Slice>)
      requires Valid() && ValidSegment(Wrapping, s) && ip.len <= ip.arr.Length && ip.arr[..ip.len] == s.data
      modifies this`nextSeq, this`buf
      ensures Valid()
      ensures var r := M.Hold(Wrapping, cfg, old(View()), s); View() == r.flow.value && Denotes(out, r.delivered)
      ensures forall a :: a in Owned() ==> a in old(Owned()) || fresh(a)
      ensures forall a :: a in Arrays(out) ==> a in old(Owned()) || fresh(a)
    {
      hide M.SkipGap, M.SetAside, Denotes, View, HeldView, Owned;
      SetAside(ip, s);
      ViewKeys();
      assert |View().buf| == |View().buf.Keys| && |buf| == |buf.Keys|;
      DenotesNone();
      out := [];
      if |buf| > cfg.window {
        var ok;
        out, ok := SkipGap();
      }
    }

    /** `Push` for a segment of this flow. The slice `ip` itself is emitted, or the segment is
        copied; it is never kept. */
    method Accept(ip: Slice, s: M.Segment, now: int, cfg: M.Config) returns (out: seq<Slice>)
      requires if primed then Valid() else buf == map[]
      requires ValidSegment(Wrapping, s) && ip.len <= ip.arr.Length && ip.arr[..ip.len] == s.data
      modifies this
      ensures primed && Valid()
      ensures var o := if old(primed) then Some(old(View())) else None;
        var r := M.Arrive(Wrapping, cfg, o, s, now);
        View() == r.flow.value && Denotes(out, r.passed + r.delivered)
      ensures forall a :: a in Owned() ==> a in old(Owned()) || fresh(a)
      ensures forall a :: a in Arrays(out) ==> a == ip.arr || a in old(Owned()) || fresh(a)
    {
      ghost var o := if primed then Some(View()) else None;
      lastSeen := now;
      if !primed {
        primed := true;
        nextSeq := s.start;
        assert HeldView() == map[];
      }
      ghost var f := View();
      assert f == M.Primed(o, s, now);
      hide M.Drain, M.Hold, Denotes, HeldView, Owned, Dist;
      DenotesOne(ip.arr, ip.len, s);
      var d := Dist(s.start, nextSeq);
      if d == 0 {
        nextSeq := s.end;
        ghost var g := View();
        assert g == f.(next := s.end);
        var rest := Drain();
        DenotesAppend([ip], [s], rest, M.Drain(g).out);
        out := [ip] + rest;
        assert [] + ([s] + M.Drain(g).out) == [s] + M.Drain(g).out;
      } else if d < 0 {
        out := [ip];
        assert [s] + [] == [s];
      } else {
        out := Hold(ip, s, cfg);
        ghost var r := M.Hold(Wrapping, cfg, f, s);
        assert r.passed + r.delivered == r.delivered;
      }
    }
  }

  lemma FlushStep(f: M.Flow)
    requires f.buf.Keys != {}
    ensures var k := M.SkipGap(Wrapping, f);
      && M.FlushAll(Wrapping, f).out == k.adv.out + M.FlushAll(Wrapping, k.adv.flow).out
      && k.adv.flow.buf.Keys < f.buf.Keys && (!k.found ==> k.adv.flow.buf.Keys == {})
  {
    assert f.buf != map[];
  }

  lemma FlushStop(f: M.Flow)
    requires f.buf.Keys == {}
    ensures M.FlushAll(Wrapping, f).out == []
  {
    assert f.buf == map[];
  }

  // ---------------------------------------------------------------- all flows

  /** The slices denote, now, exactly these packets. */
  ghost predicate Carries(out: seq<Slice>, ps: seq<Bytes>)
    reads Arrays(out)
  {
    && |out| == |ps|
    && forall i :: 0 <= i < |out| ==> out[i].len <= out[i].arr.Length && out[i].arr[..out[i].len] == ps[i]
  }

  lemma CarriesAppend(out: seq<Slice>, ps: seq<Bytes>, more: seq<Slice>, qs: seq<Bytes>)
    requires Carries(out, ps) && Carries(more, qs)
    ensures Carries(out + more, ps + qs)
    ensures forall a :: a in Arrays(out + more) ==> a in Arrays(out) || a in Arrays(more)
  {
  }

  lemma CarriesPackets(out: seq<Slice>, xs: seq<M.Segment>)
    requires Denotes(out, xs)
    ensures Carries(out, R.Packets(xs))
  {
  }

  /** Visiting one more flow at the end of a flush. */
  lemma {:induction false} FlushOneMore(cfg: M.Config, flows: R.Flows, now: int, order: seq<FlowKey>, k: FlowKey)
    ensures var s := R.FlushInOrder(cfg, flows, now, order);
      var r := M.Tick(Wrapping, cfg, R.Get(s.flows, k), now);
      R.FlushInOrder(cfg, flows, now, order + [k])
      == R.System(R.Put(s.flows, k, r.flow), s.out + R.Packets(r.passed + r.delivered))
    decreases order
  {
    hide M.Tick, R.Put, R.Get, R.Packets;
    if order == [] {
      var r := M.Tick(Wrapping, cfg, R.Get(flows, k), now);
      var ps := R.Packets(r.passed + r.delivered);
      assert order + [k] == [k] && [k][1..] == [];
      assert ps + [] == [] + ps;
    } else {
      var h := order[0];
      var r := M.Tick(Wrapping, cfg, R.Get(flows, h), now);
      var flows' := R.Put(flows, h, r.flow);
      FlushOneMore(cfg, flows', now, order[1..], k);
      assert (order + [k])[0] == h && (order + [k])[1..] == order[1..] + [k];
    }
  }

  class ForwardReseq {
    var flows: map<FlowKey, ReseqFlow>
    const window: nat
    const maxAge: int

    /** Times are in nanoseconds. */
    constructor (window: int, maxAge: int)
      ensures Valid() && fresh(Owned()) && Abs() == map[] && flows == map[]
      ensures this.window == if window <= 0 then 128 else window
      ensures this.maxAge == if maxAge <= 0 then 5_000_000 else maxAge
    {
      this.window := if window <= 0 then 128 else window;
      this.maxAge := if maxAge <= 0 then 5_000_000 else maxAge;
      flows := map[];
    }

    function Config(): M.Config {
      M.Config(window, maxAge)
    }

    ghost predicate Valid()
      reads this, flows.Values
    {
      && window > 0 && maxAge > 0
      && (forall k :: k in flows ==> flows[k].primed && flows[k].Valid())
      && (forall j, k :: j in flows && k in flows && j != k ==> flows[j] != flows[k])
    }

    /** The arrays that hold copies of packets. */
    ghost function Owned(): set<array<bv8>>
      reads this, flows.Values
    {
      set k, a | k in flows && a in flows[k].Owned() :: a
    }

    /** The resequencer's state as a value. */
    ghost function Abs(): R.Flows
      reads this, flows.Values, Owned()
    {
      map k | k in flows :: flows[k].View()
    }

    /** The record for a flow, a new unprimed one if there is none yet. */
    method FlowFor(key: FlowKey) returns (f: ReseqFlow)
      requires Valid()
      modifies this`flows
      ensures f.primed <==> key in old(flows)
      ensures if f.primed then f == old(flows)[key] && f.Valid() else fresh(f) && f.buf == map[]
      ensures flows == old(flows)[key := f]
      ensures forall k :: k in flows && k != key ==> flows[k] != f
    {
      if key in flows {
        f := flows[key];
      } else {
        f := new ReseqFlow();
      }
      flows := flows[key := f];
    }

    /** `Push` for a packet that parses: the flow is found or created and takes the segment. */
    method PushTo(key: FlowKey, s: M.Segment, ip: Slice, now: int) returns (out: seq<Slice>)
      requires Valid() && ip.len <= ip.arr.Length
      requires ValidSegment(Wrapping, s) && ip.arr[..ip.len] == s.data
      modifies this`flows, flows.Values
      ensures Valid() && forall k :: k in flows ==> (k in old(flows) && flows[k] == old(flows)[k]) || fresh(flows[k])
      ensures var r := M.Arrive(Wrapping, Config(), R.Get(old(Abs()), key), s, now);
        Abs() == R.Put(old(Abs()), key, r.flow) && Denotes(out, r.passed + r.delivered)
      ensures forall a :: a in Owned() ==> a in old(Owned()) || fresh(a)
      ensures forall a :: a in Arrays(out) ==> a == ip.arr || a in old(Owned()) || fresh(a)
    {
      hide M.Arrive, Denotes, Arrays, ReseqFlow.View, ReseqFlow.Valid, ReseqFlow.Owned, Abs, Owned;
      ghost var o := R.Get(Abs(), key);
      AbsAt(key);
      var f := FlowFor(key);
      if f.primed {
        f.Untouched();
      } else {
        f.OwnsNothing();
      }
      out := f.Accept(ip, s, now, Config());
      OthersKept(key, f);
    }

    lemma AbsKeys()
      ensures Abs().Keys == flows.Keys
    {
    }

    lemma AbsAt(k: FlowKey)
      requires Valid()
      ensures k in flows <==> k in Abs()
      ensures k in flows ==> Abs()[k] == flows[k].View() && flows[k].Owned() <= Owned()
    {
    }

    /** Only the flow for `key` has been written to. */
    twostate lemma OthersKept(key: FlowKey, new f: ReseqFlow)
      requires old(Valid()) && flows == old(flows)[key := f] && f.primed && f.Valid()
      requires forall k :: k in old(flows) && k != key ==> old(flows)[k] != f && old(flows)[k].Kept()
      ensures Valid() && Abs() == old(Abs())[key := f.View()]
      ensures forall a :: a in Owned() ==> a in f.Owned() || a in old(Owned())
    {
      hide ReseqFlow.View, ReseqFlow.Owned, ReseqFlow.Valid, ReseqFlow.Kept;
      ghost var was := old(flows);
      forall k | k in was && k != key
        ensures was[k].View() == old(was[k].View()) && was[k].Owned() == old(was[k].Owned()) && was[k].Valid() && was[k].primed
      {
        was[k].Untouched();
      }
      assert Abs() == old(Abs())[key := f.View()];
      forall a | a in Owned() ensures a in f.Owned() || a in old(Owned()) {
        var k :| k in flows && a in flows[k].Owned();
        if k != key { assert a in old(was[k].Owned()); }
      }
    }

    /** `Push`: a packet that does not parse is handed straight back, any other goes to its flow.
        Of the arrays that come back, only that of `ip` itself may be shared with the caller. */
    method Push(ip: Slice, now: int) returns (out: seq<Slice>)
      requires Valid() && ip.len <= ip.arr.Length
      modifies this`flows, flows.Values
      ensures Valid() && forall k :: k in flows ==> (k in old(flows) && flows[k] == old(flows)[k]) || fresh(flows[k])
      ensures var r := R.PushPacket(Config(), old(Abs()), ip.arr[..ip.len], now);
        Abs() == r.flows && Carries(out, r.out)
      ensures forall a :: a in Owned() ==> a in old(Owned()) || fresh(a)
      ensures forall a :: a in Arrays(out) ==> a == ip.arr || a in old(Owned()) || fresh(a)
    {
      hide M.Arrive, ParseTCP, Carries, Denotes, Abs, Owned, Valid;
      var p := ParseTCP(ip.arr[..ip.len]);
      if p.None? {
        CarriesOne(ip);
        return [ip];
      }
      ghost var r := M.Arrive(Wrapping, Config(), R.Get(Abs(), p.value.key), p.value.seg, now);
      out := PushTo(p.value.key, p.value.seg, ip, now);
      CarriesPackets(out, r.passed + r.delivered);
    }

    /** The flow for `k` has been written to and forgotten; no other has been written to. */
    twostate lemma OneForgotten(k: FlowKey)
      requires old(Valid()) && flows == old(flows) - {k} && forall j :: j in flows ==> flows[j].Kept()
      ensures Valid() && Abs() == old(Abs()) - {k} && Owned() <= old(Owned())
    {
      hide ReseqFlow.View, ReseqFlow.Owned, ReseqFlow.Valid, ReseqFlow.Kept;
      forall j | j in flows
        ensures flows[j].View() == old(flows[j].View()) && flows[j].Owned() == old(flows[j].Owned()) && flows[j].Valid() && flows[j].primed
      {
        flows[j].Untouched();
      }
    }

    /** The body of the flush loop for one flow. */
    method Visit(k: FlowKey, now: int) returns (out: seq<Slice>)
      requires Valid() && k in flows
      modifies this`flows, flows[k]
      ensures Valid() && Owned() <= old(Owned()) && (flows == old(flows) || flows == old(flows) - {k})
      ensures var r := M.Tick(Wrapping, Config(), R.Get(old(Abs()), k), now);
        Abs() == R.Put(old(Abs()), k, r.flow) && Denotes(out, r.passed + r.delivered)
      ensures Arrays(out) <= old(Owned())
    {
      hide M.FlushAll, Denotes, Arrays, Abs, Owned, ReseqFlow.View, ReseqFlow.Valid, ReseqFlow.Owned;
      var f := flows[k];
      AbsAt(k);
      f.ViewKeys();
      DenotesNone();
      if now - f.lastSeen < maxAge {
        assert Abs() == R.Put(Abs(), k, R.Get(Abs(), k));
        ghost var none: seq<M.Segment> := [];
        assert none + none == none;
        return [];
      }
      ghost var r := M.FlushAll(Wrapping, f.View());
      out := f.FlushAll();
      flows := flows - {k};
      OneForgotten(k);
      assert [] + r.out == r.out;
    }

    /** Empties and reaps every idle flow, visiting the flows in an arbitrary order. */
    method FlushExpired(now: int) returns (out: seq<Slice>, ghost order: seq<FlowKey>)
      requires Valid()
      modifies this`flows, flows.Values
      ensures Valid() && SubMap(flows, old(flows))
      ensures forall k :: k in old(flows) ==> k in order
      ensures var r := R.FlushInOrder(Config(), old(Abs()), now, order);
        Abs() == r.flows && Carries(out, r.out)
      ensures Owned() <= old(Owned()) && Arrays(out) <= old(Owned())
    {
      hide M.Tick, Denotes, Carries, Abs, Owned, Valid, R.Put, R.Get;
      CarriesNone();
      out, order := [], [];
      var rest := flows.Keys;
      while rest != {}
        invariant Valid() && rest <= flows.Keys && SubMap(flows, old(flows))
        invariant forall k :: k in old(flows) ==> k in rest || k in order
        invariant R.FlushInOrder(Config(), old(Abs()), now, order).flows == Abs()
        invariant Carries(out, R.FlushInOrder(Config(), old(Abs()), now, order).out)
        invariant Owned() <= old(Owned()) && Arrays(out) <= old(Owned())
        decreases rest
      {
        ghost var w := Pick(rest);
        var k :| k in rest;
        rest := rest - {k};
        ghost var before := R.FlushInOrder(Config(), old(Abs()), now, order);
        ghost var r := M.Tick(Wrapping, Config(), R.Get(before.flows, k), now);
        FlushOneMore(Config(), old(Abs()), now, order, k);
        var more := Visit(k, now);
        CarriesPackets(more, r.passed + r.delivered);
        CarriesAppend(out, before.out, more, R.Packets(r.passed + r.delivered));
        out, order := out + more, order + [k];
      }
    }
  }

  lemma CarriesNone()
    ensures Carries([], []) && Arrays([]) == {}
  {
  }

  lemma CarriesOne(ip: Slice)
    requires ip.len <= ip.arr.Length
    ensures Carries([ip], [ip.arr[..ip.len]]) && Arrays([ip]) == {ip.arr}
  {
    assert [ip][0].arr == ip.arr;
  }
}
