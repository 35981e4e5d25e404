/** The inbound reader of a tunnel: every received packet overwrites the same buffer, goes through
    the resequencer, and whatever that returns is written to the TUN before the next read. */
module Reader {
  import opened Collections
  import opened Packet
  import opened ForwardReseqImpl
  import M = FlowModel
  import R = Resequencer
  import S = Serial
  import G = Greedy
  import T = Traffic

  /** What one successful `ReadPacket` puts in the buffer, and the time read off the clock. */
  datatype Reading = Reading(packet: Bytes, now: int)

  const BUFFER_SIZE := 4096

  function Config(): M.Config {
    M.Config(128, 5_000_000)
  }

  /** The events a series of readings causes: a push and a flush at the same time, the flush
      visiting the flows in whatever order the map yields. */
  ghost predicate Causes(readings: seq<Reading>, es: seq<R.Event>) {
    && |es| == 2 * |readings|
    && forall i :: 0 <= i < |readings| ==>
         && es[2 * i] == R.Push(readings[i].packet, readings[i].now)
         && es[2 * i + 1].FlushExpired? && es[2 * i + 1].now == readings[i].now
  }

  /** `dev.Write` for each slice, in order. */
  method WriteAll(tun: seq<Bytes>, out: seq<Slice>, ghost ps: seq<Bytes>) returns (tun': seq<Bytes>)
    requires Carries(out, ps)
    ensures tun' == tun + ps
  {
    tun' := tun;
    for i := 0 to |out|
      invariant tun' == tun + ps[..i]
    {
      tun' := tun' + [out[i].arr[..out[i].len]];
      assert ps[..i + 1] == ps[..i] + [ps[i]];
    }
    assert ps[..|out|] == ps;
  }

  /** One reading more: a push, then a flush that visits every flow the push leaves. */
  lemma TraceMore(cfg: M.Config, es: seq<R.Event>, packet: Bytes, now: int, order: seq<FlowKey>)
    requires R.VisitsAll(cfg, es)
    requires forall k :: k in R.PushPacket(cfg, R.Execute(cfg, es).flows, packet, now).flows ==> k in order
    ensures var s := R.Execute(cfg, es);
      var t := R.PushPacket(cfg, s.flows, packet, now);
      var u := R.FlushInOrder(cfg, t.flows, now, order);
      var es' := es + [R.Push(packet, now)] + [R.FlushExpired(now, order)];
      R.VisitsAll(cfg, es') && R.Execute(cfg, es') == R.System(u.flows, s.out + (t.out + u.out))
  {
    var a, b := R.Push(packet, now), R.FlushExpired(now, order);
    OneMore(cfg, es, a);
    OneMore(cfg, es + [a], b);
    hide R.PushPacket, R.FlushInOrder, R.Execute, R.VisitsAll;
  }

  lemma OneMore(cfg: M.Config, es: seq<R.Event>, e: R.Event)
    ensures var s := R.Execute(cfg, es);
      var t := R.Step(cfg, s.flows, e);
      && R.Execute(cfg, es + [e]) == R.System(t.flows, s.out + t.out)
      && (R.VisitsAll(cfg, es) && (e.FlushExpired? ==> forall k :: k in s.flows ==> k in e.order)
          ==> R.VisitsAll(cfg, es + [e]))
  {
    hide R.Step;
    assert (es + [e])[..|es|] == es;
  }

  lemma CausesMore(readings: seq<Reading>, n: nat, es: seq<R.Event>, order: seq<FlowKey>)
    requires n < |readings| && Causes(readings[..n], es)
    ensures Causes(readings[..n + 1],
                   es + [R.Push(readings[n].packet, readings[n].now)] + [R.FlushExpired(readings[n].now, order)])
  {
    var es' := es + [R.Push(readings[n].packet, readings[n].now)] + [R.FlushExpired(readings[n].now, order)];
    var rs := readings[..n + 1];
    forall i | 0 <= i < |rs| ensures
      es'[2 * i] == R.Push(rs[i].packet, rs[i].now) && es'[2 * i + 1].FlushExpired? && es'[2 * i + 1].now == rs[i].now
    {
      if i < n {
        assert rs[i] == readings[..n][i] && es'[2 * i] == es[2 * i] && es'[2 * i + 1] == es[2 * i + 1];
      }
    }
  }

  /** `FlushExpired` appending to the slices that `Push` returned, which still denote the same
      packets afterwards. */
  method FlushOnto(reseq: ForwardReseq, now: int, out: seq<Slice>, ghost ps: seq<Bytes>)
    returns (out': seq<Slice>, ghost order: seq<FlowKey>)
    requires reseq.Valid() && Carries(out, ps)
    modifies reseq`flows, reseq.flows.Values
    ensures reseq.Valid() && SubMap(reseq.flows, old(reseq.flows)) && reseq.Owned() <= old(reseq.Owned())
    ensures forall k :: k in old(reseq.flows) ==> k in order
    ensures var u := R.FlushInOrder(reseq.Config(), old(reseq.Abs()), now, order);
      reseq.Abs() == u.flows && Carries(out', ps + u.out)
  {
    hide R.FlushInOrder, ForwardReseq.Abs, ForwardReseq.Owned, ForwardReseq.Valid;
    var more;
    more, order := reseq.FlushExpired(now);
    assert forall i :: 0 <= i < |out| ==> out[i].arr[..] == old(out[i].arr[..]);
    assert Carries(out, ps);
    hide Carries;
    CarriesAppend(out, ps, more, R.FlushInOrder(reseq.Config(), old(reseq.Abs()), now, order).out);
    out' := out + more;
  }

  /** `ReadPacket` into the shared buffer. */
  method Receive(b: array<bv8>, reseq: ForwardReseq, packet: Bytes)
    requires reseq.Valid() && b !in reseq.Owned() && |packet| <= b.Length
    modifies b
    ensures b[..|packet|] == packet
    ensures reseq.Valid() && reseq.Abs() == old(reseq.Abs()) && b !in reseq.Owned()
  {
    forall j | 0 <= j < |packet| {
      b[j] := packet[j];
    }
  }

  /** One turn of the read loop. `b` is the shared buffer; nothing the resequencer keeps may live
      in it. */
  method Turn(b: array<bv8>, reseq: ForwardReseq, reading: Reading) returns (out: seq<Slice>, ghost order: seq<FlowKey>)
    requires reseq.Valid() && b !in reseq.Owned() && |reading.packet| <= b.Length
    modifies b, reseq`flows, reseq.flows.Values
    ensures reseq.Valid() && b !in reseq.Owned()
    ensures forall k :: k in reseq.flows ==>
      (k in old(reseq.flows) && reseq.flows[k] == old(reseq.flows)[k]) || fresh(reseq.flows[k])
    ensures var t := R.PushPacket(reseq.Config(), old(reseq.Abs()), reading.packet, reading.now);
      var u := R.FlushInOrder(reseq.Config(), t.flows, reading.now, order);
      && (forall k :: k in t.flows ==> k in order)
      && reseq.Abs() == u.flows && Carries(out, t.out + u.out)
  {
    hide R.PushPacket, R.FlushInOrder, ForwardReseq.Abs, ForwardReseq.Owned, ForwardReseq.Valid, Carries;
    var n, now := |reading.packet|, reading.now;
    Receive(b, reseq, reading.packet);
    ghost var t := R.PushPacket(reseq.Config(), reseq.Abs(), reading.packet, now);
    out := reseq.Push(Slice(b, n), now);
    reseq.AbsKeys();
    out, order := FlushOnto(reseq, now, out, t.out);
  }

  /** Buffer reuse is safe: although every read overwrites the same array, each packet written to
      the TUN has the bytes it was received with, for the output is that of the resequencer on
      the packets as values. */
  method Inbound(readings: seq<Reading>) returns (tun: seq<Bytes>, ghost es: seq<R.Event>)
    requires forall i :: 0 <= i < |readings| ==> |readings[i].packet| <= BUFFER_SIZE
    ensures Causes(readings, es) && R.VisitsAll(Config(), es)
    ensures tun == R.Execute(Config(), es).out
  {
    hide R.PushPacket, R.FlushInOrder, R.Execute, R.VisitsAll, Causes, Carries;
    hide ForwardReseq.Abs, ForwardReseq.Valid;
    var b := new bv8[BUFFER_SIZE];
    var reseq := new ForwardReseq(128, 5_000_000);
    tun, es := [], [];
    StartOfTrace();
    assert readings[..0] == [];
    for n := 0 to |readings|
      invariant reseq.Valid() && reseq.Config() == Config() && b !in reseq.Owned()
      invariant fresh(reseq) && forall k :: k in reseq.flows ==> fresh(reseq.flows[k])
      invariant Causes(readings[..n], es) && R.VisitsAll(Config(), es)
      invariant reseq.Abs() == R.Execute(Config(), es).flows && tun == R.Execute(Config(), es).out
    {
      var packet, now := readings[n].packet, readings[n].now;
      ghost var order;
      ghost var t := R.PushPacket(Config(), reseq.Abs(), packet, now);
      var out;
      out, order := Turn(b, reseq, readings[n]);
      tun := WriteAll(tun, out, t.out + R.FlushInOrder(Config(), t.flows, now, order).out);
      TraceMore(Config(), es, packet, now, order);
      CausesMore(readings, n, es, order);
      es := es + [R.Push(packet, now)] + [R.FlushExpired(now, order)];
    }
    assert readings[..|readings|] == readings;
  }

  lemma {:induction false} VisitsBefore(es: seq<R.Event>, i: nat)
    requires i <= |es| && R.VisitsAll(Config(), es)
    ensures R.VisitsAll(Config(), es[..i])
  {
    hide R.Execute;
    if i < |es| {
      VisitsBefore(es[..|es| - 1], i);
      assert es[..|es| - 1][..i] == es[..i];
    } else {
      assert es[..i] == es;
    }
  }

  lemma PacketsShort(readings: seq<Reading>, es: seq<R.Event>, i: nat)
    requires (forall j :: 0 <= j < |readings| ==> |readings[j].packet| <= BUFFER_SIZE) && Causes(readings, es)
    requires i < |es| && es[i].Push?
    ensures |es[i].ip| <= BUFFER_SIZE
  {
    var j := i / 2;
    assert i == 2 * j || i == 2 * j + 1;
    assert es[2 * j] == R.Push(readings[j].packet, readings[j].now) && es[2 * j + 1].FlushExpired?;
  }

  /** Every flush in a run of the reader is a greedy filter: for each flow it finds idle it writes
      exactly the packets that one pass over the future segments by distance would keep. */
  lemma EveryFlushIsGreedy(readings: seq<Reading>, es: seq<R.Event>, i: nat, k: FlowKey)
    requires forall j :: 0 <= j < |readings| ==> |readings[j].packet| <= BUFFER_SIZE
    requires Causes(readings, es) && R.VisitsAll(Config(), es) && i < |es| && es[i].FlushExpired?
    requires var flows := R.Execute(Config(), es[..i]).flows; k in flows && M.Idle(Config(), flows[k], es[i].now)
    ensures var g := R.Execute(Config(), es[..i]).flows[k];
      R.Select(R.Execute(Config(), es[..i + 1]).out, Some(k))
      == R.Select(R.Execute(Config(), es[..i]).out, Some(k))
       + R.Packets(G.KeepByOffset(g.next, G.ByDistance(g.next, M.Future(S.Wrapping, g)), 0))
  {
    hide R.Execute, R.VisitsAll, Causes;
    VisitsBefore(es, i);
    VisitsBefore(es, i + 1);
    var before := es[..i];
    assert es[..i + 1] == before + [R.FlushExpired(es[i].now, es[i].order)];
    forall j | 0 <= j < |before| && before[j].Push? ensures |before[j].ip| <= BUFFER_SIZE {
      PacketsShort(readings, es, j);
    }
    T.FlushIsGreedyInTraffic(Config(), before, BUFFER_SIZE, es[i].now, es[i].order, k);
  }

  lemma StartOfTrace()
    ensures Causes([], []) && R.VisitsAll(Config(), []) && R.Execute(Config(), []) == R.System(map[], [])
  {
  }
}
