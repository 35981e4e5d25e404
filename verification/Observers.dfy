/** The two reorder observers: a running serial maximum per flow, and a ring of recent numbers
    that tells retransmissions from genuine reordering. */
module Observers {
  import opened Collections
  import opened Serial
  import opened Packet

  // ---------------------------------------------------------------- one flow, as a value

  const RING := 1024

  /** Everything a flow's ring has accepted, oldest first, and the running maximum. */
  datatype Seen = Seen(accepted: seq<int>, max: int)

  /** The numbers still remembered: the last RING accepted ones. */
  function Recent(xs: seq<int>): seq<int> {
    if |xs| <= RING then xs else xs[|xs| - RING..]
  }

  datatype Verdict = Retransmit | InOrder | Reordered

  datatype Judgement = Judgement(seen: Seen, verdict: Verdict)

  /** A number still remembered is a retransmission; any other is accepted, and is genuine
      reordering when it lies below the maximum. */
  function Judge(s: Seen, q: int): Judgement {
    if q in Recent(s.accepted) then Judgement(s, Retransmit)
    else if s.accepted == [] || Dist(q, s.max) >= 0 then Judgement(Seen(s.accepted + [q], q), InOrder)
    else Judgement(Seen(s.accepted + [q], s.max), Reordered)
  }

  ghost predicate Distinct(xs: seq<int>) {
    forall i, j :: 0 <= i < j < |xs| ==> xs[i] != xs[j]
  }

  // ---------------------------------------------------------------- the ring

  /** `preSendFlow`. `accepted` records every number the ring has taken. */
  class PreSendFlow {
    var maxSeq: int
    const ring: array<int>
    var remembered: set<int>
    var head: nat
    var count: nat
    ghost var accepted: seq<int>

    /** The ring and the set refine a sliding window over everything accepted: entry `i` sits in
        slot `i % RING`, `head` is the next slot to write (the oldest when full), the remembered
        numbers are distinct and are exactly the set. */
    ghost predicate Valid()
      reads this, ring
    {
      && ring.Length == RING && head == |accepted| % RING
      && count == |Recent(accepted)| && Distinct(Recent(accepted))
      && (forall i :: |accepted| - count <= i < |accepted| ==> ring[i % RING] == accepted[i])
      && (forall q :: q in remembered <==> q in Recent(accepted))
    }

    ghost function View(): Seen
      reads this
    {
      Seen(accepted, maxSeq)
    }

    constructor ()
      ensures Valid() && fresh(ring) && View() == Seen([], 0)
    {
      maxSeq, head, count := 0, 0, 0;
      ring := new int[RING];
      remembered := {};
      accepted := [];
    }

    /** A flow that no one has written to is as it was. */
    twostate lemma Untouched()
      requires unchanged(this) && unchanged(ring) && old(Valid())
      ensures Valid() && View() == old(View())
    {
    }

    /** Makes room for one number and stores it. */
    method Remember(q: int)
      requires Valid() && q !in remembered
      modifies this`remembered, this`head, this`count, this`accepted, ring
      ensures Valid() && accepted == old(accepted) + [q]
    {
      hide Recent, Distinct;
      ghost var n := |accepted|;
      RecentAppend(accepted, q);
      RecentSize(accepted);
      RecentSize(accepted + [q]);
      forall i | n - RING < i < n ensures i % RING != n % RING { SlotFree(i, n); }
      if count == RING {
        RecentHead(accepted);
        remembered := remembered - {ring[head]};
      } else {
        count := count + 1;
      }
      ring[head] := q;
      head := (head + 1) % RING;
      remembered := remembered + {q};
      accepted := accepted + [q];
    }

    method Observe(q: int) returns (verdict: Verdict)
      requires Valid()
      modifies this, ring
      ensures Valid() && Judgement(View(), verdict) == Judge(old(View()), q)
    {
      if q in remembered {
        return Retransmit;
      }
      Remember(q);
      if count == 1 || Dist(q, maxSeq) >= 0 {
        maxSeq := q;
        return InOrder;
      }
      return Reordered;
    }
  }

  lemma RecentHead(xs: seq<int>)
    requires |Recent(xs)| == RING
    ensures Recent(xs)[0] == xs[|xs| - RING] && (|xs| - RING) % RING == |xs| % RING
  {
  }

  lemma RecentSize(xs: seq<int>)
    ensures |Recent(xs)| == if |xs| < RING then |xs| else RING
  {
  }

  lemma SlotFree(i: int, n: int)
    requires n - RING < i < n
    ensures i % RING != n % RING
  {
  }

  /** Accepting a new number keeps the window distinct, adds the number and drops the oldest of a
      full window, and nothing else. */
  lemma RecentAppend(xs: seq<int>, q: int)
    requires Distinct(Recent(xs)) && q !in Recent(xs)
    ensures Distinct(Recent(xs + [q]))
    ensures forall y :: y in Recent(xs + [q]) <==>
      y == q || (y in Recent(xs) && !(|xs| >= RING && y == Recent(xs)[0]))
  {
    var w := Recent(xs);
    var kept := if |xs| < RING then w else w[1..];
    assert Recent(xs + [q]) == kept + [q];
    forall y | y in w && !(|xs| >= RING && y == w[0]) ensures y in kept {
      if |xs| >= RING {
        var i :| 0 <= i < |w| && w[i] == y;
        assert kept[i - 1] == y;
      }
    }
  }

  // ---------------------------------------------------------------- the observers, as values

  /** The serial-maximum observer with its counters. */
  datatype Pre = Pre(maxes: map<FlowKey, int>, total: nat, ooo: nat)

  /** The ring observer with its counters. */
  datatype Gen = Gen(flows: map<FlowKey, Seen>, total: nat, genuine: nat, retr: nat)

  function NotePre(s: Pre, k: FlowKey, q: int): Pre {
    if k !in s.maxes then
      Pre((if |s.maxes| >= 65536 then map[] else s.maxes)[k := q], s.total + 1, s.ooo)
    else if Dist(q, s.maxes[k]) < 0 then Pre(s.maxes, s.total + 1, s.ooo + 1)
    else Pre(s.maxes[k := q], s.total + 1, s.ooo)
  }

  /** The state with a record for `k`; a 257th flow makes the observer forget all others. */
  function Opened(s: Gen, k: FlowKey): Gen {
    if k in s.flows then s
    else s.(flows := (if |s.flows| >= 256 then map[] else s.flows)[k := Seen([], 0)])
  }

  function NoteGen(s: Gen, k: FlowKey, q: int): Gen {
    var flows := Opened(s, k).flows;
    var j := Judge(flows[k], q);
    Gen(flows[k := j.seen], s.total + 1,
        s.genuine + (if j.verdict.Reordered? then 1 else 0),
        s.retr + (if j.verdict.Retransmit? then 1 else 0))
  }

  /** Packets that `parseTCP` does not accept are not counted. */
  function ObservePre(s: Pre, ip: Bytes): Pre {
    var p := ParseTCP(ip);
    if p.None? then s else NotePre(s, p.value.key, p.value.seg.start)
  }

  function ObserveGen(s: Gen, ip: Bytes): Gen {
    var p := ParseTCP(ip);
    if p.None? then s else NoteGen(s, p.value.key, p.value.seg.start)
  }

  ghost function RunPre(ps: seq<Bytes>): Pre {
    if ps == [] then Pre(map[], 0, 0) else ObservePre(RunPre(ps[..|ps| - 1]), ps[|ps| - 1])
  }

  ghost function RunGen(ps: seq<Bytes>): Gen {
    if ps == [] then Gen(map[], 0, 0, 0) else ObserveGen(RunGen(ps[..|ps| - 1]), ps[|ps| - 1])
  }

  // ---------------------------------------------------------------- the observers, on the heap

  /** `PreReseqObserver`, with the global counters it updates. */
  class PreReseqObserver {
    var maxSeq: map<FlowKey, int>
    var total: nat
    var ooo: nat

    constructor ()
      ensures View() == Pre(map[], 0, 0)
    {
      maxSeq, total, ooo := map[], 0, 0;
    }

    ghost function View(): Pre
      reads this
    {
      Pre(maxSeq, total, ooo)
    }

    method Observe(ip: Bytes)
      modifies this
      ensures View() == ObservePre(old(View()), ip)
    {
      var p := ParseTCP(ip);
      if p.None? {
        return;
      }
      var key, q := p.value.key, p.value.seg.start;
      total := total + 1;
      if key !in maxSeq {
        if |maxSeq| >= 65536 {
          maxSeq := map[];
        }
        maxSeq := maxSeq[key := q];
      } else if Dist(q, maxSeq[key]) < 0 {
        ooo := ooo + 1;
      } else {
        maxSeq := maxSeq[key := q];
      }
    }
  }

  /** `PreSendGenuineObserver`, with the global counters it updates. */
  class PreSendGenuineObserver {
    var flows: map<FlowKey, PreSendFlow>
    var total: nat
    var genuine: nat
    var retr: nat

    constructor ()
      ensures Valid() && View() == Gen(map[], 0, 0, 0)
    {
      flows, total, genuine, retr := map[], 0, 0, 0;
    }

    ghost function Rings(): set<array<int>>
      reads this, flows.Values
    {
      set k | k in flows :: flows[k].ring
    }

    ghost predicate Valid()
      reads this, flows.Values, Rings()
    {
      && (forall k :: k in flows ==> flows[k].Valid())
      && (forall j, k :: j in flows && k in flows && j != k ==> flows[j] != flows[k] && flows[j].ring != flows[k].ring)
    }

    ghost function View(): Gen
      reads this, flows.Values
    {
      Gen(map k | k in flows :: flows[k].View(), total, genuine, retr)
    }

    method Insert(key: FlowKey)
      requires Valid() && key !in flows
      modifies this`flows
      ensures Valid() && key in flows && View() == old(View()).(flows := old(View()).flows[key := Seen([], 0)])
      ensures fresh(flows[key]) && fresh(flows[key].ring)
    {
      hide PreSendFlow.Valid, PreSendFlow.View;
      var f := new PreSendFlow();
      ghost var was := flows;
      flows := flows[key := f];
      forall k | k in was ensures was[k].Valid() && was[k].View() == old(was[k].View()) {
        was[k].Untouched();
      }
      assert View().flows == old(View()).flows[key := Seen([], 0)];
    }

    /** A new record; a 257th flow makes the observer forget all others. */
    method Open(key: FlowKey)
      requires Valid() && key !in flows
      modifies this`flows
      ensures Valid() && key in flows && View() == Opened(old(View()), key)
      ensures fresh(flows[key]) && fresh(flows[key].ring)
    {
      hide PreSendFlow.Valid, PreSendFlow.View;
      SameSize();
      if |flows| >= 256 {
        flows := map[];
        assert View().flows == map[];
      }
      Insert(key);
    }

    /** Makes sure there is a record for the flow. */
    method FlowFor(key: FlowKey)
      requires Valid()
      modifies this`flows
      ensures Valid() && key in flows && View() == Opened(old(View()), key)
      ensures (key in old(flows) && flows == old(flows)) || (fresh(flows[key]) && fresh(flows[key].ring))
    {
      SameSize();
      if key !in flows {
        Open(key);
      }
    }

    method Observe(ip: Bytes)
      requires Valid()
      modifies this, flows.Values, Rings()
      ensures Valid() && View() == ObserveGen(old(View()), ip)
    {
      hide ParseTCP, NoteGen;
      var p := ParseTCP(ip);
      if p.None? {
        return;
      }
      Note(p.value.key, p.value.seg.start);
    }

    method Note(key: FlowKey, q: int)
      requires Valid()
      modifies this, flows.Values, Rings()
      ensures Valid() && View() == NoteGen(old(View()), key, q)
    {
      hide Judge, Valid, View;
      FlowFor(key);
      Tally(key, q);
    }

    /** The flow's record judges the number and the verdict is counted. */
    method Tally(key: FlowKey, q: int)
      requires Valid() && key in flows
      modifies this, flows[key], flows[key].ring
      ensures Valid() && flows == old(flows)
      ensures var s := old(View());
        var j := Judge(s.flows[key], q);
        View() == Gen(s.flows[key := j.seen], s.total + 1,
                      s.genuine + (if j.verdict.Reordered? then 1 else 0),
                      s.retr + (if j.verdict.Retransmit? then 1 else 0))
    {
      hide Judge, PreSendFlow.Valid;
      var f := flows[key];
      var verdict := f.Observe(q);
      total := total + 1;
      if verdict.Retransmit? {
        retr := retr + 1;
      } else if verdict.Reordered? {
        genuine := genuine + 1;
      }
      OthersKept(key);
    }

    twostate lemma OthersKept(key: FlowKey)
      requires old(Valid()) && flows == old(flows) && key in flows && flows[key].Valid()
      requires forall k :: k in flows && k != key ==> unchanged(flows[k]) && unchanged(flows[k].ring)
      ensures Valid() && View().flows == old(View()).flows[key := flows[key].View()]
    {
      forall k | k in flows && k != key ensures flows[k].Valid() && flows[k].View() == old(flows[k].View()) {
        flows[k].Untouched();
      }
    }

    lemma SameSize()
      ensures |View().flows| == |flows| && View().flows.Keys == flows.Keys
    {
      assert View().flows.Keys == flows.Keys;
      assert |View().flows| == |View().flows.Keys| && |flows| == |flows.Keys|;
    }
  }
}
