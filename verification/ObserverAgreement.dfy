/** How the two observers' counters relate, on any traffic of at most 256 flows. */
module ObserverAgreement {
  import opened Collections
  import opened Serial
  import opened Packet
  import opened Observers

  /** Both observers know the same flows with the same maximum, and have counted as many packets. */
  ghost predicate Agree(p: Pre, g: Gen) {
    && p.total == g.total && p.maxes.Keys == g.flows.Keys
    && forall k :: k in p.maxes ==>
         p.maxes[k] == g.flows[k].max && IsSeq(p.maxes[k]) && g.flows[k].accepted != []
  }

  /** A number the ring still remembers reads as ahead of the flow's maximum. */
  ghost predicate Surprise(g: Gen, k: FlowKey, q: int) {
    k in g.flows && q in Recent(g.flows[k].accepted) && Dist(q, g.flows[k].max) > 0
  }

  /** While no flow is forgotten, one packet keeps the observers in agreement exactly when it is
      no surprise, and then their counters advance together up to retransmissions. */
  lemma NoteAgrees(p: Pre, g: Gen, k: FlowKey, q: int)
    requires Agree(p, g) && IsSeq(q) && (k in g.flows || |g.flows| < 256)
    ensures var p', g' := NotePre(p, k, q), NoteGen(g, k, q);
      && (Agree(p', g') <==> !Surprise(g, k, q))
      && (Agree(p', g') ==>
            g'.genuine - g.genuine <= p'.ooo - p.ooo <= (g'.genuine - g.genuine) + (g'.retr - g.retr))
      && g'.flows.Keys == g.flows.Keys + {k}
  {
    hide Recent, Dist, Judge;
    var p', g' := NotePre(p, k, q), NoteGen(g, k, q);
    assert |p.maxes| == |p.maxes.Keys| && |g.flows| == |g.flows.Keys|;
    if k in g.flows {
      KnownFlow(p.maxes[k], g.flows[k], q);
    } else {
      FirstPacket(q);
    }
    AgreeAfter(p, g, p', g', k);
  }

  /** Whether the observers still agree is decided by the flow just seen. */
  lemma AgreeAfter(p: Pre, g: Gen, p': Pre, g': Gen, k: FlowKey)
    requires Agree(p, g) && p'.total == g'.total
    requires p'.maxes.Keys == p.maxes.Keys + {k} && g'.flows.Keys == g.flows.Keys + {k}
    requires forall j :: j in p.maxes && j != k ==> p'.maxes[j] == p.maxes[j] && g'.flows[j] == g.flows[j]
    requires IsSeq(p'.maxes[k]) && g'.flows[k].accepted != []
    ensures Agree(p', g') <==> p'.maxes[k] == g'.flows[k].max
  {
  }

  lemma FirstPacket(q: int)
    ensures Judge(Seen([], 0), q) == Judgement(Seen([q], q), InOrder)
  {
    assert [] + [q] == [q];
  }

  /** A packet of a known flow leaves both maxima equal exactly when it is no surprise. */
  lemma KnownFlow(max: int, s: Seen, q: int)
    requires IsSeq(max) && IsSeq(q) && s.max == max && s.accepted != []
    ensures var j := Judge(s, q);
      var max' := if Dist(q, max) < 0 then max else q;
      && (j.seen.max == max' <==> !(q in Recent(s.accepted) && Dist(q, max) > 0))
      && j.seen.accepted != [] && (j.verdict.Reordered? ==> Dist(q, max) < 0)
      && (Dist(q, max) < 0 ==> !j.verdict.InOrder?)
  {
    hide Recent;
    assert Dist(max, max) == 0;
    if Dist(q, max) == 0 { DistInjective(q, max, max); }
  }

  // ---------------------------------------------------------------- whole traces

  /** The flows that occur in a trace. */
  ghost function Keys(ps: seq<Bytes>): set<FlowKey> {
    if ps == [] then {}
    else
      var p := ParseTCP(ps[|ps| - 1]);
      Keys(ps[..|ps| - 1]) + if p.Some? then {p.value.key} else {}
  }

  ghost predicate AlwaysAgree(ps: seq<Bytes>) {
    Agree(RunPre(ps), RunGen(ps)) && (ps == [] || AlwaysAgree(ps[..|ps| - 1]))
  }

  ghost predicate NoSurprise(ps: seq<Bytes>) {
    ps == [] ||
    (var p := ParseTCP(ps[|ps| - 1]);
     NoSurprise(ps[..|ps| - 1]) &&
     (p.Some? ==> !Surprise(RunGen(ps[..|ps| - 1]), p.value.key, p.value.seg.start)))
  }

  ghost predicate Related(p: Pre, g: Gen) {
    p.total == g.total && g.genuine <= p.ooo <= g.genuine + g.retr
  }

  lemma KeysInit(ps: seq<Bytes>, n: nat)
    requires ps != [] && |Keys(ps)| <= n
    ensures |Keys(ps[..|ps| - 1])| <= n
    ensures var p := ParseTCP(ps[|ps| - 1]);
      p.Some? && p.value.key !in Keys(ps[..|ps| - 1]) ==> |Keys(ps[..|ps| - 1])| < n
  {
    hide ParseTCP;
    SubsetSize(Keys(ps[..|ps| - 1]), Keys(ps));
    var p := ParseTCP(ps[|ps| - 1]);
    if p.Some? && p.value.key !in Keys(ps[..|ps| - 1]) {
      assert p.value.key in Keys(ps);
      assert Keys(ps[..|ps| - 1]) < Keys(ps);
    }
  }

  lemma {:induction false} RunKeys(ps: seq<Bytes>)
    requires |Keys(ps)| <= 256
    ensures RunGen(ps).flows.Keys == Keys(ps)
  {
    hide ParseTCP, Judge;
    if ps != [] {
      KeysInit(ps, 256);
      RunKeys(ps[..|ps| - 1]);
      var g := RunGen(ps[..|ps| - 1]);
      assert |g.flows| == |g.flows.Keys|;
    }
  }

  /** Observer agreement: on every trace of at most 256 flows the two observers keep the same
      maximum for every flow throughout if and only if no packet is a surprise, and then the
      counters satisfy Genuine <= OOO <= Genuine + Retr. */
  lemma {:induction false} ObserversAgree(ps: seq<Bytes>)
    requires |Keys(ps)| <= 256
    ensures AlwaysAgree(ps) <==> NoSurprise(ps)
    ensures NoSurprise(ps) ==> Related(RunPre(ps), RunGen(ps))
  {
    if ps != [] {
      var init := ps[..|ps| - 1];
      KeysInit(ps, 256);
      ObserversAgree(init);
      if NoSurprise(init) {
        var p := ParseTCP(ps[|ps| - 1]);
        var a, g := RunPre(init), RunGen(init);
        RunKeys(init);
        assert |g.flows| == |g.flows.Keys|;
        hide ParseTCP, Agree, Surprise, NotePre, NoteGen;
        assert Agree(a, g);
        if p.Some? {
          NoteAgrees(a, g, p.value.key, p.value.seg.start);
        }
      }
    }
  }

  // ---------------------------------------------------------------- a condition on the numbers

  /** The remembered numbers, the maximum and the arriving number lie in one arc of less than
      2^31 numbers starting at `lo`. */
  ghost predicate Narrow(s: Seen, q: int, lo: int) {
    && Wrap(q - lo) < 0x8000_0000 && Wrap(s.max - lo) < 0x8000_0000
    && forall x :: x in Recent(s.accepted) ==> Wrap(x - lo) < 0x8000_0000
  }

  /** Nothing remembered is ahead of the maximum. */
  ghost predicate Topped(s: Seen) {
    forall x :: x in Recent(s.accepted) ==> Dist(x, s.max) <= 0
  }

  lemma DistOnArc(a: int, b: int, lo: int)
    requires Wrap(a - lo) < 0x8000_0000 && Wrap(b - lo) < 0x8000_0000
    ensures Dist(a, b) == Wrap(a - lo) - Wrap(b - lo)
  {
    var d := Wrap(a - lo) - Wrap(b - lo);
    WrapOfDifference(a - lo, b - lo);
    assert Wrap(d) == if d >= 0 then d else d + 0x1_0000_0000;
  }

  lemma JudgeTopped(s: Seen, q: int, lo: int)
    requires Topped(s) && Narrow(s, q, lo)
    ensures Topped(Judge(s, q).seen)
  {
    hide Wrap, Dist, Recent;
    RecentNone();
    var s' := Judge(s, q).seen;
    if q in Recent(s.accepted) {
      return;
    }
    DistOnArc(q, s.max, lo);
    DistOnArc(q, q, lo);
    forall x | x in Recent(s'.accepted) ensures Dist(x, s'.max) <= 0 {
      if x != q {
        RecentKeeps(s.accepted, q, x);
        DistOnArc(x, s.max, lo);
        DistOnArc(x, q, lo);
      }
    }
  }

  lemma RecentNone()
    ensures Recent([]) == []
  {
  }

  lemma RecentKeeps(xs: seq<int>, q: int, x: int)
    requires x in Recent(xs + [q]) && x != q
    ensures x in Recent(xs)
  {
    var w := Recent(xs + [q]);
    var i :| 0 <= i < |w| && w[i] == x;
    assert if |xs| < RING then Recent(xs)[i] == x else Recent(xs)[i + 1] == x;
  }

  /** Each packet of a known flow is narrow with respect to what the ring remembers. */
  ghost predicate NarrowTrace(ps: seq<Bytes>) {
    ps == [] ||
    (var p, g := ParseTCP(ps[|ps| - 1]), RunGen(ps[..|ps| - 1]);
     NarrowTrace(ps[..|ps| - 1]) &&
     (p.Some? && p.value.key in g.flows ==>
        exists lo :: Narrow(g.flows[p.value.key], p.value.seg.start, lo)))
  }

  /** Numbers that stay within an arc of less than 2^31 cause no surprise. */
  lemma {:induction false} NarrowNoSurprise(ps: seq<Bytes>)
    requires |Keys(ps)| <= 256 && NarrowTrace(ps)
    ensures NoSurprise(ps) && forall k :: k in RunGen(ps).flows ==> Topped(RunGen(ps).flows[k])
  {
    hide ParseTCP, Wrap, Dist, Judge;
    if ps != [] {
      var init := ps[..|ps| - 1];
      var p, g := ParseTCP(ps[|ps| - 1]), RunGen(init);
      KeysInit(ps, 256);
      NarrowNoSurprise(init);
      RunKeys(init);
      assert |g.flows| == |g.flows.Keys|;
      if p.Some? {
        var k, q := p.value.key, p.value.seg.start;
        if k in g.flows {
          var lo :| Narrow(g.flows[k], q, lo);
          JudgeTopped(g.flows[k], q, lo);
        } else {
          FirstTopped(q);
        }
      }
    }
  }

  lemma FirstTopped(q: int)
    ensures Topped(Judge(Seen([], 0), q).seen)
  {
    assert Dist(q, q) == 0;
  }

  /** Without that, agreement can fail: numbers that go once around the circle bring a remembered
      one back ahead of the maximum. */
  lemma SurpriseAround(k: FlowKey)
    ensures var g := NoteGen(NoteGen(NoteGen(Gen(map[], 0, 0, 0), k, 0), k, 0x7fff_ffff), k, 0xffff_fffe);
      Surprise(g, k, 0)
  {
    var s1 := Seen([0], 0);
    assert Judge(Seen([], 0), 0).seen == s1;
    var s2 := Seen([0, 0x7fff_ffff], 0x7fff_ffff);
    assert Judge(s1, 0x7fff_ffff).seen == s2;
    var s3 := Seen([0, 0x7fff_ffff, 0xffff_fffe], 0xffff_fffe);
    assert Judge(s2, 0xffff_fffe).seen == s3;
    var g3 := NoteGen(NoteGen(NoteGen(Gen(map[], 0, 0, 0), k, 0), k, 0x7fff_ffff), k, 0xffff_fffe);
    assert g3.flows[k] == s3;
    assert Recent(s3.accepted)[0] == 0;
  }
}
