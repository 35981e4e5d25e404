/** What the observers' counters count, on every trace: stated on the sequence numbers of the
    packets, with the resets that bound how many flows are known. */
module ObserverCounts {
  import opened Collections
  import opened Serial
  import opened Packet
  import opened Observers
  import opened ObserverAgreement

  // ---------------------------------------------------------------- the part of a trace that counts

  /** The packets since an observer that knows at most `limit` flows last forgot everything: a
      packet of one flow too many starts afresh. */
  ghost function Epoch(ps: seq<Bytes>, limit: nat): seq<Bytes> {
    if ps == [] then []
    else
      var e, last := Epoch(ps[..|ps| - 1], limit), ps[|ps| - 1];
      if Overflows(e, last, limit) then [last] else e + [last]
  }

  /** The packet belongs to a flow not seen in `e`, which has `limit` flows already. */
  ghost predicate Overflows(e: seq<Bytes>, ip: Bytes, limit: nat) {
    ParseTCP(ip).Some? && ParseTCP(ip).value.key !in Keys(e) && |Keys(e)| >= limit
  }

  ghost function KeyOf(ip: Bytes): set<FlowKey> {
    if ParseTCP(ip).Some? then {ParseTCP(ip).value.key} else {}
  }

  lemma KeysMore(e: seq<Bytes>, ip: Bytes)
    ensures Keys(e + [ip]) == Keys(e) + KeyOf(ip) && Keys([ip]) == KeyOf(ip)
  {
    hide ParseTCP;
    assert (e + [ip])[..|e|] == e;
    assert [ip][..0] == [];
  }

  /** At most `limit` flows are known in every reachable state. */
  lemma {:induction false} EpochBounded(ps: seq<Bytes>, limit: nat)
    requires limit >= 1
    ensures |Keys(Epoch(ps, limit))| <= limit
  {
    hide ParseTCP, Keys;
    if ps == [] {
      assert Keys([]) == {} by { NoKeys(); }
    } else {
      var e, last := Epoch(ps[..|ps| - 1], limit), ps[|ps| - 1];
      EpochBounded(ps[..|ps| - 1], limit);
      KeysMore(e, last);
      if ParseTCP(last).Some? && !Overflows(e, last, limit) {
        var k := ParseTCP(last).value.key;
        if k in Keys(e) { assert Keys(e) + {k} == Keys(e); }
      }
    }
  }

  lemma NoKeys()
    ensures Keys([]) == {}
  {
  }

  /** A trace of at most `limit` flows counts as a whole. */
  lemma {:induction false} EpochWhole(ps: seq<Bytes>, limit: nat)
    requires |Keys(ps)| <= limit
    ensures Epoch(ps, limit) == ps
  {
    hide ParseTCP, Keys;
    if ps != [] {
      KeysInit(ps, limit);
      EpochWhole(ps[..|ps| - 1], limit);
    }
  }

  /** The sequence numbers of a flow, in order of arrival. */
  ghost function Numbers(ps: seq<Bytes>, k: FlowKey): seq<int> {
    if ps == [] then []
    else
      var p := ParseTCP(ps[|ps| - 1]);
      Numbers(ps[..|ps| - 1], k) + if p.Some? && p.value.key == k then [p.value.seg.start] else []
  }

  lemma NumbersMore(e: seq<Bytes>, ip: Bytes, k: FlowKey)
    ensures var p := ParseTCP(ip);
      var more := if p.Some? && p.value.key == k then [p.value.seg.start] else [];
      Numbers(e + [ip], k) == Numbers(e, k) + more && Numbers([ip], k) == more
  {
    hide ParseTCP;
    assert (e + [ip])[..|e|] == e;
    assert [ip][..0] == [];
  }

  lemma {:induction false} NumbersOfUnseen(e: seq<Bytes>, k: FlowKey)
    requires k !in Keys(e)
    ensures Numbers(e, k) == []
  {
    hide ParseTCP;
    if e != [] { NumbersOfUnseen(e[..|e| - 1], k); }
  }

  /** How a packet of flow `k` extends the numbers that count. */
  lemma EpochNumbers(ps: seq<Bytes>, limit: nat, k: FlowKey)
    requires ps != []
    ensures var e, p := Epoch(ps[..|ps| - 1], limit), ParseTCP(ps[|ps| - 1]);
      && (p.Some? && p.value.key == k ==> Numbers(Epoch(ps, limit), k) == Numbers(e, k) + [p.value.seg.start])
      && (!(p.Some? && p.value.key == k) && !Overflows(e, ps[|ps| - 1], limit) ==>
            Numbers(Epoch(ps, limit), k) == Numbers(e, k))
  {
    hide ParseTCP, Keys, Numbers;
    var e, ip := Epoch(ps[..|ps| - 1], limit), ps[|ps| - 1];
    NumbersMore(e, ip, k);
    if Overflows(e, ip, limit) && ParseTCP(ip).value.key == k { NumbersOfUnseen(e, k); }
  }

  lemma EpochKeys(ps: seq<Bytes>, limit: nat, k: FlowKey)
    requires ps != []
    ensures var e, ip := Epoch(ps[..|ps| - 1], limit), ps[|ps| - 1];
      k in Keys(Epoch(ps, limit)) <==>
        (ParseTCP(ip).Some? && ParseTCP(ip).value.key == k) || (k in Keys(e) && !Overflows(e, ip, limit))
  {
    hide ParseTCP, Keys;
    KeysMore(Epoch(ps[..|ps| - 1], limit), ps[|ps| - 1]);
  }

  lemma {:induction false} EpochWithin(ps: seq<Bytes>, limit: nat, k: FlowKey, q: int)
    requires q in Numbers(Epoch(ps, limit), k)
    ensures q in Numbers(ps, k)
  {
    hide ParseTCP, Keys, Numbers;
    if ps == [] {
    } else {
      var init, ip := ps[..|ps| - 1], ps[|ps| - 1];
      assert init + [ip] == ps;
      NumbersMore(Epoch(init, limit), ip, k);
      NumbersMore(init, ip, k);
      if q in Numbers(Epoch(init, limit), k) { EpochWithin(init, limit, k, q); }
    }
  }

  ghost function ParsedCount(ps: seq<Bytes>): nat {
    if ps == [] then 0 else ParsedCount(ps[..|ps| - 1]) + if ParseTCP(ps[|ps| - 1]).Some? then 1 else 0
  }

  // ---------------------------------------------------------------- the ring observer

  /** One of the last 1024. */
  ghost predicate Among(q: int, xs: seq<int>) {
    exists i :: 0 <= i < |xs| && |xs| - 1024 <= i && xs[i] == q
  }

  /** The numbers accepted out of `qs`: each one not among the last 1024 accepted before. */
  ghost function Accepted(qs: seq<int>): seq<int> {
    if qs == [] then []
    else
      var xs, q := Accepted(qs[..|qs| - 1]), qs[|qs| - 1];
      if Among(q, xs) then xs else xs + [q]
  }

  /** The running serial maximum of the accepted numbers. */
  ghost function Top(qs: seq<int>): int {
    if qs == [] then 0
    else
      var init, q := qs[..|qs| - 1], qs[|qs| - 1];
      if init == [] || (!Among(q, Accepted(init)) && Dist(q, Top(init)) >= 0) then q else Top(init)
  }

  /** After the numbers `qs` of its flow, `q` is new to the ring and below the maximum. */
  ghost predicate Reorders(qs: seq<int>, q: int) {
    qs != [] && !Among(q, Accepted(qs)) && Dist(q, Top(qs)) < 0
  }

  /** The packets whose number is among the last 1024 accepted of their flow. */
  ghost function RetrCount(ps: seq<Bytes>): nat {
    if ps == [] then 0
    else
      var init, p := ps[..|ps| - 1], ParseTCP(ps[|ps| - 1]);
      RetrCount(init) +
      if p.Some? && Among(p.value.seg.start, Accepted(Numbers(Epoch(init, 256), p.value.key))) then 1 else 0
  }

  /** The packets with a new number below the maximum of their flow. */
  ghost function GenuineCount(ps: seq<Bytes>): nat {
    if ps == [] then 0
    else
      var init, p := ps[..|ps| - 1], ParseTCP(ps[|ps| - 1]);
      GenuineCount(init) + if p.Some? && Reorders(Numbers(Epoch(init, 256), p.value.key), p.value.seg.start) then 1 else 0
  }

  lemma AmongIsRecent(q: int, xs: seq<int>)
    ensures Among(q, xs) <==> q in Recent(xs)
  {
    if q in Recent(xs) {
      var i :| 0 <= i < |Recent(xs)| && Recent(xs)[i] == q;
      assert xs[|xs| - |Recent(xs)| + i] == q;
    }
    if Among(q, xs) {
      var i :| 0 <= i < |xs| && |xs| - 1024 <= i && xs[i] == q;
      assert Recent(xs)[i - (|xs| - |Recent(xs)|)] == q;
    }
  }

  lemma {:induction false} AcceptedSome(qs: seq<int>)
    requires qs != []
    ensures Accepted(qs) != []
  {
    if |qs| > 1 {
      AcceptedSome(qs[..|qs| - 1]);
    } else {
      assert qs[..0] == [];
    }
  }

  lemma AcceptedMore(qs: seq<int>, q: int)
    ensures Accepted(qs + [q]) == if Among(q, Accepted(qs)) then Accepted(qs) else Accepted(qs) + [q]
    ensures Top(qs + [q]) == if qs == [] || (!Among(q, Accepted(qs)) && Dist(q, Top(qs)) >= 0) then q else Top(qs)
  {
    hide Among, Dist;
    assert (qs + [q])[..|qs|] == qs;
  }

  /** One number of a flow, judged by the numbers before it. */
  lemma JudgeOfNumbers(qs: seq<int>, q: int)
    ensures var j := Judge(Seen(Accepted(qs), Top(qs)), q);
      && j.seen == Seen(Accepted(qs + [q]), Top(qs + [q]))
      && (j.verdict.Retransmit? <==> Among(q, Accepted(qs)))
      && (j.verdict.Reordered? <==> Reorders(qs, q))
  {
    AmongIsRecent(q, Accepted(qs));
    AcceptedMore(qs, q);
    if qs != [] { AcceptedSome(qs); }
    hide Among, Dist, Recent, Accepted;
    if qs == [] { NothingAccepted(q); }
  }

  lemma NothingAccepted(q: int)
    ensures Accepted([]) == [] && !Among(q, [])
  {
  }

  ghost predicate TracksNumbers(ps: seq<Bytes>, s: Gen) {
    && (forall k :: k in s.flows <==> k in Keys(Epoch(ps, 256)))
    && (forall k :: k in s.flows ==> s.flows[k] == SeenAfter(Numbers(Epoch(ps, 256), k)))
    && s.total == ParsedCount(ps) && s.retr == RetrCount(ps) && s.genuine == GenuineCount(ps)
  }

  lemma CountersMore(ps: seq<Bytes>)
    requires ps != []
    ensures var init, p := ps[..|ps| - 1], ParseTCP(ps[|ps| - 1]);
      && ParsedCount(ps) == ParsedCount(init) + (if p.Some? then 1 else 0)
      && (p.None? ==> RetrCount(ps) == RetrCount(init) && GenuineCount(ps) == GenuineCount(init))
      && (p.Some? ==>
            var qs := Numbers(Epoch(init, 256), p.value.key);
            && RetrCount(ps) == RetrCount(init) + (if Among(p.value.seg.start, Accepted(qs)) then 1 else 0)
            && GenuineCount(ps) == GenuineCount(init) + (if Reorders(qs, p.value.seg.start) then 1 else 0))
  {
    hide ParseTCP, Numbers, Epoch, Among, Accepted, Reorders;
  }

  lemma NotesNumber(ps: seq<Bytes>, s: Gen)
    requires ps != [] && TracksNumbers(ps[..|ps| - 1], s)
    ensures TracksNumbers(ps, ObserveGen(s, ps[|ps| - 1]))
  {
    hide ParseTCP, Keys, Numbers, NoteGen, SeenAfter, Epoch, RetrCount, GenuineCount, ParsedCount, Among, Reorders;
    var init, ip := ps[..|ps| - 1], ps[|ps| - 1];
    var e, p, s' := Epoch(init, 256), ParseTCP(ip), ObserveGen(s, ip);
    CountersMore(ps);
    assert s.flows.Keys == Keys(e);
    assert |s.flows| == |s.flows.Keys|;
    if p.Some? {
      if p.value.key !in Keys(e) { NumbersOfUnseen(e, p.value.key); }
      NoteParts(s, p.value.key, p.value.seg.start, Numbers(e, p.value.key));
    }
    forall k ensures k in s'.flows <==> k in Keys(Epoch(ps, 256)) { EpochKeys(ps, 256, k); }
    forall k | k in s'.flows ensures s'.flows[k] == SeenAfter(Numbers(Epoch(ps, 256), k)) {
      EpochNumbers(ps, 256, k);
    }
  }

  /** What the observer records of a flow that has carried these numbers. */
  ghost function SeenAfter(qs: seq<int>): Seen {
    Seen(Accepted(qs), Top(qs))
  }

  /** One number noted, for the flow it belongs to, the other flows and the counters. */
  lemma NoteParts(s: Gen, k: FlowKey, q: int, qs: seq<int>)
    requires if k in s.flows then s.flows[k] == SeenAfter(qs) else qs == []
    ensures var s', forgets := NoteGen(s, k, q), k !in s.flows && |s.flows| >= 256;
      && (forall j :: j in s'.flows <==> j == k || (j in s.flows && !forgets))
      && s'.flows[k] == SeenAfter(qs + [q])
      && (forall j :: j in s'.flows && j != k ==> s'.flows[j] == s.flows[j])
      && s'.total == s.total + 1
      && s'.retr == s.retr + (if Among(q, Accepted(qs)) then 1 else 0)
      && s'.genuine == s.genuine + (if Reorders(qs, q) then 1 else 0)
  {
    hide Accepted, Top, Among, Reorders, Judge;
    NothingTop();
    JudgeOfNumbers(qs, q);
  }

  lemma NothingTop()
    ensures Accepted([]) == [] && Top([]) == 0
  {
  }

  /** The ring observer on every trace: what it remembers of each known flow, and exact counters.
      Retr counts the packets found among the last 1024 accepted numbers of their flow, Genuine
      those with a new number below the maximum of their flow. At most 256 flows are known. */
  lemma {:induction false} RingCounts(ps: seq<Bytes>)
    ensures TracksNumbers(ps, RunGen(ps)) && |RunGen(ps).flows| <= 256
  {
    hide ObserveGen, Epoch, Keys, ParseTCP;
    EpochBounded(ps, 256);
    if ps == [] {
      NothingNumbered();
    } else {
      RingCounts(ps[..|ps| - 1]);
      NotesNumber(ps, RunGen(ps[..|ps| - 1]));
    }
    var s := RunGen(ps);
    assert s.flows.Keys == Keys(Epoch(ps, 256));
    assert |s.flows| == |s.flows.Keys|;
  }

  lemma NothingNumbered()
    ensures TracksNumbers([], Gen(map[], 0, 0, 0))
  {
  }

  // ---------------------------------------------------------------- numbers on an arc

  /** How far a number lies from the beginning of its flow's arc. */
  ghost function Offset(lo: FlowKey -> int, k: FlowKey, q: int): int {
    Wrap(q - lo(k))
  }

  ghost predicate OnArc(qs: seq<int>, lo: FlowKey -> int, k: FlowKey) {
    forall q :: q in qs ==> Offset(lo, k, q) < 0x8000_0000
  }

  /** The numbers of each flow lie in one arc of less than 2^31 numbers. */
  ghost predicate OnArcs(ps: seq<Bytes>, lo: FlowKey -> int) {
    forall k :: OnArc(Numbers(ps, k), lo, k)
  }

  /** Some earlier number of the flow lies further on. */
  ghost predicate Late(qs: seq<int>, lo: FlowKey -> int, k: FlowKey, q: int) {
    exists x :: x in qs && Offset(lo, k, q) < Offset(lo, k, x)
  }

  /** `max` is the greatest number of the flow. */
  ghost predicate Greatest(qs: seq<int>, lo: FlowKey -> int, k: FlowKey, max: int) {
    max in qs && forall q :: q in qs ==> Offset(lo, k, q) <= Offset(lo, k, max)
  }

  /** One more number against the greatest so far. */
  lemma GreaterOf(qs: seq<int>, lo: FlowKey -> int, k: FlowKey, max: int, q: int)
    requires Greatest(qs, lo, k, max) && OnArc(qs + [q], lo, k)
    ensures Dist(q, max) < 0 <==> Late(qs, lo, k, q)
    ensures Greatest(qs + [q], lo, k, if Dist(q, max) < 0 then max else q)
  {
    assert q in qs + [q] && max in qs + [q];
    assert Offset(lo, k, max) < 0x8000_0000 && Offset(lo, k, q) < 0x8000_0000;
    DistOnArc(q, max, lo(k));
    hide Wrap, Dist;
  }

  lemma ArcsInit(ps: seq<Bytes>, lo: FlowKey -> int)
    requires ps != [] && OnArcs(ps, lo)
    ensures OnArcs(ps[..|ps| - 1], lo)
  {
    hide Offset, ParseTCP, Numbers;
    var init := ps[..|ps| - 1];
    assert init + [ps[|ps| - 1]] == ps;
    forall k ensures OnArc(Numbers(init, k), lo, k) {
      NumbersMore(init, ps[|ps| - 1], k);
      assert OnArc(Numbers(ps, k), lo, k);
    }
  }

  lemma EpochOnArc(ps: seq<Bytes>, limit: nat, lo: FlowKey -> int, k: FlowKey)
    requires OnArcs(ps, lo)
    ensures OnArc(Numbers(Epoch(ps, limit), k), lo, k)
  {
    hide Offset, Numbers, Epoch;
    assert OnArc(Numbers(ps, k), lo, k);
    forall q | q in Numbers(Epoch(ps, limit), k) ensures Offset(lo, k, q) < 0x8000_0000 {
      EpochWithin(ps, limit, k, q);
    }
  }

  // ---------------------------------------------------------------- the serial-maximum observer

  /** The packets with a number below an earlier one of their flow. */
  ghost function LateCount(ps: seq<Bytes>, lo: FlowKey -> int): nat {
    if ps == [] then 0
    else
      var init, p := ps[..|ps| - 1], ParseTCP(ps[|ps| - 1]);
      LateCount(init, lo) +
      if p.Some? && Late(Numbers(Epoch(init, 65536), p.value.key), lo, p.value.key, p.value.seg.start) then 1 else 0
  }

  ghost predicate TracksMaxima(ps: seq<Bytes>, lo: FlowKey -> int, s: Pre) {
    && (forall k :: k in s.maxes <==> k in Keys(Epoch(ps, 65536)))
    && (forall k :: k in s.maxes ==> Greatest(Numbers(Epoch(ps, 65536), k), lo, k, s.maxes[k]))
    && s.total == ParsedCount(ps) && s.ooo == LateCount(ps, lo)
  }

  lemma LateMore(ps: seq<Bytes>, lo: FlowKey -> int)
    requires ps != []
    ensures var init, p := ps[..|ps| - 1], ParseTCP(ps[|ps| - 1]);
      && ParsedCount(ps) == ParsedCount(init) + (if p.Some? then 1 else 0)
      && (p.None? ==> LateCount(ps, lo) == LateCount(init, lo))
      && (p.Some? ==>
            var late := Late(Numbers(Epoch(init, 65536), p.value.key), lo, p.value.key, p.value.seg.start);
            LateCount(ps, lo) == LateCount(init, lo) + (if late then 1 else 0))
  {
    hide ParseTCP, Numbers, Epoch, Late;
  }

  lemma NotesMaximum(ps: seq<Bytes>, lo: FlowKey -> int, s: Pre)
    requires ps != [] && OnArcs(ps, lo) && TracksMaxima(ps[..|ps| - 1], lo, s)
    ensures TracksMaxima(ps, lo, ObservePre(s, ps[|ps| - 1]))
  {
    hide ParseTCP, Keys, Numbers, Late, Greatest, OnArc, OnArcs, NotePre, Epoch, LateCount, ParsedCount;
    var init, ip := ps[..|ps| - 1], ps[|ps| - 1];
    var e, p, s' := Epoch(init, 65536), ParseTCP(ip), ObservePre(s, ip);
    LateMore(ps, lo);
    assert s.maxes.Keys == Keys(e);
    assert |s.maxes| == |s.maxes.Keys|;
    if p.Some? {
      EpochNumbers(ps, 65536, p.value.key);
      EpochOnArc(ps, 65536, lo, p.value.key);
      if p.value.key !in Keys(e) { NumbersOfUnseen(e, p.value.key); }
      MaximumParts(s, lo, p.value.key, p.value.seg.start, Numbers(e, p.value.key));
    }
    forall k ensures k in s'.maxes <==> k in Keys(Epoch(ps, 65536)) { EpochKeys(ps, 65536, k); }
    forall k | k in s'.maxes ensures Greatest(Numbers(Epoch(ps, 65536), k), lo, k, s'.maxes[k]) {
      EpochNumbers(ps, 65536, k);
    }
  }

  /** In every reachable state the observer knows the flows seen since it last forgot everything, at
      most 65536, and has counted every parsed packet. */
  lemma {:induction false} MaximaKnown(ps: seq<Bytes>)
    ensures RunPre(ps).maxes.Keys == Keys(Epoch(ps, 65536)) && |RunPre(ps).maxes| <= 65536
    ensures RunPre(ps).total == ParsedCount(ps)
  {
    hide ParseTCP, Keys, Dist;
    EpochBounded(ps, 65536);
    var s := RunPre(ps);
    assert |s.maxes| == |s.maxes.Keys|;
    if ps == [] {
      NoKeys();
    } else {
      var init, ip := ps[..|ps| - 1], ps[|ps| - 1];
      MaximaKnown(init);
      KeysMore(Epoch(init, 65536), ip);
    }
  }

  /** One number noted, for the flow it belongs to, the other flows and the counters. */
  lemma MaximumParts(s: Pre, lo: FlowKey -> int, k: FlowKey, q: int, qs: seq<int>)
    requires if k in s.maxes then Greatest(qs, lo, k, s.maxes[k]) else qs == []
    requires OnArc(qs + [q], lo, k)
    ensures var s', forgets := NotePre(s, k, q), k !in s.maxes && |s.maxes| >= 65536;
      && (forall j :: j in s'.maxes <==> j == k || (j in s.maxes && !forgets))
      && Greatest(qs + [q], lo, k, s'.maxes[k])
      && (forall j :: j in s'.maxes && j != k ==> s'.maxes[j] == s.maxes[j])
      && s'.total == s.total + 1 && s'.ooo == s.ooo + (if Late(qs, lo, k, q) then 1 else 0)
  {
    hide Late, Greatest, Dist, OnArc;
    if k in s.maxes { GreaterOf(qs, lo, k, s.maxes[k], q); } else { OnlyNumber(lo, k, q); }
  }

  lemma OnlyNumber(lo: FlowKey -> int, k: FlowKey, q: int)
    ensures Greatest([] + [q], lo, k, q) && !Late([], lo, k, q)
  {
  }

  /** The serial-maximum observer on every trace whose flows each stay in an arc of less than 2^31
      numbers: it keeps the greatest number of every known flow, and its counter is the number
      of packets that arrived after a later one of their flow. At most 65536 flows are known. */
  lemma {:induction false} MaximumOnArcs(ps: seq<Bytes>, lo: FlowKey -> int)
    requires OnArcs(ps, lo)
    ensures TracksMaxima(ps, lo, RunPre(ps)) && |RunPre(ps).maxes| <= 65536
  {
    hide OnArcs, ObservePre, Epoch, Keys, ParseTCP, Greatest, Late;
    EpochBounded(ps, 65536);
    if ps == [] {
      NothingTracked(lo);
    } else {
      ArcsInit(ps, lo);
      MaximumOnArcs(ps[..|ps| - 1], lo);
      NotesMaximum(ps, lo, RunPre(ps[..|ps| - 1]));
    }
    var s := RunPre(ps);
    assert s.maxes.Keys == Keys(Epoch(ps, 65536));
    assert |s.maxes| == |s.maxes.Keys|;
  }

  lemma NothingTracked(lo: FlowKey -> int)
    ensures TracksMaxima([], lo, Pre(map[], 0, 0))
  {
  }

  // ---------------------------------------------------------------- genuine reordering

  ghost function SetOf(qs: seq<int>): set<int> {
    set q | q in qs
  }

  /** While a flow has carried at most 1024 different numbers, each has been accepted once. */
  lemma {:induction false} FewAccepted(qs: seq<int>)
    requires |SetOf(qs)| <= 1024
    ensures SetOf(Accepted(qs)) == SetOf(qs) && |Accepted(qs)| == |SetOf(qs)|
    ensures forall q :: Among(q, Accepted(qs)) <==> q in qs
  {
    if qs != [] {
      var init, q := qs[..|qs| - 1], qs[|qs| - 1];
      assert SetOf(qs) == SetOf(init) + {q};
      SubsetSize(SetOf(init), SetOf(qs));
      FewAccepted(init);
      assert q in init <==> q in SetOf(init);
      if q in init {
        assert SetOf(qs) == SetOf(init);
      } else {
        assert SetOf(Accepted(qs)) == SetOf(Accepted(init)) + {q};
      }
    }
    ShortAmong(Accepted(qs));
    forall q ensures q in Accepted(qs) <==> q in qs {
      assert q in SetOf(Accepted(qs)) <==> q in SetOf(qs);
    }
  }

  lemma ShortAmong(xs: seq<int>)
    requires |xs| <= 1024
    ensures forall q :: Among(q, xs) <==> q in xs
  {
    forall q | q in xs ensures Among(q, xs) {
      var i :| 0 <= i < |xs| && xs[i] == q;
    }
  }

  lemma {:induction false} AcceptedCarried(qs: seq<int>, x: int)
    requires x in Accepted(qs)
    ensures x in qs
  {
    var init := qs[..|qs| - 1];
    if x in Accepted(init) { AcceptedCarried(init, x); }
  }

  /** On an arc the running maximum is the greatest number, even over repeated ones. */
  lemma {:induction false} TopGreatest(qs: seq<int>, lo: FlowKey -> int, k: FlowKey)
    requires qs != [] && OnArc(qs, lo, k)
    ensures Greatest(qs, lo, k, Top(qs))
  {
    var init, q := qs[..|qs| - 1], qs[|qs| - 1];
    assert qs == init + [q];
    AcceptedMore(init, q);
    if init == [] {
      OnlyNumber(lo, k, q);
    } else {
      assert OnArc(init, lo, k);
      TopGreatest(init, lo, k);
      hide Accepted, Top, Dist, Offset;
      GreaterOf(init, lo, k, Top(init), q);
      if Among(q, Accepted(init)) { AcceptedCarried(init, q); }
    }
  }

  lemma ReordersOnArc(qs: seq<int>, lo: FlowKey -> int, k: FlowKey, q: int)
    requires OnArc(qs + [q], lo, k) && |SetOf(qs)| <= 1024
    ensures Reorders(qs, q) <==> q !in qs && Late(qs, lo, k, q)
  {
    FewAccepted(qs);
    hide Among, Accepted, Top, Dist, Offset, SetOf;
    if qs != [] {
      assert OnArc(qs, lo, k);
      TopGreatest(qs, lo, k);
      GreaterOf(qs, lo, k, Top(qs), q);
    }
  }

  /** The packets whose number their flow has already carried. */
  ghost function RepeatCount(ps: seq<Bytes>): nat {
    if ps == [] then 0
    else
      var init, p := ps[..|ps| - 1], ParseTCP(ps[|ps| - 1]);
      RepeatCount(init) + if p.Some? && p.value.seg.start in Numbers(init, p.value.key) then 1 else 0
  }

  /** The packets with a number that is new to their flow and below an earlier one. */
  ghost function OvertakenCount(ps: seq<Bytes>, lo: FlowKey -> int): nat {
    if ps == [] then 0
    else
      var init, p := ps[..|ps| - 1], ParseTCP(ps[|ps| - 1]);
      OvertakenCount(init, lo) +
      if p.Some? && p.value.seg.start !in Numbers(init, p.value.key)
        && Late(Numbers(init, p.value.key), lo, p.value.key, p.value.seg.start) then 1 else 0
  }

  ghost predicate FewNumbers(ps: seq<Bytes>) {
    forall k :: |SetOf(Numbers(ps, k))| <= 1024
  }

  lemma FewNumbersInit(ps: seq<Bytes>)
    requires ps != [] && FewNumbers(ps)
    ensures FewNumbers(ps[..|ps| - 1])
  {
    hide ParseTCP, Numbers;
    var init := ps[..|ps| - 1];
    assert init + [ps[|ps| - 1]] == ps;
    forall k ensures |SetOf(Numbers(init, k))| <= 1024 {
      NumbersMore(init, ps[|ps| - 1], k);
      assert |SetOf(Numbers(ps, k))| <= 1024;
      SubsetSize(SetOf(Numbers(init, k)), SetOf(Numbers(ps, k)));
    }
  }

  lemma {:induction false} CountsAgree(ps: seq<Bytes>, lo: FlowKey -> int)
    requires |Keys(ps)| <= 256 && OnArcs(ps, lo) && FewNumbers(ps)
    ensures RetrCount(ps) == RepeatCount(ps) && GenuineCount(ps) == OvertakenCount(ps, lo)
  {
    hide ParseTCP, Keys, Numbers, OnArcs, OnArc, FewNumbers, Reorders, Among, Late;
    if ps != [] {
      var init, p := ps[..|ps| - 1], ParseTCP(ps[|ps| - 1]);
      KeysInit(ps, 256);
      ArcsInit(ps, lo);
      FewNumbersInit(ps);
      CountsAgree(init, lo);
      EpochWhole(init, 256);
      if p.Some? {
        assert init + [ps[|ps| - 1]] == ps;
        NumbersMore(init, ps[|ps| - 1], p.value.key);
        FlowArc(ps, lo, p.value.key);
        FlowFew(init, p.value.key);
        FewAccepted(Numbers(init, p.value.key));
        ReordersOnArc(Numbers(init, p.value.key), lo, p.value.key, p.value.seg.start);
      }
    }
  }

  lemma FlowArc(ps: seq<Bytes>, lo: FlowKey -> int, k: FlowKey)
    requires OnArcs(ps, lo)
    ensures OnArc(Numbers(ps, k), lo, k)
  {
  }

  lemma FlowFew(ps: seq<Bytes>, k: FlowKey)
    requires FewNumbers(ps)
    ensures |SetOf(Numbers(ps, k))| <= 1024
  {
  }

  /** Telling retransmission from reordering: on traffic of at most 256 flows, each with at most 1024
      different numbers in an arc of less than 2^31, Retr counts exactly the packets whose number
      their flow has already carried, and Genuine those with a new number below an earlier one. */
  lemma GenuineExactly(ps: seq<Bytes>, lo: FlowKey -> int)
    requires |Keys(ps)| <= 256 && OnArcs(ps, lo) && FewNumbers(ps)
    ensures RunGen(ps).retr == RepeatCount(ps) && RunGen(ps).genuine == OvertakenCount(ps, lo)
  {
    hide RetrCount, GenuineCount, Keys, OnArcs, FewNumbers;
    RingCounts(ps);
    CountsAgree(ps, lo);
  }
}
