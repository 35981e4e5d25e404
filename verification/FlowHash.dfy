/** The symmetric flow hash that pins a flow to a tunnel. */
module FlowHash {
  import opened Collections
  import opened Serial
  import opened Packet

  // ---------------------------------------------------------------- FNV-1a

  /** Exclusive or, bit by bit. */
  function Xor(a: nat, b: nat): nat
    decreases a + b
  {
    if a == 0 && b == 0 then 0 else (a % 2 + b % 2) % 2 + 2 * Xor(a / 2, b / 2)
  }

  /** The last bit and the rest, separately. */
  lemma XorParts(a: nat, b: nat)
    ensures Xor(a, b) % 2 == (a % 2 + b % 2) % 2 && Xor(a, b) / 2 == Xor(a / 2, b / 2)
  {
  }

  lemma BitUndone(p: nat, q: nat)
    requires p < 2 && q < 2
    ensures ((p + q) % 2 + q) % 2 == p
  {
  }

  lemma {:induction false} XorUndone(a: nat, b: nat)
    ensures Xor(Xor(a, b), b) == a
    decreases a + b
  {
    if a != 0 || b != 0 {
      hide Xor;
      var x := Xor(a, b);
      XorParts(a, b);
      XorParts(x, b);
      XorUndone(a / 2, b / 2);
      BitUndone(a % 2, b % 2);
      HalvesDetermine(Xor(x, b), a);
    }
  }

  lemma HalvesDetermine(x: int, y: int)
    requires x % 2 == y % 2 && x / 2 == y / 2
    ensures x == y
  {
  }

  lemma {:induction false} XorCommutes(a: nat, b: nat)
    ensures Xor(a, b) == Xor(b, a)
    decreases a + b
  {
    if a != 0 || b != 0 { XorCommutes(a / 2, b / 2); }
  }

  lemma {:induction false} XorBound(a: nat, b: nat, n: nat)
    requires a < Pow2(n) && b < Pow2(n)
    ensures Xor(a, b) < Pow2(n)
  {
    if n > 0 && (a != 0 || b != 0) {
      XorBound(a / 2, b / 2, n - 1);
    }
  }

  lemma Pow2Of32()
    ensures Pow2(32) == 0x1_0000_0000
  {
    assert Pow2(4) == 16;
    assert Pow2(8) == 0x100;
    assert Pow2(12) == 0x1000;
    assert Pow2(16) == 0x1_0000;
    assert Pow2(20) == 0x10_0000;
    assert Pow2(24) == 0x100_0000;
    assert Pow2(28) == 0x1000_0000;
  }

  /** h ^ uint32(b). */
  function XorByte(h: int, b: bv8): (r: int)
    requires IsSeq(h)
    ensures IsSeq(r)
  {
    Pow2Of32();
    XorBound(h, Value(b), 32);
    Xor(h, Value(b))
  }

  /** h * prime32, modulo 2^32. */
  function Scale(x: int): (r: int)
    ensures IsSeq(r)
  {
    Wrap(x * 16777619)
  }

  /** One step of 32-bit FNV-1a. */
  function Mix(h: int, b: bv8): (r: int)
    requires IsSeq(h)
    ensures IsSeq(r)
  {
    Scale(XorByte(h, b))
  }

  function Fnv(h: int, bs: Bytes): (r: int)
    requires IsSeq(h)
    ensures IsSeq(r)
    decreases bs
  {
    if bs == [] then h else Fnv(Mix(h, bs[0]), bs[1..])
  }

  /** The prime is odd, so multiplying by it modulo 2^32 can be undone: 899433627 is its inverse. */
  lemma ScaleUndone(x: int)
    requires IsSeq(x)
    ensures Wrap(Scale(x) * 899433627) == x
  {
    var y, q := Scale(x), x * 16777619 / 0x1_0000_0000;
    assert y == x * 16777619 - q * 0x1_0000_0000;
    assert y * 899433627 == x + (x * 3513497 - q * 899433627) * 0x1_0000_0000;
    WrapOfMultiple(x, x * 3513497 - q * 899433627);
  }

  lemma WrapOfMultiple(x: int, k: int)
    requires IsSeq(x)
    ensures Wrap(x + k * 0x1_0000_0000) == x
  {
  }

  lemma ScaleInjective(x: int, y: int)
    requires IsSeq(x) && IsSeq(y) && Scale(x) == Scale(y)
    ensures x == y
  {
    hide Wrap, Scale;
    ScaleUndone(x);
    ScaleUndone(y);
  }

  /** For each byte, a step is a bijection of the state. */
  lemma MixSeparatesStates(h: int, g: int, b: bv8)
    requires IsSeq(h) && IsSeq(g) && Mix(h, b) == Mix(g, b)
    ensures h == g
  {
    hide Value, Xor, Scale;
    ScaleInjective(XorByte(h, b), XorByte(g, b));
    XorUndone(h, Value(b));
    XorUndone(g, Value(b));
  }

  /** From each state, different bytes lead to different states. */
  lemma MixSeparatesBytes(h: int, b: bv8, c: bv8)
    requires IsSeq(h) && Mix(h, b) == Mix(h, c)
    ensures b == c
  {
    hide Value, Xor, Scale;
    ScaleInjective(XorByte(h, b), XorByte(h, c));
    XorCommutes(h, Value(b));
    XorCommutes(h, Value(c));
    XorUndone(Value(b), h);
    XorUndone(Value(c), h);
    ValueInjective(b, c);
  }

  lemma {:induction false} FnvInjective(h: int, g: int, bs: Bytes)
    requires IsSeq(h) && IsSeq(g) && h != g
    ensures Fnv(h, bs) != Fnv(g, bs)
    decreases bs
  {
    hide Mix;
    if bs != [] {
      if Mix(h, bs[0]) == Mix(g, bs[0]) { MixSeparatesStates(h, g, bs[0]); }
      FnvInjective(Mix(h, bs[0]), Mix(g, bs[0]), bs[1..]);
    }
  }

  /** Inputs that differ in exactly one byte have different hashes. */
  lemma {:induction false} FnvSeparates(h: int, xs: Bytes, ys: Bytes, i: nat)
    requires IsSeq(h) && |xs| == |ys| && i < |xs| && xs[i] != ys[i]
    requires forall j :: 0 <= j < |xs| && j != i ==> xs[j] == ys[j]
    ensures Fnv(h, xs) != Fnv(h, ys)
    decreases xs
  {
    hide Mix;
    if i == 0 {
      if Mix(h, xs[0]) == Mix(h, ys[0]) { MixSeparatesBytes(h, xs[0], ys[0]); }
      assert xs[1..] == ys[1..];
      FnvInjective(Mix(h, xs[0]), Mix(h, ys[0]), xs[1..]);
    } else {
      FnvSeparates(Mix(h, xs[0]), xs[1..], ys[1..], i - 1);
    }
  }

  // ---------------------------------------------------------------- the canonical 5-tuple

  /** bytes.Compare. */
  function Compare(a: Bytes, b: Bytes): int {
    if a == [] then (if b == [] then 0 else -1)
    else if b == [] then 1
    else if a[0] < b[0] then -1
    else if a[0] > b[0] then 1
    else Compare(a[1..], b[1..])
  }

  lemma {:induction false} CompareAntisymmetric(a: Bytes, b: Bytes)
    ensures Compare(a, b) == -Compare(b, a)
    ensures Compare(a, b) == 0 <==> a == b
  {
    if a != [] && b != [] {
      CompareAntisymmetric(a[1..], b[1..]);
      assert a == [a[0]] + a[1..] && b == [b[0]] + b[1..];
    }
  }

  /** A port read big-endian from its two bytes. */
  function Uint16(b: Bytes): int
    requires |b| == 2
  {
    Value(b[0]) * 0x100 + Value(b[1])
  }

  lemma Uint16Injective(a: Bytes, b: Bytes)
    requires |a| == |b| == 2 && Uint16(a) == Uint16(b)
    ensures a == b
  {
    hide Value;
    ValueInjective(a[0], b[0]);
    ValueInjective(a[1], b[1]);
  }

  /** An address and the two bytes of a port, high byte first. */
  datatype Endpoint = Endpoint(ip: Bytes, port: Bytes)

  predicate ValidEndpoint(e: Endpoint) {
    |e.ip| == 4 && |e.port| == 2
  }

  function Encode(lo: Endpoint, hi: Endpoint, proto: bv8): Bytes {
    lo.ip + lo.port + hi.ip + hi.port + [proto]
  }

  predicate Swapped(src: Endpoint, dst: Endpoint)
    requires ValidEndpoint(src) && ValidEndpoint(dst)
  {
    var c := Compare(src.ip, dst.ip);
    c > 0 || (c == 0 && Uint16(src.port) > Uint16(dst.port))
  }

  /** The bytes hashed: the smaller endpoint first. */
  function Canonical(src: Endpoint, dst: Endpoint, proto: bv8): (bs: Bytes)
    requires ValidEndpoint(src) && ValidEndpoint(dst)
    ensures |bs| == 13
  {
    if Swapped(src, dst) then Encode(dst, src, proto) else Encode(src, dst, proto)
  }

  lemma CanonicalSymmetric(src: Endpoint, dst: Endpoint, proto: bv8)
    requires ValidEndpoint(src) && ValidEndpoint(dst)
    ensures Canonical(src, dst, proto) == Canonical(dst, src, proto)
  {
    hide Encode, Compare, Uint16;
    CompareAntisymmetric(src.ip, dst.ip);
    if Uint16(src.port) == Uint16(dst.port) {
      Uint16Injective(src.port, dst.port);
    }
  }

  lemma EncodeInjective(a: Endpoint, b: Endpoint, c: Endpoint, d: Endpoint, proto: bv8)
    requires ValidEndpoint(a) && ValidEndpoint(b) && ValidEndpoint(c) && ValidEndpoint(d)
    requires Encode(a, b, proto) == Encode(c, d, proto)
    ensures a == c && b == d
  {
    var x, y := Encode(a, b, proto), Encode(c, d, proto);
    assert a.ip == x[0..4] && a.port == x[4..6] && b.ip == x[6..10] && b.port == x[10..12];
    assert c.ip == y[0..4] && c.port == y[4..6] && d.ip == y[6..10] && d.port == y[10..12];
  }

  /** Two pairs of endpoints have one encoding exactly when they are equal or exchanged. */
  lemma CanonicalSeparates(a: Endpoint, b: Endpoint, c: Endpoint, d: Endpoint, proto: bv8)
    requires ValidEndpoint(a) && ValidEndpoint(b) && ValidEndpoint(c) && ValidEndpoint(d)
    ensures Canonical(a, b, proto) == Canonical(c, d, proto) <==> (a == c && b == d) || (a == d && b == c)
  {
    hide Encode, Swapped, ValidEndpoint;
    CanonicalSymmetric(a, b, proto);
    if Canonical(a, b, proto) == Canonical(c, d, proto) {
      var x, y := if Swapped(a, b) then b else a, if Swapped(a, b) then a else b;
      var u, v := if Swapped(c, d) then d else c, if Swapped(c, d) then c else d;
      EncodeInjective(x, y, u, v, proto);
    }
  }

  // ---------------------------------------------------------------- the hash of a packet

  predicate IsIPv4(pkt: Bytes) {
    |pkt| >= 20 && pkt[0] >> 4 == 4
  }

  predicate HasPorts(pkt: Bytes)
    requires IsIPv4(pkt)
  {
    (pkt[9] == 6 || pkt[9] == 17) && |pkt| >= HeaderLength(pkt[0]) + 4
  }

  function Source(pkt: Bytes): (e: Endpoint)
    requires IsIPv4(pkt)
    ensures ValidEndpoint(e)
  {
    var ihl := HeaderLength(pkt[0]);
    Endpoint(pkt[12..16], if HasPorts(pkt) then pkt[ihl..ihl + 2] else [0, 0])
  }

  function Destination(pkt: Bytes): (e: Endpoint)
    requires IsIPv4(pkt)
    ensures ValidEndpoint(e)
  {
    var ihl := HeaderLength(pkt[0]);
    Endpoint(pkt[16..20], if HasPorts(pkt) then pkt[ihl + 2..ihl + 4] else [0, 0])
  }

  function CanonicalOf(pkt: Bytes): (bs: Bytes)
    requires IsIPv4(pkt)
    ensures |bs| == 13
  {
    Canonical(Source(pkt), Destination(pkt), pkt[9])
  }

  function Hash(pkt: Bytes): (h: int)
    ensures IsSeq(h)
  {
    if !IsIPv4(pkt) then 0 else Fnv(2166136261, CanonicalOf(pkt))
  }

  /** Feeding bytes one at a time. */
  lemma {:induction false} FnvAppend(h: int, xs: Bytes, ys: Bytes)
    requires IsSeq(h)
    ensures Fnv(h, xs + ys) == Fnv(Fnv(h, xs), ys)
    decreases xs
  {
    hide Mix;
    if xs == [] {
      assert xs + ys == ys;
    } else {
      FnvAppend(Mix(h, xs[0]), xs[1..], ys);
      assert (xs + ys)[1..] == xs[1..] + ys;
    }
  }

  /** `for _, b := range bs { upd(b) }` */
  method Update(h: int, bs: Bytes) returns (h': int)
    requires IsSeq(h)
    ensures h' == Fnv(h, bs)
  {
    hide Mix;
    h' := h;
    for i := 0 to |bs|
      invariant h' == Fnv(h, bs[..i])
    {
      FnvAppend(h, bs[..i], [bs[i]]);
      assert bs[..i + 1] == bs[..i] + [bs[i]];
      assert [bs[i]][1..] == [];
      h' := Mix(h', bs[i]);
    }
    assert bs[..|bs|] == bs;
  }

  /** `flowHashSym`: updates the hash field by field. */
  method FlowHashSym(pkt: Bytes) returns (h: int)
    ensures h == Hash(pkt)
  {
    hide Fnv, Compare, Uint16, HeaderLength, Encode;
    if |pkt| < 20 || pkt[0] >> 4 != 4 {
      return 0;
    }
    var ihl, proto := HeaderLength(pkt[0]), pkt[9];
    var srcPort, dstPort: Bytes := [0, 0], [0, 0];
    if (proto == 6 || proto == 17) && |pkt| >= ihl + 4 {
      srcPort := pkt[ihl..ihl + 2];
      dstPort := pkt[ihl + 2..ihl + 4];
    }
    var lo, hi := Endpoint(pkt[12..16], srcPort), Endpoint(pkt[16..20], dstPort);
    if Swapped(lo, hi) {
      lo, hi := hi, lo;
    }
    h := Update(2166136261, lo.ip);
    h := Update(h, lo.port);
    h := Update(h, hi.ip);
    h := Update(h, hi.port);
    h := Update(h, [proto]);
    FnvOfEncode(lo, hi, proto);
  }

  lemma FnvOfEncode(lo: Endpoint, hi: Endpoint, proto: bv8)
    ensures Fnv(2166136261, Encode(lo, hi, proto))
      == Fnv(Fnv(Fnv(Fnv(Fnv(2166136261, lo.ip), lo.port), hi.ip), hi.port), [proto])
  {
    hide Fnv;
    var a, b, c, d := lo.ip, lo.port, hi.ip, hi.port;
    FnvAppend(2166136261, a, b);
    FnvAppend(2166136261, a + b, c);
    FnvAppend(2166136261, a + b + c, d);
    FnvAppend(2166136261, a + b + c + d, [proto]);
  }

  // ---------------------------------------------------------------- both directions, one tunnel

  /** The packet with addresses and ports exchanged. Behind a header length below 20 there is no
      room for ports of its own, and only the addresses are exchanged. */
  function Reverse(pkt: Bytes): (r: Bytes)
    requires IsIPv4(pkt)
    ensures |r| == |pkt|
  {
    var ihl := HeaderLength(pkt[0]);
    pkt[..12] + pkt[16..20] + pkt[12..16] +
    if HasPorts(pkt) && ihl >= 20 then pkt[20..ihl] + pkt[ihl + 2..ihl + 4] + pkt[ihl..ihl + 2] + pkt[ihl + 4..]
    else pkt[20..]
  }

  lemma ReverseSwaps(pkt: Bytes)
    requires IsIPv4(pkt) && (HeaderLength(pkt[0]) >= 20 || !HasPorts(pkt))
    ensures var r := Reverse(pkt);
      IsIPv4(r) && r[0] == pkt[0] && r[9] == pkt[9] && Source(r) == Destination(pkt) && Destination(r) == Source(pkt)
  {
    hide HeaderLength, Uint16;
    var r, ihl := Reverse(pkt), HeaderLength(pkt[0]);
    assert r[12..16] == pkt[16..20] && r[16..20] == pkt[12..16];
    if HasPorts(pkt) {
      assert r[ihl..ihl + 2] == pkt[ihl + 2..ihl + 4];
      assert r[ihl + 2..ihl + 4] == pkt[ihl..ihl + 2];
    }
  }

  /** The index of the tunnel a packet is sent on, of `n` tunnels. */
  function TunnelIndex(pkt: Bytes, n: nat): (i: nat)
    requires 0 < n
    ensures i < n
  {
    Hash(pkt) % n
  }

  /** The guard for symmetry. A header length below 20 makes the code read the ports from inside
      the header: the first bytes, which reversing leaves alone, or one of the addresses. */
  predicate DirectionsAgree(pkt: Bytes)
    requires IsIPv4(pkt)
  {
    var ihl, src, dst := HeaderLength(pkt[0]), pkt[12..16], pkt[16..20];
    || ihl >= 20 || !HasPorts(pkt) || src == dst
    || if ihl <= 8 then pkt[ihl..ihl + 2] == pkt[ihl + 2..ihl + 4]
       else src[0..2] == dst[2..4] && src[2..4] == dst[0..2]
  }

  lemma ShortLengths(b: bv8)
    requires HeaderLength(b) < 20
    ensures HeaderLength(b) <= 8 || HeaderLength(b) == 12 || HeaderLength(b) == 16
  {
  }

  /** The ports of the reverse, for a short header. */
  lemma ShortReverse(pkt: Bytes)
    requires IsIPv4(pkt) && HeaderLength(pkt[0]) < 20 && HasPorts(pkt)
    ensures var r, ihl, src, dst := Reverse(pkt), HeaderLength(pkt[0]), pkt[12..16], pkt[16..20];
      && IsIPv4(r) && r[9] == pkt[9] && Source(r).ip == dst && Destination(r).ip == src
      && (ihl <= 8 ==> Source(r).port == Source(pkt).port && Destination(r).port == Destination(pkt).port)
      && (ihl == 12 ==> Source(r).port == dst[0..2] && Destination(r).port == dst[2..4])
      && (ihl == 16 ==> Source(r).port == src[0..2] && Destination(r).port == src[2..4])
  {
    hide HeaderLength;
    var r, ihl := Reverse(pkt), HeaderLength(pkt[0]);
    assert r[0] == pkt[0] && r[9] == pkt[9] && r[12..16] == pkt[16..20] && r[16..20] == pkt[12..16];
    assert IsIPv4(r) && HasPorts(r);
    assert Source(r).port == r[ihl..ihl + 2] && Destination(r).port == r[ihl + 2..ihl + 4];
    if ihl <= 8 {
      assert r[..12] == pkt[..12];
      SamePrefix(r, pkt, ihl, ihl + 2);
      SamePrefix(r, pkt, ihl + 2, ihl + 4);
    } else if ihl == 12 || ihl == 16 {
      Halves(r, ihl);
    }
  }

  lemma SamePrefix(p: Bytes, q: Bytes, a: nat, b: nat)
    requires a <= b <= 12 <= |p| && 12 <= |q| && p[..12] == q[..12]
    ensures p[a..b] == q[a..b]
  {
    forall i | 0 <= i < b - a ensures p[a..b][i] == q[a..b][i] {
      assert p[a + i] == p[..12][a + i] == q[..12][a + i] == q[a + i];
    }
  }

  lemma Halves(p: Bytes, i: nat)
    requires i + 4 <= |p|
    ensures p[i..i + 4][0..2] == p[i..i + 2] && p[i..i + 4][2..4] == p[i + 2..i + 4]
  {
  }

  lemma ShortPorts(pkt: Bytes)
    requires IsIPv4(pkt) && HasPorts(pkt)
    ensures var ihl, src, dst := HeaderLength(pkt[0]), pkt[12..16], pkt[16..20];
      && Source(pkt).ip == src && Destination(pkt).ip == dst
      && Source(pkt).port == pkt[ihl..ihl + 2] && Destination(pkt).port == pkt[ihl + 2..ihl + 4]
      && (ihl == 12 ==> Source(pkt).port == src[0..2] && Destination(pkt).port == src[2..4])
      && (ihl == 16 ==> Source(pkt).port == dst[0..2] && Destination(pkt).port == dst[2..4])
  {
    hide HeaderLength;
    Halves(pkt, HeaderLength(pkt[0]));
  }

  /** What is hashed is the same for both directions if and only if the guard holds. */
  lemma DirectionsAgreeExactly(pkt: Bytes)
    requires IsIPv4(pkt)
    ensures IsIPv4(Reverse(pkt))
    ensures CanonicalOf(Reverse(pkt)) == CanonicalOf(pkt) <==> DirectionsAgree(pkt)
  {
    var r := Reverse(pkt);
    if HeaderLength(pkt[0]) >= 20 || !HasPorts(pkt) {
      ReverseSwaps(pkt);
      CanonicalSymmetric(Source(pkt), Destination(pkt), pkt[9]);
    } else {
      ShortLengths(pkt[0]);
      ShortReverse(pkt);
      ShortPorts(pkt);
      CanonicalSeparates(Source(r), Destination(r), Source(pkt), Destination(pkt), pkt[9]);
      hide HeaderLength, Reverse, Source, Destination, HasPorts;
    }
  }

  /** Tunnel pinning: a packet and its reverse use the same tunnel. */
  lemma BothDirections(pkt: Bytes, n: nat)
    requires IsIPv4(pkt) && DirectionsAgree(pkt) && 0 < n
    ensures TunnelIndex(Reverse(pkt), n) == TunnelIndex(pkt, n)
  {
    hide Fnv, CanonicalOf, DirectionsAgree, Reverse;
    DirectionsAgreeExactly(pkt);
  }

  /** The key of the opposite direction. */
  function ReverseKey(k: FlowKey): FlowKey
    requires |k| == 13
  {
    k[4..8] + k[0..4] + k[10..12] + k[8..10] + [k[12]]
  }

  function KeySource(k: FlowKey): (e: Endpoint)
    requires |k| == 13
    ensures ValidEndpoint(e)
  {
    Endpoint(k[0..4], k[8..10])
  }

  function KeyDestination(k: FlowKey): (e: Endpoint)
    requires |k| == 13
    ensures ValidEndpoint(e)
  {
    Endpoint(k[4..8], k[10..12])
  }

  /** The hash of a TCP packet depends on its flow key only. */
  lemma HashOfKey(pkt: Bytes)
    requires ParseTCP(pkt).Some?
    ensures var k := ParseTCP(pkt).value.key;
      IsIPv4(pkt) && CanonicalOf(pkt) == Canonical(KeySource(k), KeyDestination(k), 6)
  {
    hide HeaderLength, DataOffset, Uint16, Canonical;
    var k, ihl := ParseTCP(pkt).value.key, HeaderLength(pkt[0]);
    var tcp := pkt[ihl..];
    assert pkt[ihl..ihl + 2] == tcp[0..2] && pkt[ihl + 2..ihl + 4] == tcp[2..4];
    assert k[0..4] == pkt[12..16] && k[4..8] == pkt[16..20] && k[8..10] == tcp[0..2] && k[10..12] == tcp[2..4];
  }

  /** Any two packets that the resequencer files under one key, or under opposite keys, use the
      same tunnel. */
  lemma SameFlowSameTunnel(a: Bytes, b: Bytes, n: nat)
    requires ParseTCP(a).Some? && ParseTCP(b).Some? && 0 < n
    requires var j, k := ParseTCP(a).value.key, ParseTCP(b).value.key; j == k || j == ReverseKey(k)
    ensures TunnelIndex(a, n) == TunnelIndex(b, n)
  {
    hide ParseTCP, Canonical, CanonicalOf, Uint16, Fnv, KeySource, KeyDestination, ReverseKey;
    HashOfKey(a);
    HashOfKey(b);
    var j, k := ParseTCP(a).value.key, ParseTCP(b).value.key;
    if j == ReverseKey(k) {
      ReverseKeySwaps(k);
      CanonicalSymmetric(KeySource(j), KeyDestination(j), 6);
    }
  }

  lemma ReverseKeySwaps(k: FlowKey)
    requires |k| == 13
    ensures |ReverseKey(k)| == 13
    ensures KeySource(ReverseKey(k)) == KeyDestination(k) && KeyDestination(ReverseKey(k)) == KeySource(k)
  {
    hide Uint16;
    var j := ReverseKey(k);
    assert j[0..4] == k[4..8] && j[4..8] == k[0..4] && j[8..10] == k[10..12] && j[10..12] == k[8..10];
  }

  /** Hash separation: packets whose canonical encodings differ in exactly one byte have different
      hashes. */
  lemma HashSeparates(a: Bytes, b: Bytes, i: nat)
    requires IsIPv4(a) && IsIPv4(b) && i < 13 && CanonicalOf(a)[i] != CanonicalOf(b)[i]
    requires forall j :: 0 <= j < 13 && j != i ==> CanonicalOf(a)[j] == CanonicalOf(b)[j]
    ensures Hash(a) != Hash(b)
  {
    hide CanonicalOf, Fnv;
    FnvSeparates(2166136261, CanonicalOf(a), CanonicalOf(b), i);
  }

  // ---------------------------------------------------------------- short headers

  /** A 20-byte packet that claims a 16-byte header. */
  function ShortHeader(src: Bytes, dst: Bytes): Bytes
    requires |src| == |dst| == 4
  {
    [0x44, 0, 0, 0, 0, 0, 0, 0, 0, 6, 0, 0] + src + dst
  }

  lemma ShortHeaderReversed(src: Bytes, dst: Bytes)
    requires |src| == |dst| == 4
    ensures IsIPv4(ShortHeader(src, dst)) && Reverse(ShortHeader(src, dst)) == ShortHeader(dst, src)
  {
    ShortHeaderEndpoints(src, dst);
    var p := ShortHeader(src, dst);
    assert HeaderLength(p[0]) == 16;
    hide HeaderLength, HasPorts;
    assert p[..12] == ShortHeader(dst, src)[..12];
    assert p[12..16] == src && p[16..20] == dst && p[20..] == [];
  }

  /** Below 20 the header length is not checked, and the hash can differ between the directions. */
  lemma ShortHeaderAsymmetric()
    ensures Hash(ShortHeader([1, 2, 2, 0], [2, 0, 1, 3])) != Hash(ShortHeader([2, 0, 1, 3], [1, 2, 2, 0]))
  {
    var a, b := ShortHeader([1, 2, 2, 0], [2, 0, 1, 3]), ShortHeader([2, 0, 1, 3], [1, 2, 2, 0]);
    ShortHeaderForward();
    ShortHeaderBackward();
    ShortHeaderEndpoints([1, 2, 2, 0], [2, 0, 1, 3]);
    ShortHeaderEndpoints([2, 0, 1, 3], [1, 2, 2, 0]);
    hide Fnv, CanonicalOf, ShortHeader, Source, Destination;
    hide ValidEndpoint, HasPorts, HeaderLength;
    FnvSeparates(2166136261, CanonicalOf(a), CanonicalOf(b), 11);
  }

  lemma ShortHeaderForward()
    ensures CanonicalOf(ShortHeader([1, 2, 2, 0], [2, 0, 1, 3])) == [1, 2, 2, 0, 2, 0, 2, 0, 1, 3, 1, 3, 6]
  {
    ShortHeaderEndpoints([1, 2, 2, 0], [2, 0, 1, 3]);
    assert Compare([1, 2, 2, 0], [2, 0, 1, 3]) == -1;
    hide Compare;
  }

  lemma ShortHeaderBackward()
    ensures CanonicalOf(ShortHeader([2, 0, 1, 3], [1, 2, 2, 0])) == [1, 2, 2, 0, 2, 0, 2, 0, 1, 3, 1, 2, 6]
  {
    ShortHeaderEndpoints([2, 0, 1, 3], [1, 2, 2, 0]);
    assert Compare([2, 0, 1, 3], [1, 2, 2, 0]) == 1;
    hide Compare;
  }

  lemma ShortHeaderEndpoints(src: Bytes, dst: Bytes)
    requires |src| == |dst| == 4
    ensures var p := ShortHeader(src, dst);
      IsIPv4(p) && p[9] == 6 && Source(p) == Endpoint(src, dst[0..2]) && Destination(p) == Endpoint(dst, dst[2..4])
  {
    var p := ShortHeader(src, dst);
    assert p[0] >> 4 == 4;
    assert HeaderLength(p[0]) == 16;
    hide HeaderLength;
    assert p[12..16] == src && p[16..20] == dst;
    assert p[16..18] == dst[0..2] && p[18..20] == dst[2..4];
  }
}
