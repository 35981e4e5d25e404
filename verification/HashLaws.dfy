/** What `flowHashSym` computes and how it spreads flows over tunnels, stated without the functions
    that specify it: 32-bit FNV-1a of thirteen canonical bytes, and its lowest bits. */
module HashLaws {
  import opened Serial
  import opened Packet
  import opened FlowHash

  // ---------------------------------------------------------------- one step

  lemma BitsOfByte(x: bv8)
    ensures Value(x) / 2 == Value(x >> 1) && Value(x) % 2 == Value(x & 1)
  {
  }

  lemma XorOfBits(x: bv8, y: bv8)
    ensures (x ^ y) >> 1 == (x >> 1) ^ (y >> 1)
    ensures Value((x ^ y) & 1) == (Value(x & 1) + Value(y & 1)) % 2
  {
  }

  /** On bytes, `Xor` is the exclusive or of bit vectors. */
  lemma {:induction false} XorOfBytes(x: bv8, y: bv8)
    ensures Xor(Value(x), Value(y)) == Value(x ^ y)
    decreases Value(x) + Value(y)
  {
    hide Value, Xor;
    if Value(x) + Value(y) == 0 {
      ZeroXor(x, y);
    } else {
      HalvedBytes(x, y);
      XorHalves(Value(x), Value(y));
      XorOfBytes(x >> 1, y >> 1);
    }
  }

  /** Bytes in terms of their halves. */
  lemma HalvedBytes(x: bv8, y: bv8)
    ensures Value(x) / 2 == Value(x >> 1) && Value(y) / 2 == Value(y >> 1)
    ensures Value(x ^ y) == (Value(x) % 2 + Value(y) % 2) % 2 + 2 * Value((x >> 1) ^ (y >> 1))
  {
    hide Value;
    BitsOfByte(x);
    BitsOfByte(y);
    BitsOfByte(x ^ y);
    XorOfBits(x, y);
  }

  lemma ZeroXor(x: bv8, y: bv8)
    requires Value(x) + Value(y) == 0
    ensures Xor(Value(x), Value(y)) == Value(x ^ y)
  {
    assert x == 0 && y == 0;
  }

  lemma {:induction false} XorZero(a: nat)
    ensures Xor(a, 0) == a
  {
    if a != 0 { XorZero(a / 2); }
  }

  /** The exclusive or with a number below 2^n leaves the bits from n on alone. */
  lemma {:induction false} XorKeepsHigh(a: nat, b: nat, n: nat)
    requires b < Pow2(n)
    ensures Xor(a, b) == a / Pow2(n) * Pow2(n) + Xor(a % Pow2(n), b)
    decreases n
  {
    if n == 0 {
      XorZero(a);
      XorZero(0);
    } else {
      hide Xor;
      var m := Pow2(n - 1);
      XorKeepsHigh(a / 2, b / 2, n - 1);
      HalfMod(a, m);
      HalfDiv(a, m);
      XorHalves(a, b);
      XorHalves(a % (2 * m), b);
      Doubled(a / 2 / m, m);
    }
  }

  lemma Doubled(q: int, m: int)
    ensures 2 * (q * m) == q * (2 * m)
  {
  }

  lemma XorHalves(a: nat, b: nat)
    ensures Xor(a, b) == (a % 2 + b % 2) % 2 + 2 * Xor(a / 2, b / 2)
  {
  }

  lemma {:induction false} ByteWith(n: nat) returns (c: bv8)
    requires n < 0x100
    ensures Value(c) == n
  {
    if n == 0 {
      c := 0;
    } else {
      var d := ByteWith(n - 1);
      c := d + 1;
      ByteMore(d);
    }
  }

  lemma ByteMore(d: bv8)
    requires Value(d) < 0xff
    ensures Value(d + 1) == Value(d) + 1
  {
  }

  /** The low byte of a state. */
  ghost function LowByte(h: int): (b: bv8)
    ensures Value(b) == h % 0x100
  {
    assert exists c: bv8 :: Value(c) == h % 0x100 by { var c := ByteWith(h % 0x100); }
    var c: bv8 :| Value(c) == h % 0x100;
    c
  }

  /** One step of 32-bit FNV-1a, in bit vectors and integers: the byte is combined with the low
      byte of the state by exclusive or first, and the result multiplied by the prime. */
  ghost function Step(h: int, b: bv8): int {
    ((h / 0x100 * 0x100 + Value(LowByte(h) ^ b)) * 16777619) % 0x1_0000_0000
  }

  lemma XorByteIs(h: int, b: bv8)
    requires IsSeq(h)
    ensures XorByte(h, b) == h / 0x100 * 0x100 + Value(LowByte(h) ^ b)
  {
    hide Xor, Value, LowByte;
    assert Pow2(8) == 0x100 by { assert Pow2(4) == 16; }
    hide Pow2;
    XorKeepsHigh(h, Value(b), 8);
    XorOfBytes(LowByte(h), b);
  }

  lemma MixIsStep(h: int, b: bv8)
    requires IsSeq(h)
    ensures Mix(h, b) == Step(h, b)
  {
    hide XorByte, LowByte, Value;
    XorByteIs(h, b);
  }

  /** The states of FNV-1a over some bytes. */
  ghost predicate Fnv1a(states: seq<int>, bs: Bytes) {
    && |states| == |bs| + 1 && states[0] == 2166136261
    && forall i :: 0 <= i < |bs| ==> IsSeq(states[i]) && states[i + 1] == Step(states[i], bs[i])
  }

  lemma {:induction false} FnvStates(bs: Bytes) returns (states: seq<int>)
    ensures Fnv1a(states, bs) && states[|bs|] == Fnv(2166136261, bs)
  {
    hide Mix, Step;
    if bs == [] {
      states := [2166136261];
    } else {
      var n := |bs| - 1;
      var init := FnvStates(bs[..n]);
      assert bs == bs[..n] + [bs[n]] && [bs[n]][1..] == [];
      FnvAppend(2166136261, bs[..n], [bs[n]]);
      MixIsStep(init[n], bs[n]);
      states := init + [Fnv(2166136261, bs)];
      forall i | 0 <= i <= n ensures IsSeq(states[i]) && states[i + 1] == Step(states[i], bs[i]) {
        if i < n { assert bs[..n][i] == bs[i]; }
      }
    }
  }

  /** The hash of an IPv4 packet is the FNV-1a of its canonical bytes, from the standard offset;
      anything else hashes to 0. */
  lemma HashIsFnv1a(pkt: Bytes) returns (states: seq<int>)
    ensures if |pkt| >= 20 && pkt[0] >> 4 == 4 then
              IsIPv4(pkt) && Fnv1a(states, CanonicalOf(pkt)) && |CanonicalOf(pkt)| == 13 && Hash(pkt) == states[13]
            else Hash(pkt) == 0
  {
    hide Fnv, Step, CanonicalOf;
    states := [];
    if IsIPv4(pkt) { states := FnvStates(CanonicalOf(pkt)); }
  }

  // ---------------------------------------------------------------- the canonical bytes

  /** Comparing addresses byte by byte is comparing them as big-endian numbers. */
  lemma CompareIsNumeric(a: Bytes, b: Bytes)
    requires |a| == |b| == 4
    ensures Compare(a, b) < 0 <==> BigEndian(a) < BigEndian(b)
    ensures Compare(a, b) > 0 <==> BigEndian(a) > BigEndian(b)
  {
    hide Compare, Value, BigEndian;
    CompareFirst(a, b);
    CompareFirst(a[1..], b[1..]);
    CompareFirst(a[2..], b[2..]);
    CompareFirst(a[3..], b[3..]);
    CompareNothing();
    assert a[1..][1..] == a[2..] && a[2..][1..] == a[3..] && a[3..][1..] == [];
    assert b[1..][1..] == b[2..] && b[2..][1..] == b[3..] && b[3..][1..] == [];
    BigEndianOf(a);
    BigEndianOf(b);
  }

  lemma BigEndianOf(a: Bytes)
    requires |a| == 4
    ensures BigEndian(a) == Value(a[0]) * 0x100_0000 + Value(a[1]) * 0x1_0000 + Value(a[2]) * 0x100 + Value(a[3])
  {
  }

  lemma ByteOrder(b: bv8, c: bv8)
    ensures b < c <==> Value(b) < Value(c)
  {
  }

  lemma CompareNothing()
    ensures Compare([], []) == 0
  {
  }

  lemma CompareFirst(a: Bytes, b: Bytes)
    requires a != [] && b != []
    ensures Compare(a, b) ==
      if Value(a[0]) < Value(b[0]) then -1
      else if Value(a[0]) > Value(b[0]) then 1
      else Compare(a[1..], b[1..])
  {
    hide Value;
    ByteOrder(a[0], b[0]);
    ByteOrder(b[0], a[0]);
  }

  /** The ports that are read: two bytes each at the end of the IP header of a TCP or UDP packet
      that reaches so far, and zero otherwise. */
  ghost predicate PortsRead(pkt: Bytes, srcPort: Bytes, dstPort: Bytes)
    requires IsIPv4(pkt)
  {
    var ihl := ((pkt[0] & 0x0f) as int) * 4;
    if (pkt[9] == 6 || pkt[9] == 17) && |pkt| >= ihl + 4 then
      srcPort == pkt[ihl..ihl + 2] && dstPort == pkt[ihl + 2..ihl + 4]
    else
      srcPort == [0, 0] && dstPort == [0, 0]
  }

  /** The canonical bytes: both endpoints, address before port, then the protocol. The endpoint with
      the smaller address comes first, and for equal addresses the one with the smaller port. */
  lemma CanonicalBytes(pkt: Bytes) returns (srcPort: Bytes, dstPort: Bytes)
    requires IsIPv4(pkt)
    ensures PortsRead(pkt, srcPort, dstPort)
    ensures var c, src, dst := CanonicalOf(pkt), pkt[12..16], pkt[16..20];
      && (c == src + srcPort + dst + dstPort + [pkt[9]] || c == dst + dstPort + src + srcPort + [pkt[9]])
      && (BigEndian(c[0..4]) < BigEndian(c[6..10])
          || (c[0..4] == c[6..10] && Number(c[4..6]) <= Number(c[10..12])))
  {
    var s, d := Source(pkt), Destination(pkt);
    srcPort, dstPort := s.port, d.port;
    assert PortsRead(pkt, srcPort, dstPort);
    hide PortsRead, Source, Destination, HasPorts, HeaderLength;
    CanonicalInOrder(s, d, pkt[9]);
  }

  /** Two bytes as a big-endian number. */
  function Number(b: Bytes): int
    requires |b| == 2
  {
    (b[0] as int) * 0x100 + b[1] as int
  }

  lemma CanonicalInOrder(s: Endpoint, d: Endpoint, proto: bv8)
    requires ValidEndpoint(s) && ValidEndpoint(d)
    ensures var c := Canonical(s, d, proto);
      && (c == s.ip + s.port + d.ip + d.port + [proto] || c == d.ip + d.port + s.ip + s.port + [proto])
      && (BigEndian(c[0..4]) < BigEndian(c[6..10])
          || (c[0..4] == c[6..10] && Number(c[4..6]) <= Number(c[10..12])))
  {
    CompareIsNumeric(s.ip, d.ip);
    CompareAntisymmetric(s.ip, d.ip);
    assert Number(s.port) == Uint16(s.port) && Number(d.port) == Uint16(d.port);
    EncodedParts(s, d, proto);
    EncodedParts(d, s, proto);
    hide Compare, BigEndian, Number, Uint16;
  }

  lemma EncodedParts(lo: Endpoint, hi: Endpoint, proto: bv8)
    requires ValidEndpoint(lo) && ValidEndpoint(hi)
    ensures var c := Encode(lo, hi, proto);
      && c == lo.ip + lo.port + hi.ip + hi.port + [proto]
      && |c| == 13 && c[0..4] == lo.ip && c[4..6] == lo.port && c[6..10] == hi.ip && c[10..12] == hi.port
  {
  }

  // ---------------------------------------------------------------- division by powers of two

  lemma ModUnique(x: int, m: int, q: int, r: int)
    requires 0 <= r < m && x == q * m + r
    ensures x % m == r && x / m == q
  {
    var d := q - x / m;
    assert d * m == x % m - r;
    MultipleSize(d, m);
  }

  lemma MultipleSize(d: int, m: int)
    requires m > 0
    ensures (d > 0 ==> d * m >= m) && (d < 0 ==> d * m <= -m)
  {
  }

  lemma ModShift(x: int, t: int, m: int)
    requires m > 0
    ensures (x + t * m) % m == x % m
  {
    assert x + t * m == (x / m + t) * m + x % m;
    ModUnique(x + t * m, m, x / m + t, x % m);
  }

  lemma HalfParts(x: int, m: int)
    requires m > 0
    ensures x % (2 * m) == 2 * ((x / 2) % m) + x % 2 && x / (2 * m) == x / 2 / m
  {
    var y := x / 2;
    var q, r := y / m, y % m;
    assert x == q * (2 * m) + (2 * r + x % 2);
    ModUnique(x, 2 * m, q, 2 * r + x % 2);
  }

  lemma HalfMod(x: int, m: int)
    requires m > 0
    ensures x % (2 * m) == 2 * ((x / 2) % m) + x % 2
    ensures x % (2 * m) / 2 == (x / 2) % m && x % (2 * m) % 2 == x % 2
  {
    HalfParts(x, m);
  }

  lemma HalfDiv(x: int, m: int)
    requires m > 0
    ensures x / (2 * m) == x / 2 / m
  {
    HalfParts(x, m);
  }

  lemma {:induction false} Pow2Add(j: nat, k: nat)
    ensures Pow2(j + k) == Pow2(j) * Pow2(k)
    decreases j
  {
    if j > 0 { Pow2Add(j - 1, k); }
  }

  // ---------------------------------------------------------------- the low bits

  /** The lowest `k` bits are the same. */
  ghost predicate SameLow(x: int, y: int, k: nat)
    decreases k
  {
    k == 0 || (x % 2 == y % 2 && SameLow(x / 2, y / 2, k - 1))
  }

  lemma {:induction false} SameLowIsMod(x: int, y: int, k: nat)
    ensures SameLow(x, y, k) <==> x % Pow2(k) == y % Pow2(k)
    decreases k
  {
    if k > 0 {
      SameLowIsMod(x / 2, y / 2, k - 1);
      HalfMod(x, Pow2(k - 1));
      HalfMod(y, Pow2(k - 1));
    }
  }

  lemma {:induction false} XorLow(a: nat, c: nat, b: nat, d: nat, k: nat)
    requires SameLow(a, c, k) && SameLow(b, d, k)
    ensures SameLow(Xor(a, b), Xor(c, d), k)
    decreases k
  {
    if k > 0 {
      XorParts(a, b);
      XorParts(c, d);
      XorLow(a / 2, c / 2, b / 2, d / 2, k - 1);
    }
  }

  lemma ScaledLow(u: int, v: int, c: int, k: nat)
    requires SameLow(u, v, k)
    ensures SameLow(u * c, v * c, k)
  {
    SameLowIsMod(u, v, k);
    SameLowIsMod(u * c, v * c, k);
    var m := Pow2(k);
    var t := u / m - v / m;
    assert u == v + t * m;
    assert u * c == v * c + (t * c) * m;
    ModShift(v * c, t * c, m);
  }

  lemma WrappedLow(u: int, k: nat)
    requires k <= 32
    ensures SameLow(Wrap(u), u, k)
  {
    var m, q := Pow2(k), u / 0x1_0000_0000;
    assert Wrap(u) == u - q * 0x1_0000_0000;
    Pow2Of32();
    Pow2Add(32 - k, k);
    hide Pow2, Wrap, SameLow;
    var t := -(q * Pow2(32 - k));
    Grouped(q, Pow2(32 - k), m);
    ModShift(u, t, m);
    SameLowIsMod(Wrap(u), u, k);
  }

  lemma Grouped(q: int, p: int, m: int)
    ensures q * (p * m) == (q * p) * m && (-(q * p)) * m == -((q * p) * m)
  {
  }

  lemma {:induction false} SameLowJoin(x: int, y: int, z: int, k: nat)
    requires SameLow(x, y, k)
    ensures SameLow(y, x, k) && (SameLow(y, z, k) ==> SameLow(x, z, k))
    decreases k
  {
    if k > 0 { SameLowJoin(x / 2, y / 2, z / 2, k - 1); }
  }

  /** The prime being odd, multiplying by it can be undone on the low bits as well. */
  lemma ScaleLow(x: int, y: int, k: nat)
    requires IsSeq(x) && IsSeq(y) && k <= 32 && SameLow(Scale(x), Scale(y), k)
    ensures SameLow(x, y, k)
  {
    hide Scale, Wrap, SameLow;
    var u, v := Scale(x) * 899433627, Scale(y) * 899433627;
    ScaledLow(Scale(x), Scale(y), 899433627, k);
    WrappedLow(u, k);
    WrappedLow(v, k);
    ScaleUndone(x);
    ScaleUndone(y);
    SameLowJoin(x, u, v, k);
    SameLowJoin(y, v, x, k);
    SameLowJoin(x, v, y, k);
  }

  lemma {:induction false} SameLowReflexive(x: int, k: nat)
    ensures SameLow(x, x, k)
    decreases k
  {
    if k > 0 { SameLowReflexive(x / 2, k - 1); }
  }

  /** On the low bits too, a step is a bijection of the state. */
  lemma MixLowStates(h: int, g: int, b: bv8, k: nat)
    requires IsSeq(h) && IsSeq(g) && k <= 32 && SameLow(Mix(h, b), Mix(g, b), k)
    ensures SameLow(h, g, k)
  {
    hide Xor, Scale, SameLow, Value;
    ScaleLow(XorByte(h, b), XorByte(g, b), k);
    SameLowReflexive(Value(b), k);
    XorLow(XorByte(h, b), XorByte(g, b), Value(b), Value(b), k);
    XorUndone(h, Value(b));
    XorUndone(g, Value(b));
  }

  /** And bytes that differ there lead to states that do. */
  lemma MixLowBytes(h: int, b: bv8, c: bv8, k: nat)
    requires IsSeq(h) && k <= 32 && SameLow(Mix(h, b), Mix(h, c), k)
    ensures SameLow(Value(b), Value(c), k)
  {
    hide Xor, Scale, SameLow, Value;
    ScaleLow(XorByte(h, b), XorByte(h, c), k);
    XorCommutes(h, Value(b));
    XorCommutes(h, Value(c));
    SameLowReflexive(h, k);
    XorLow(XorByte(h, b), XorByte(h, c), h, h, k);
    XorUndone(Value(b), h);
    XorUndone(Value(c), h);
  }

  lemma {:induction false} FnvLowStates(h: int, g: int, bs: Bytes, k: nat)
    requires IsSeq(h) && IsSeq(g) && k <= 32 && SameLow(Fnv(h, bs), Fnv(g, bs), k)
    ensures SameLow(h, g, k)
    decreases bs
  {
    hide Mix, SameLow;
    if bs != [] {
      FnvLowStates(Mix(h, bs[0]), Mix(g, bs[0]), bs[1..], k);
      MixLowStates(h, g, bs[0], k);
    }
  }

  lemma {:induction false} FnvLowSeparates(h: int, xs: Bytes, ys: Bytes, i: nat, k: nat)
    requires IsSeq(h) && |xs| == |ys| && i < |xs| && forall j :: 0 <= j < |xs| && j != i ==> xs[j] == ys[j]
    requires k <= 32 && SameLow(Fnv(h, xs), Fnv(h, ys), k)
    ensures SameLow(Value(xs[i]), Value(ys[i]), k)
    decreases xs
  {
    hide Mix, SameLow, Value;
    if i == 0 {
      assert xs[1..] == ys[1..];
      FnvLowStates(Mix(h, xs[0]), Mix(h, ys[0]), xs[1..], k);
      MixLowBytes(h, xs[0], ys[0], k);
    } else {
      FnvLowSeparates(Mix(h, xs[0]), xs[1..], ys[1..], i - 1, k);
    }
  }

  // ---------------------------------------------------------------- the choice of a tunnel

  /** The index is the remainder of the hash. */
  lemma IndexIsRemainder(pkt: Bytes, n: nat) returns (q: nat)
    requires 0 < n
    ensures Hash(pkt) == q * n + TunnelIndex(pkt, n) && TunnelIndex(pkt, n) < n
  {
    hide Hash;
    q := Hash(pkt) / n;
  }

  /** With 2^k tunnels, packets whose canonical bytes differ in one place only, and there in their
      lowest `k` bits, use different tunnels. */
  lemma TunnelsSeparate(a: Bytes, b: Bytes, i: nat, k: nat)
    requires IsIPv4(a) && IsIPv4(b) && 1 <= k <= 32 && i < 13
    requires forall j :: 0 <= j < 13 && j != i ==> CanonicalOf(a)[j] == CanonicalOf(b)[j]
    requires (CanonicalOf(a)[i] as int) % Pow2(k) != (CanonicalOf(b)[i] as int) % Pow2(k)
    ensures TunnelIndex(a, Pow2(k)) != TunnelIndex(b, Pow2(k))
  {
    hide Fnv, CanonicalOf, SameLow;
    var x, y := CanonicalOf(a), CanonicalOf(b);
    SameLowIsMod(Value(x[i]), Value(y[i]), k);
    SameLowIsMod(Hash(a), Hash(b), k);
    if TunnelIndex(a, Pow2(k)) == TunnelIndex(b, Pow2(k)) {
      FnvLowSeparates(2166136261, x, y, i, k);
    }
  }

  function SumOf(bs: Bytes): nat {
    if bs == [] then 0 else Value(bs[0]) + SumOf(bs[1..])
  }

  lemma MixParity(h: int, b: bv8)
    requires IsSeq(h)
    ensures Mix(h, b) % 2 == (h + Value(b)) % 2
  {
    hide Xor, Value, Scale;
    XorParts(h, Value(b));
    ScaleParity(XorByte(h, b));
  }

  lemma ScaleParity(x: int)
    ensures Scale(x) % 2 == x % 2
  {
    hide Wrap;
    WrapParity(x * 16777619);
    OddProduct(x);
  }

  lemma WrapParity(y: int)
    ensures Wrap(y) % 2 == y % 2
  {
  }

  lemma OddProduct(x: int)
    ensures x * 16777619 % 2 == x % 2
  {
    assert x * 16777619 == 2 * (x * 8388809) + x;
  }

  lemma {:induction false} FnvParity(h: int, bs: Bytes)
    requires IsSeq(h)
    ensures Fnv(h, bs) % 2 == (h + SumOf(bs)) % 2
    decreases bs
  {
    hide Mix, Value;
    if bs != [] {
      MixParity(h, bs[0]);
      FnvParity(Mix(h, bs[0]), bs[1..]);
    }
  }

  /** With two tunnels, the index is decided by the parity of the thirteen bytes. */
  lemma TwoTunnels(pkt: Bytes)
    requires IsIPv4(pkt)
    ensures TunnelIndex(pkt, 2) == (1 + SumOf(CanonicalOf(pkt))) % 2
  {
    hide Fnv, CanonicalOf, SumOf;
    FnvParity(2166136261, CanonicalOf(pkt));
  }

  /** Both of two tunnels are used. */
  lemma BothTunnelsUsed() returns (a: Bytes, b: Bytes)
    ensures IsIPv4(a) && IsIPv4(b) && TunnelIndex(a, 2) == 0 && TunnelIndex(b, 2) == 1
  {
    hide CanonicalOf, SumOf, TunnelIndex, IsIPv4;
    a := Bare(1);
    b := Bare(2);
    assert Value(1) == 1 && Value(2) == 2;
    hide Bare, Value;
    BareParity(1);
    BareParity(2);
    TwoTunnels(a);
    TwoTunnels(b);
  }

  /** A header without ports and with equal addresses. */
  function Bare(proto: bv8): Bytes {
    [0x45, 0, 0, 0, 0, 0, 0, 0, 0, proto, 0, 0, 0, 0, 0, 0, 0, 0, 0, 0]
  }

  lemma BareParity(proto: bv8)
    requires proto != 6 && proto != 17
    ensures IsIPv4(Bare(proto)) && SumOf(CanonicalOf(Bare(proto))) == Value(proto)
  {
    BareCanonical(proto);
    hide CanonicalOf, Bare, Value;
    var zs: Bytes := [0, 0, 0, 0, 0, 0, 0, 0, 0, 0, 0, 0];
    SumOfZeros(zs, [proto]);
    assert [proto][1..] == [] && SumOf([]) == 0;
  }

  lemma BareCanonical(proto: bv8)
    requires proto != 6 && proto != 17
    ensures IsIPv4(Bare(proto)) && CanonicalOf(Bare(proto)) == [0, 0, 0, 0, 0, 0, 0, 0, 0, 0, 0, 0] + [proto]
  {
    var p := Bare(proto);
    assert p[0] >> 4 == 4;
    var e := Endpoint([0, 0, 0, 0], [0, 0]);
    assert !HasPorts(p) && p[12..16] == e.ip && p[16..20] == e.ip;
    assert Source(p) == e && Destination(p) == e;
    assert Encode(e, e, proto) == [0, 0, 0, 0, 0, 0, 0, 0, 0, 0, 0, 0] + [proto];
    hide Source, Destination, Encode, Swapped;
  }

  lemma {:induction false} SumOfZeros(zs: Bytes, bs: Bytes)
    requires forall i :: 0 <= i < |zs| ==> zs[i] == 0
    ensures SumOf(zs + bs) == SumOf(bs)
  {
    assert Value(0) == 0;
    hide Value;
    if zs == [] {
      assert zs + bs == bs;
    } else {
      assert (zs + bs)[1..] == zs[1..] + bs;
      SumOfZeros(zs[1..], bs);
    }
  }
}
