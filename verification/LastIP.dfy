/** The last address of a prefix, computed byte by byte and stated as arithmetic on the whole
    address. */
module LastAddress {
  import opened Serial

  type Address = seq<bv8>

  /** The address read as one big-endian number. */
  function Number(a: Address): (n: int)
    ensures n >= 0
  {
    if a == [] then 0 else Number(a[..|a| - 1]) * 256 + Value(a[|a| - 1])
  }

  /** byte(0xff >> (8 - k)): the low k bits. */
  function Mask(k: int): bv8
    requires 0 < k <= 8
  {
    (0xff as bv8) >> (8 - k)
  }

  /** bytes[i] |= mask */
  function SetLow(b: bv8, k: int): bv8
    requires 0 < k <= 8
  {
    b | Mask(k)
  }

  /** What the loop does: from the last byte on, the low `h` bits are set. */
  function Filled(a: Address, h: int): (r: Address)
    ensures |r| == |a|
  {
    if a == [] || h <= 0 then a
    else Filled(a[..|a| - 1], h - 8) + [SetLow(a[|a| - 1], if h < 8 then h else 8)]
  }

  /** `LastIP` on the bytes of the prefix's address. `bits` is the prefix length; -1 stands for an
      invalid one, for which the code sets every bit. */
  method LastIP(bytes: array<bv8>, bits: int)
    requires -1 <= bits <= 8 * bytes.Length
    modifies bytes
    ensures bytes[..] == Filled(old(bytes[..]), 8 * bytes.Length - bits)
    ensures bits >= 0 ==> Number(bytes[..]) == BlockEnd(Number(old(bytes[..])), 8 * bytes.Length - bits)
  {
    hide SetLow, Filled, Number, BlockEnd;
    ghost var was := bytes[..];
    var hostBits := 8 * bytes.Length - bits;
    ghost var h := hostBits;
    var i := bytes.Length - 1;
    assert was[..i + 1] == was && bytes[i + 1..] == [];
    while i >= 0
      invariant -1 <= i < bytes.Length
      invariant bytes[..i + 1] == was[..i + 1]
      invariant Filled(was, h) == Filled(was[..i + 1], hostBits) + bytes[i + 1..]
      decreases i
    {
      var setBits := 8;
      if setBits > hostBits {
        setBits := hostBits;
      }
      if setBits <= 0 {
        break;
      }
      ghost var tail := bytes[i + 1..];
      assert bytes[i] == was[..i + 1][i];
      FilledStep(was[..i + 1], hostBits);
      assert was[..i + 1][..i] == was[..i];
      bytes[i] := SetLow(bytes[i], setBits);
      assert bytes[i..] == [bytes[i]] + tail;
      assert bytes[..i] == was[..i];
      hostBits := hostBits - 8;
      i := i - 1;
    }
    FilledStop(was[..i + 1], hostBits);
    assert bytes[..] == bytes[..i + 1] + bytes[i + 1..];
    if bits >= 0 {
      FilledIsBlockEnd(was, h);
    }
  }

  lemma FilledStep(a: Address, h: int)
    requires a != [] && h > 0
    ensures Filled(a, h) == Filled(a[..|a| - 1], h - 8) + [SetLow(a[|a| - 1], if h < 8 then h else 8)]
  {
  }

  lemma FilledStop(a: Address, h: int)
    requires a == [] || h <= 0
    ensures Filled(a, h) == a
  {
  }

  // ---------------------------------------------------------------- arithmetic

  lemma PowersOfTwo()
    ensures Pow2(0) == 1 && Pow2(1) == 2 && Pow2(2) == 4 && Pow2(3) == 8 && Pow2(4) == 16
    ensures Pow2(5) == 32 && Pow2(6) == 64 && Pow2(7) == 128 && Pow2(8) == 256
  {
    assert Pow2(3) == 8;
    assert Pow2(6) == 64;
  }

  lemma {:induction false} Pow2Split(h: nat)
    requires h >= 8
    ensures Pow2(h) == 256 * Pow2(h - 8)
  {
    if h == 8 {
      PowersOfTwo();
    } else {
      Pow2Split(h - 1);
    }
  }

  /** Setting the low k bits of a byte, as arithmetic. */
  lemma MaskFills(b: bv8, k: int)
    requires 0 < k <= 8
    ensures Value(SetLow(b, k)) == Value(b) / Pow2(k) * Pow2(k) + Pow2(k) - 1
  {
    PowersOfTwo();
    hide Pow2, SetLow, Value;
    if k == 1 { Fill1(b); } else if k == 2 { Fill2(b); } else if k == 3 { Fill3(b); } else if k == 4 { Fill4(b); }
    else if k == 5 { Fill5(b); } else if k == 6 { Fill6(b); } else if k == 7 { Fill7(b); } else { Fill8(b); }
  }

  lemma Fill1(b: bv8)
    ensures Value(SetLow(b, 1)) == Value(b) / 2 * 2 + 1
  {
    assert Mask(1) == 0x01;
  }

  lemma Fill2(b: bv8)
    ensures Value(SetLow(b, 2)) == Value(b) / 4 * 4 + 3
  {
    assert Mask(2) == 0x03;
  }

  lemma Fill3(b: bv8)
    ensures Value(SetLow(b, 3)) == Value(b) / 8 * 8 + 7
  {
    assert Mask(3) == 0x07;
  }

  lemma Fill4(b: bv8)
    ensures Value(SetLow(b, 4)) == Value(b) / 16 * 16 + 15
  {
    assert Mask(4) == 0x0f;
  }

  lemma Fill5(b: bv8)
    ensures Value(SetLow(b, 5)) == Value(b) / 32 * 32 + 31
  {
    assert Mask(5) == 0x1f;
  }

  lemma Fill6(b: bv8)
    ensures Value(SetLow(b, 6)) == Value(b) / 64 * 64 + 63
  {
    assert Mask(6) == 0x3f;
  }

  lemma Fill7(b: bv8)
    ensures Value(SetLow(b, 7)) == Value(b) / 128 * 128 + 127
  {
    assert Mask(7) == 0x7f;
  }

  lemma Fill8(b: bv8)
    ensures Value(SetLow(b, 8)) == Value(b) / 256 * 256 + 255
  {
    assert Mask(8) == 0xff;
  }

  lemma MulAtLeast(y: int, k: int)
    requires y > 0 && k >= 1
    ensures y * k >= y
  {
    assert y * k - y == y * (k - 1);
  }

  lemma DivUnique(x: int, y: int, d: int, r: int)
    requires y > 0 && x == y * d + r && 0 <= r < y
    ensures x / y == d
  {
    var q, s := x / y, x % y;
    assert x == y * q + s;
    assert y * (d - q) == s - r;
    if q < d {
      MulAtLeast(y, d - q);
    } else if q > d {
      assert y * (q - d) == r - s;
      MulAtLeast(y, q - d);
    }
  }

  /** Dropping a low byte and then `q` of the rest is dropping both at once. */
  lemma DivByParts(n: int, v: int, q: int)
    requires n >= 0 && 0 <= v < 256 && q > 0
    ensures (n * 256 + v) / (256 * q) == n / q
  {
    var d, r := n / q, n % q;
    assert n == q * d + r;
    assert n * 256 + v == (256 * q) * d + (256 * r + v);
    DivUnique(n * 256 + v, 256 * q, d, 256 * r + v);
  }

  /** The last number of the block of 2^h numbers that holds n. */
  function BlockEnd(n: int, h: nat): int {
    n / Pow2(h) * Pow2(h) + Pow2(h) - 1
  }

  lemma BlockEndByte(n: int, v: int, h: nat)
    requires n >= 0 && 0 <= v < 256 && 0 < h < 8
    ensures BlockEnd(n * 256 + v, h) == n * 256 + (v / Pow2(h) * Pow2(h) + Pow2(h) - 1)
  {
    Pow2Divides(h);
    BlockParts(n, v, Pow2(h), Pow2(8 - h));
  }

  lemma Pow2Divides(h: nat)
    requires 0 < h < 8
    ensures Pow2(h) * Pow2(8 - h) == 256
  {
    PowersOfTwo();
    hide Pow2;
    if h == 1 {} else if h == 2 {} else if h == 3 {} else if h == 4 {} else if h == 5 {} else if h == 6 {} else {}
  }

  lemma BlockParts(n: int, v: int, p: int, m: int)
    requires n >= 0 && v >= 0 && p > 0 && p * m == 256
    ensures (n * 256 + v) / p * p + p - 1 == n * 256 + (v / p * p + p - 1)
  {
    DivWithin(n, v, p, m);
    var d := v / p;
    assert (n * m + d) * p == n * m * p + d * p;
    assert n * m * p == n * (p * m);
  }

  lemma DivWithin(n: int, v: int, p: int, m: int)
    requires n >= 0 && v >= 0 && p > 0 && p * m == 256
    ensures (n * 256 + v) / p == n * m + v / p
  {
    var d, r := v / p, v % p;
    assert v == p * d + r;
    assert n * 256 == n * (p * m);
    assert n * (p * m) == p * (n * m);
    assert p * (n * m + d) == p * (n * m) + p * d;
    DivUnique(n * 256 + v, p, n * m + d, r);
  }

  lemma BlockEndShift(n: int, v: int, h: nat)
    requires n >= 0 && 0 <= v < 256 && h >= 8
    ensures BlockEnd(n * 256 + v, h) == BlockEnd(n, h - 8) * 256 + 255
  {
    var q := Pow2(h - 8);
    Pow2Split(h);
    DivByParts(n, v, q);
    var d := n / q;
    assert d * (256 * q) + 256 * q - 1 == (d * q + q - 1) * 256 + 255;
  }

  /** `LastIP` as arithmetic: for an address of value v with h host bits the loop yields
      floor(v / 2^h) * 2^h + 2^h - 1. */
  lemma {:induction false} FilledIsBlockEnd(a: Address, h: nat)
    requires h <= 8 * |a|
    ensures Number(Filled(a, h)) == BlockEnd(Number(a), h)
    decreases |a|
  {
    hide BlockEnd, SetLow, Value, Pow2;
    if h == 0 {
      BlockOfOne(Number(a));
    } else {
      var init, b := a[..|a| - 1], a[|a| - 1];
      var n, v := Number(init), Value(b);
      if h < 8 {
        MaskFills(b, h);
        BlockEndByte(n, v, h);
        FilledStep(a, h);
        FilledStop(init, h - 8);
        NumberAppend(init, SetLow(b, h));
      } else {
        FilledIsBlockEnd(init, h - 8);
        MaskFills(b, 8);
        LastByteFull(v);
        BlockEndShift(n, v, h);
        FilledStep(a, h);
        NumberAppend(Filled(init, h - 8), SetLow(b, 8));
      }
    }
  }

  lemma LastByteFull(v: int)
    requires 0 <= v < 256
    ensures v / Pow2(8) * Pow2(8) + Pow2(8) - 1 == 255
  {
    PowersOfTwo();
  }

  lemma BlockOfOne(n: int)
    ensures BlockEnd(n, 0) == n
  {
  }

  lemma NumberAppend(a: Address, b: bv8)
    ensures Number(a + [b]) == Number(a) * 256 + Value(b)
  {
    assert (a + [b])[..|a|] == a;
  }

  /** An invalid prefix length of -1 behaves like 0: every bit is set. */
  lemma {:induction false} FilledBeyond(a: Address, h: int)
    requires h >= 8 * |a|
    ensures Filled(a, h) == Filled(a, 8 * |a|)
    decreases |a|
  {
    if a != [] {
      FilledBeyond(a[..|a| - 1], h - 8);
    }
  }

  /** The result shares the prefix and is the greatest number that does. */
  lemma FilledIsGreatest(a: Address, h: nat, n: int)
    requires h <= 8 * |a|
    ensures Number(Filled(a, h)) / Pow2(h) == Number(a) / Pow2(h)
    ensures n / Pow2(h) == Number(a) / Pow2(h) ==> n <= Number(Filled(a, h))
  {
    hide Filled, Number, Pow2;
    FilledIsBlockEnd(a, h);
    EndOfBlock(Number(a), Pow2(h), n);
  }

  lemma EndOfBlock(m: int, p: int, n: int)
    requires p > 0
    ensures (m / p * p + p - 1) / p == m / p
    ensures n / p == m / p ==> n <= m / p * p + p - 1
  {
    var d := m / p;
    assert d * p == p * d;
    DivUnique(d * p + p - 1, p, d, p - 1);
    var q, r := n / p, n % p;
    assert n == p * q + r;
  }

  lemma {:induction false} NumberInjective(a: Address, b: Address)
    requires |a| == |b| && Number(a) == Number(b)
    ensures a == b
    decreases |a|
  {
    hide Value;
    if a != [] {
      var i := |a| - 1;
      var x, y := Value(a[i]), Value(b[i]);
      SameByte(Number(a[..i]), x, Number(b[..i]), y);
      NumberInjective(a[..i], b[..i]);
      ValueInjective(a[i], b[i]);
      assert a == a[..i] + [a[i]] && b == b[..i] + [b[i]];
    }
  }

  lemma SameByte(n: int, x: int, m: int, y: int)
    requires n * 256 + x == m * 256 + y && 0 <= x < 256 && 0 <= y < 256
    ensures n == m && x == y
  {
  }

  /** Applying it again changes nothing. */
  lemma FilledIdempotent(a: Address, h: nat)
    requires h <= 8 * |a|
    ensures Filled(Filled(a, h), h) == Filled(a, h)
  {
    hide Filled, Number;
    FilledIsBlockEnd(a, h);
    FilledIsBlockEnd(Filled(a, h), h);
    FilledIsGreatest(a, h, 0);
    NumberInjective(Filled(Filled(a, h), h), Filled(a, h));
  }
}
