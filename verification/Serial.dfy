/** Sequence-number arithmetic: 32-bit serial numbers compared through the sign of a
    wrapped difference, next to the unbounded integers they stand for. */
module Serial {

  /** The two readings of a sequence number. `Wrapping` is what the program computes with;
      `Unbounded` is the ideal in which a stream position never wraps. */
  datatype Arith = Wrapping | Unbounded

  /** Conversion of a stream position to a 32-bit sequence number. */
  function Wrap(p: int): (s: int)
    ensures 0 <= s < 0x1_0000_0000
  {
    p % 0x1_0000_0000
  }

  /** int32(a - b): the wrapped difference read as a signed 32-bit number. */
  function Dist(a: int, b: int): (d: int)
    ensures -0x8000_0000 <= d < 0x8000_0000
  {
    var d := (a - b) % 0x1_0000_0000;
    if d < 0x8000_0000 then d else d - 0x1_0000_0000
  }

  /** How far `a` lies ahead of `b`. */
  function Gap(m: Arith, a: int, b: int): (d: int)
  {
    match m
    case Wrapping => Dist(a, b)
    case Unbounded => a - b
  }

  predicate IsSeq(s: int) {
    0 <= s < 0x1_0000_0000
  }

  /** Half the number circle: the reach of a signed 32-bit difference. */
  predicate Reachable(d: int) {
    -0x8000_0000 <= d < 0x8000_0000
  }

  lemma WrapOfDifference(p: int, q: int)
    ensures Wrap(p - q) == Wrap(Wrap(p) - Wrap(q))
  {
  }

  /** The signed difference of two wrapped positions is their true difference whenever that
      difference is representable. */
  lemma DistOfWrapped(p: int, q: int)
    requires Reachable(p - q)
    ensures Dist(Wrap(p), Wrap(q)) == p - q
  {
    assert (Wrap(p) - Wrap(q)) % 0x1_0000_0000 == (p - q) % 0x1_0000_0000;
  }

  /** Wrapping loses nothing between positions less than a full circle apart. */
  lemma WrapInjective(p: int, q: int)
    requires -0x1_0000_0000 < p - q < 0x1_0000_0000
    ensures Wrap(p) == Wrap(q) <==> p == q
  {
  }

  /** On 32-bit numbers the signed difference identifies its left operand. */
  lemma DistInjective(a: int, b: int, base: int)
    requires IsSeq(a) && IsSeq(b) && Dist(a, base) == Dist(b, base)
    ensures a == b
  {
  }

  lemma WrapOfSeq(s: int)
    requires IsSeq(s)
    ensures Wrap(s) == s
  {
  }

  /** A position recovered from its sequence number and a nearby reference position. */
  lemma WrapOfLift(s: int, base: int)
    requires IsSeq(s)
    ensures Wrap(base + Dist(s, Wrap(base))) == s
  {
  }

  function Pow2(h: nat): (p: int)
    ensures p > 0
  {
    if h == 0 then 1 else 2 * Pow2(h - 1)
  }

  /** A byte as a number. */
  function Value(b: bv8): (n: int)
    ensures 0 <= n < 0x100
  {
    b as int
  }

  lemma ValueInjective(b: bv8, c: bv8)
    requires Value(b) == Value(c)
    ensures b == c
  {
  }
}
