/** Sequence numbers of the DGE1 stream: 32-bit, compared on a circle. */
module Circular {
  const MODULUS := 0x1_0000_0000

  type u32 = x: int | 0 <= x < MODULUS

  /** The 32-bit number that an unbounded position shows on the wire. */
  function Wrap(x: int): u32 {
    x % MODULUS
  }

  function Next(e: u32): (r: u32)
    ensures r == if e + 1 == MODULUS then 0 else e + 1
  {
    (e + 1) % MODULUS
  }

  /** How far `s` lies ahead of `e`, going round upwards. */
  function Dist(s: u32, e: u32): (d: u32)
    ensures d == if s >= e then s - e else s - e + MODULUS
  {
    (s - e) % MODULUS
  }

  lemma DistNext(s: u32, e: u32)
    ensures Dist(s, e) == 0 <==> s == e
    ensures s != e ==> Dist(s, Next(e)) == Dist(s, e) - 1
  {
  }

  /** `k` further round the circle, `k` being at most one turn. */
  function Plus(e: u32, k: nat): u32
    requires k <= MODULUS
  {
    if e + k < MODULUS then e + k else e + k - MODULUS
  }

  lemma PlusIsWrap(e: u32, k: nat)
    requires k <= MODULUS
    ensures Plus(e, k) == Wrap(e + k)
  {
  }

  lemma PlusOfPosition(x: int, k: nat)
    requires k <= MODULUS
    ensures Plus(Wrap(x), k) == Wrap(x + k)
  {
    WrapPlus(x, k);
  }

  /** Going on from a number reached from `e`. */
  lemma PlusFurther(e: u32, n: nat, gap: nat, k: nat)
    requires n + gap < MODULUS && k <= n + gap + 1
    ensures Dist(Plus(Plus(e, n), gap), e) == n + gap
    ensures Dist(Plus(Plus(e, n), gap), Plus(e, n)) == gap
    ensures Plus(Plus(e, n), gap + 1) == Plus(Plus(e, k), n + gap + 1 - k) == Plus(e, n + gap + 1)
  {
  }

  lemma WrapNext(x: int)
    ensures Wrap(x + 1) == Next(Wrap(x))
  {
  }

  lemma WrapPlus(x: int, k: int)
    ensures Wrap(Wrap(x) + k) == Wrap(x + k)
  {
    var q := x / MODULUS;
    assert x == q * MODULUS + Wrap(x);
    assert (Wrap(x) + k + q * MODULUS) % MODULUS == (Wrap(x) + k) % MODULUS;
  }

  /** Within one turn of the circle, distance is plain subtraction. */
  lemma DistOfPositions(u: int, b: int)
    requires 0 <= u - b < MODULUS
    ensures Dist(Wrap(u), Wrap(b)) == u - b
  {
  }

  /** Moving the base `k` up brings everything at least `k` ahead `k` closer. */
  lemma DistShift(s: u32, e: u32, k: nat)
    requires k <= Dist(s, e)
    ensures Dist(s, Wrap(e + k)) == Dist(s, e) - k
  {
    assert Wrap(e + k) == if e + k < MODULUS then e + k else e + k - MODULUS;
  }

  /** Any set of numbers less than `n` ahead of `e` has at most `n` members. */
  lemma {:induction false} Pigeonhole(s: set<u32>, e: u32, n: nat)
    requires n <= MODULUS
    requires forall x :: x in s ==> Dist(x, e) < n
    ensures |s| <= n
  {
    if n == 0 {
      assert s == {};
    } else {
      var last := Wrap(e + n - 1);
      Pigeonhole(s - {last}, e, n - 1);
    }
  }
}
