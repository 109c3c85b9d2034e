/** Powers of two, and the bit tricks on unsigned words that the hash table uses. */
module Powers {

  function Pow2(n: nat): (p: nat)
    ensures p >= 1
  {
    if n == 0 then 1 else 2 * Pow2(n - 1)
  }

  /** The integer binary logarithm. */
  function Log2(n: nat): (l: nat)
    requires n >= 1
    ensures Pow2(l) <= n < Pow2(l + 1)
  {
    if n == 1 then 0 else Log2(n / 2) + 1
  }

  lemma {:induction false} Pow2Monotone(a: nat, b: nat)
    requires a <= b
    ensures Pow2(a) <= Pow2(b)
  {
    if a < b { Pow2Monotone(a, b - 1); }
  }

  // ---- words as bits ----

  predicate Bit(x: nat, i: nat) {
    if i == 0 then x % 2 == 1 else Bit(x / 2, i - 1)
  }

  /** x >> s */
  function Shr(x: nat, s: nat): nat {
    if s == 0 then x else Shr(x / 2, s - 1)
  }

  /** a | b */
  function Or(a: nat, b: nat): nat
    decreases a + b
  {
    if a == 0 then b else 2 * Or(a / 2, b / 2) + (if a % 2 == 1 || b % 2 == 1 then 1 else 0)
  }

  /** a & b */
  function And(a: nat, b: nat): (c: nat)
    ensures c <= b
  {
    if a == 0 then 0 else 2 * And(a / 2, b / 2) + (if a % 2 == 1 && b % 2 == 1 then 1 else 0)
  }

  lemma AndOdd(h: nat, m: nat)
    ensures And(h, 2 * m + 1) == 2 * And(h / 2, m) + h % 2
  {
    assert (2 * m + 1) / 2 == m && (2 * m + 1) % 2 == 1;
  }

  lemma {:induction false} AndIsRemainder(h: nat, k: nat)
    ensures And(h, Pow2(k) - 1) == h % Pow2(k)
  {
    if k > 0 {
      var p, half := Pow2(k - 1), h / 2;
      AndOdd(h, p - 1);
      AndIsRemainder(half, k - 1);
      HalfRemainder(h, p);
      assert Pow2(k) - 1 == 2 * (p - 1) + 1;
    }
  }

  lemma HalfRemainder(h: nat, p: nat)
    requires p >= 1
    ensures h % (2 * p) == 2 * (h / 2 % p) + h % 2
  {
    var q, r := h / 2 / p, h / 2 % p;
    assert h == q * (2 * p) + (2 * r + h % 2) by {
      assert h / 2 == q * p + r;
      assert q * (2 * p) == 2 * (q * p);
    }
    RemainderIs(h, 2 * p, q, 2 * r + h % 2);
  }

  lemma RemainderIs(t: nat, d: nat, q: nat, r: nat)
    requires d >= 1 && t == q * d + r && r < d
    ensures t / d == q && t % d == r
  {
    var k := t / d - q;
    assert k * d == r - t % d;
    assert k >= 1 ==> k * d >= d;
    assert k <= -1 ==> k * d + d <= 0;
  }

  lemma {:induction false} BitOfZero(i: nat)
    ensures !Bit(0, i)
  {
    if i > 0 { BitOfZero(i - 1); }
  }

  lemma {:induction false} BitOfOr(a: nat, b: nat, i: nat)
    ensures Bit(Or(a, b), i) <==> Bit(a, i) || Bit(b, i)
  {
    if a == 0 {
      BitOfZero(i);
    } else if i > 0 {
      assert Or(a, b) / 2 == Or(a / 2, b / 2);
      BitOfOr(a / 2, b / 2, i - 1);
    }
  }

  lemma {:induction false} BitOfShr(x: nat, s: nat, i: nat)
    ensures Bit(Shr(x, s), i) == Bit(x, i + s)
  {
    if s > 0 { BitOfShr(x / 2, s - 1, i); }
  }

  lemma {:induction false} TopBit(x: nat, k: nat, i: nat)
    requires Pow2(k) <= x < Pow2(k + 1) && i >= k
    ensures Bit(x, i) <==> i == k
  {
    if k == 0 {
      assert x == 1;
      if i > 0 { BitOfZero(i - 1); }
    } else {
      TopBit(x / 2, k - 1, i - 1);
    }
  }

  /** A word whose bits are exactly the first k. */
  lemma {:induction false} AllOnes(x: nat, k: nat)
    requires forall i: nat :: Bit(x, i) <==> i < k
    ensures x == Pow2(k) - 1
    decreases k
  {
    assert Bit(x, 0) <==> 0 < k;
    if k == 0 {
      if x > 0 {
        TopBit(x, Log2(x), Log2(x));
        assert false;
      }
    } else {
      forall i: nat ensures Bit(x / 2, i) <==> i < k - 1 {
        assert Bit(x, i + 1) <==> i + 1 < k;
      }
      AllOnes(x / 2, k - 1);
    }
  }

  // ---- round_pow_two ----

  /** Every bit of `x` is set that has a bit of `n` less than `w` places above it. */
  ghost predicate Smeared(n: nat, w: nat, x: nat) {
    forall i: nat :: Bit(x, i) <==> SetAbove(n, i, w)
  }

  ghost predicate SetAbove(n: nat, i: nat, w: nat) {
    exists j :: i <= j < i + w && Bit(n, j)
  }

  /** n |= n >> w */
  method Smear(n: nat, w: nat, ghost n0: nat) returns (x: nat)
    requires Smeared(n0, w, n)
    ensures Smeared(n0, 2 * w, x)
  {
    x := Or(n, Shr(n, w));
    forall i: nat ensures Bit(x, i) <==> SetAbove(n0, i, 2 * w) {
      BitOfOr(n, Shr(n, w), i);
      BitOfShr(n, w, i);
      assert Bit(n, i) <==> SetAbove(n0, i, w);
      assert Bit(n, i + w) <==> SetAbove(n0, i + w, w);
    }
  }

  lemma SmearedTop(n: nat, w: nat, x: nat, k: nat)
    requires Pow2(k) <= n < Pow2(k + 1) && k < w && Smeared(n, w, x)
    ensures x == Pow2(k + 1) - 1
  {
    forall i: nat ensures Bit(x, i) <==> i < k + 1 {
      assert Bit(x, i) <==> SetAbove(n, i, w);
      TopBit(n, k, k);
      forall j | j > k ensures !Bit(n, j) { TopBit(n, k, j); }
    }
    AllOnes(x, k + 1);
  }

  const MAX_SHIFT_64: nat := 63
  const MAX_SHIFT_32: nat := 31

  /** MAX_POW_TWO */
  function MaxShift(arch64: bool): nat { if arch64 then MAX_SHIFT_64 else MAX_SHIFT_32 }

  function MaxPowTwo(arch64: bool): nat { Pow2(MaxShift(arch64)) }

  /** 2^63 with 64-bit words, 2^31 with 32-bit ones. */
  lemma LargestPower()
    ensures MaxPowTwo(true) == 0x8000_0000_0000_0000 && MaxPowTwo(false) == 0x8000_0000
  {
    assert Pow2(7) == 128 && Pow2(8) == 256;
    PowSum(8, 8);
    PowSum(8, 7);
    PowSum(16, 15);
    PowSum(16, 16);
    PowSum(31, 32);
  }

  lemma {:induction false} PowSum(a: nat, b: nat)
    ensures Pow2(a + b) == Pow2(a) * Pow2(b)
  {
    if b > 0 { PowSum(a, b - 1); }
  }

  ghost predicate LegalCapacity(cap: nat, arch64: bool) {
    cap <= MaxPowTwo(arch64) && exists k: nat :: cap == Pow2(k)
  }

  /** `r` is a power of two, not below `n`, and no smaller one is. */
  ghost predicate LeastPower(n: nat, r: nat) {
    n <= r && exists k: nat :: r == Pow2(k) && (k > 0 ==> Pow2(k - 1) < n)
  }

  lemma LeastPowerIsLeast(n: nat, r: nat, j: nat)
    requires LeastPower(n, r) && n <= Pow2(j)
    ensures r <= Pow2(j)
  {
    var k: nat :| r == Pow2(k) && (k > 0 ==> Pow2(k - 1) < n);
    if j < k { Pow2Monotone(j, k - 1); } else { Pow2Monotone(k, j); }
  }

  lemma SmearedIsPower(m: nat, x: nat, e: nat)
    requires m < Pow2(e) && Smeared(m, e + 1, x)
    ensures LeastPower(m + 1, x + 1) && x + 1 <= Pow2(e)
  {
    if m == 0 {
      forall i: nat ensures Bit(x, i) <==> i < 0 {
        assert Bit(x, i) <==> SetAbove(m, i, e + 1);
        forall j: nat ensures !Bit(m, j) { BitOfZero(j); }
      }
      AllOnes(x, 0);
      assert 1 == Pow2(0);
    } else {
      var k := Log2(m);
      if k >= e { Pow2Monotone(e, k); }
      SmearedTop(m, e + 1, x, k);
      Pow2Monotone(k + 1, e);
    }
  }

  lemma SmearedStart(n: nat)
    ensures Smeared(n, 1, n)
  {
  }

  /** round_pow_two: the least power of two not below the argument, up to the largest there is. */
  method RoundPowTwo(n0: nat, arch64: bool) returns (r: nat)
    ensures n0 >= MaxPowTwo(arch64) ==> r == MaxPowTwo(arch64)
    ensures n0 < MaxPowTwo(arch64) ==> LeastPower(n0, r)
    ensures LegalCapacity(r, arch64)
  {
    if n0 >= MaxPowTwo(arch64) { return MaxPowTwo(arch64); }
    if n0 == 0 {
      assert 1 == Pow2(0);
      return 1;
    }
    var n := SmearAll(n0 - 1, arch64);
    SmearedIsPower(n0 - 1, n, MaxShift(arch64));
    r := n + 1;
  }

  /** Its or-and-shift steps. */
  method SmearAll(n0: nat, arch64: bool) returns (n: nat)
    ensures Smeared(n0, MaxShift(arch64) + 1, n)
  {
    n := n0;
    SmearedStart(n);
    n := Smear(n, 1, n0);
    n := Smear(n, 2, n0);
    n := Smear(n, 4, n0);
    n := Smear(n, 8, n0);
    n := Smear(n, 16, n0);
    if arch64 { n := Smear(n, 32, n0); }
  }
}
