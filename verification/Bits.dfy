/** The 32-bit arithmetic of internal/freelru, on naturals below 2^32. */
module Bits {
  const TWO32: nat := 0x1_0000_0000

  type uint32 = x: nat | x < TWO32

  function Pow2(k: nat): nat {
    if k == 0 then 1 else 2 * Pow2(k - 1)
  }

  /** bits.OnesCount32 */
  function OnesCount(x: nat): nat {
    if x == 0 then 0 else x % 2 + OnesCount(x / 2)
  }

  /** bits.Len32 */
  function Len(x: nat): nat {
    if x == 0 then 0 else 1 + Len(x / 2)
  }

  /** The & operator. */
  function And(x: nat, y: nat): nat {
    if x == 0 || y == 0 then 0 else 2 * And(x / 2, y / 2) + if x % 2 == 1 && y % 2 == 1 then 1 else 0
  }

  /** A shift of 1 by 32 places is cut off to 0. */
  function NextPowerOfTwo(val: uint32): uint32 {
    if OnesCount(val) != 1 then Pow2(Len(val)) % TWO32 else val
  }

  /** uint32((uint64(x) * uint64(n)) >> 32); the product of two 32-bit numbers fits 64 bits. */
  function FastRange(x: uint32, n: uint32): nat {
    x * n / TWO32
  }

  ghost predicate IsPow2(x: nat) {
    exists k: nat :: Pow2(k) == x
  }

  lemma {:induction false} OnesCountZero(x: nat)
    ensures OnesCount(x) == 0 <==> x == 0
  {
    if x != 0 {
      OnesCountZero(x / 2);
    }
  }

  /** The population count test finds exactly the powers of two. */
  lemma {:induction false} OnesCountOne(x: nat)
    ensures OnesCount(x) == 1 <==> IsPow2(x)
  {
    if x == 0 {
      Pow2Positive();
    } else {
      OnesCountOne(x / 2);
      OnesCountZero(x / 2);
      if x % 2 == 1 {
        if OnesCount(x) == 1 {
          assert Pow2(0) == x;
        }
        if IsPow2(x) {
          var k: nat :| Pow2(k) == x;
          assert k == 0;
        }
      } else {
        if IsPow2(x / 2) {
          var k: nat :| Pow2(k) == x / 2;
          assert Pow2(k + 1) == x;
        }
        if IsPow2(x) {
          var k: nat :| Pow2(k) == x;
          assert Pow2(k - 1) == x / 2;
        }
      }
    }
  }

  lemma Pow2Positive()
    ensures forall k: nat :: Pow2(k) > 0
  {
    forall k: nat ensures Pow2(k) > 0 {
      Pow2Of(k);
    }
  }

  lemma {:induction false} Pow2Of(k: nat)
    ensures Pow2(k) > 0
  {
    if k > 0 {
      Pow2Of(k - 1);
    }
  }

  lemma {:induction false} LenBounds(x: nat)
    requires x > 0
    ensures Len(x) > 0 && Pow2(Len(x) - 1) <= x < Pow2(Len(x))
  {
    if x > 1 {
      LenBounds(x / 2);
    }
  }

  lemma {:induction false} Pow2Monotone(j: nat, k: nat)
    requires j <= k
    ensures 0 < Pow2(j) <= Pow2(k) && Pow2(k) % Pow2(j) == 0
    decreases k
  {
    Pow2Of(j);
    if j < k {
      Pow2Monotone(j, k - 1);
      var q := Pow2(k - 1) / Pow2(j);
      assert Pow2(k - 1) == q * Pow2(j);
      assert Pow2(k) == (2 * q) * Pow2(j);
      MultipleModulo(2 * q, Pow2(j));
    }
  }

  lemma MultipleModulo(q: nat, d: nat)
    requires d > 0
    ensures (q * d) % d == 0 && (q * d) / d == q
  {
    DivModUnique(q * d, d, q, 0);
  }

  lemma ScaledOrder(a: nat, b: nat, d: nat)
    ensures a <= b ==> a * d <= b * d
  {
  }

  lemma DivModUnique(x: nat, d: nat, q: nat, r: nat)
    requires d > 0 && x == q * d + r && r < d
    ensures x / d == q && x % d == r
  {
    var q', r' := x / d, x % d;
    assert x == q' * d + r';
    ScaledOrder(q' + 1, q, d);
    ScaledOrder(q + 1, q', d);
  }

  lemma Pow32()
    ensures Pow2(32) == TWO32 && Pow2(31) == 0x8000_0000
  {
    assert Pow2(8) == 256;
    assert Pow2(16) == 65536;
    assert Pow2(24) == 0x100_0000;
    assert Pow2(31) == 0x8000_0000;
  }

  lemma Pow2Order(j: nat, k: nat)
    ensures j < k ==> 2 * Pow2(j) <= Pow2(k)
    ensures Pow2(j) < Pow2(k) ==> j < k
  {
    if j < k {
      Pow2Monotone(j, k - 1);
    } else {
      Pow2Monotone(k, j);
    }
  }

  lemma LeastPow2Above(x: nat)
    requires x > 0
    ensures x < Pow2(Len(x))
    ensures !IsPow2(x) ==> forall p :: IsPow2(p) && x <= p ==> Pow2(Len(x)) <= p
  {
    LenBounds(x);
    var k := Len(x);
    forall p | !IsPow2(x) && IsPow2(p) && x <= p ensures Pow2(k) <= p {
      var m: nat :| Pow2(m) == p;
      assert Pow2(k - 1) != x;
      Pow2Order(k - 1, m);
      Pow2Monotone(k, if m < k then k else m);
    }
  }

  /** Below 2^31 the next power has an exponent of at most 31, above it is 2^32. */
  lemma LenOfUint32(x: uint32)
    requires x > 0 && x != 0x8000_0000
    ensures if x < 0x8000_0000 then Pow2(Len(x)) <= 0x8000_0000 else Pow2(Len(x)) == TWO32
  {
    Pow32();
    LenBounds(x);
    var k := Len(x);
    Pow2Order(k - 1, 31);
    Pow2Order(k - 1, 32);
    if x < 0x8000_0000 {
      Pow2Monotone(k, 31);
    } else {
      Pow2Order(31, k);
    }
  }

  lemma TopPower()
    ensures IsPow2(0x8000_0000)
  {
    Pow32();
  }

  lemma PowerOfUint32(m: nat)
    requires Pow2(m) < TWO32
    ensures Pow2(m) <= 0x8000_0000
  {
    Pow32();
    Pow2Order(31, m);
  }

  /** The least power of two that is at least val, unless that is 2^32. */
  lemma NextPowerOfTwoIsLeast(val: uint32)
    ensures var r := NextPowerOfTwo(val);
            if val <= 0x8000_0000 then
              IsPow2(r) && val <= r && r <= 0x8000_0000 && forall p :: IsPow2(p) && val <= p ==> r <= p
            else r == 0
  {
    OnesCountOne(val);
    if val == 0 {
      assert NextPowerOfTwo(val) == Pow2(0) == 1;
      Pow2Positive();
    } else if OnesCount(val) == 1 {
      var m: nat :| Pow2(m) == val;
      PowerOfUint32(m);
    } else {
      TopPower();
      LeastPow2Above(val);
      LenOfUint32(val);
    }
  }

  lemma {:induction false} AndBound(x: nat, y: nat)
    ensures And(x, y) <= x && And(x, y) <= y
  {
    if x != 0 && y != 0 {
      AndBound(x / 2, y / 2);
    }
  }

  /** Masking with 2^k - 1 is the remainder modulo 2^k. */
  lemma {:induction false} MaskIsModulo(x: nat, k: nat)
    ensures Pow2(k) > 0 && And(x, Pow2(k) - 1) == x % Pow2(k)
  {
    Pow2Of(k);
    if k > 0 && x != 0 {
      MaskIsModulo(x / 2, k - 1);
      var p := Pow2(k - 1);
      Pow2Of(k - 1);
      HalveModulo(x, p);
      AndOfMask(x, p);
    }
  }

  lemma AndOfMask(x: nat, p: nat)
    requires p > 0
    ensures And(x, 2 * p - 1) == 2 * And(x / 2, p - 1) + x % 2
  {
    assert (2 * p - 1) / 2 == p - 1 && (2 * p - 1) % 2 == 1;
  }

  lemma HalveModulo(x: nat, p: nat)
    requires p > 0
    ensures x % (2 * p) == 2 * ((x / 2) % p) + x % 2
  {
    var h := x / 2;
    var q, r := h / p, h % p;
    assert h == q * p + r;
    assert x == 2 * h + x % 2;
    assert q * (2 * p) == 2 * (q * p);
    DivModUnique(x, 2 * p, q, 2 * r + x % 2);
  }

  lemma QuotientBelow(p: nat, n: nat)
    requires p < n * TWO32
    ensures p / TWO32 < n
  {
  }

  /** Lemire's reduction always selects one of n positions. */
  lemma FastRangeBound(x: uint32, n: uint32)
    requires n > 0
    ensures FastRange(x, n) < n
  {
    ScaledOrder(x + 1, TWO32, n);
    assert (x + 1) * n == x * n + n;
    QuotientBelow(x * n, n);
  }
}
