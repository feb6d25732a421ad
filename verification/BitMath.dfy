/** Powers of two on 64-bit words: os/src/util.rs and the alignment masks of its callers. */
module BitMath {
  import opened Common

  function Pow2(k: nat): (p: nat)
    ensures p >= 1
  {
    if k == 0 then 1 else 2 * Pow2(k - 1)
  }

  ghost predicate IsPow2(n: nat) {
    exists k: nat :: n == Pow2(k)
  }

  /** Number of significant bits; `64 - BitLength(v)` is `leading_zeros` of a 64-bit `v`. */
  function BitLength(v: nat): nat {
    if v == 0 then 0 else 1 + BitLength(v / 2)
  }

  /** `round_up_to_nearest_pow2`: a shift by 64 or more is the error case of `checked_shl`. */
  function RoundUpToNearestPow2(v: nat): Result<nat>
    requires v < U64
  {
    var leadingZeros := 64 - BitLength((v + U64 - 1) % U64);
    var shift := 64 - leadingZeros;
    if shift < 0 || shift >= 64 then Err else Ok(Pow2(shift))
  }

  /** `x & !mask` on the bits of `x`. */
  function ClearBits(x: nat, mask: nat): nat {
    if x == 0 then 0 else 2 * ClearBits(x / 2, mask / 2) + if mask % 2 == 1 then 0 else x % 2
  }

  /** The greatest multiple of `align` not above `x`. */
  function AlignDown(x: nat, align: nat): (r: nat)
    requires align > 0
    ensures r % align == 0 && r <= x < r + align
  {
    assert x == x / align * align + x % align;
    MulMod(x / align, align);
    x / align * align
  }

  /** Clearing the bits below a power of two aligns down to it. */
  lemma {:induction false} ClearLowBits(x: nat, k: nat)
    ensures ClearBits(x, Pow2(k) - 1) == AlignDown(x, Pow2(k))
    decreases k
  {
    if k == 0 {
      ClearNoBits(x);
    } else {
      ClearLowBits(x / 2, k - 1);
      ClearNext(x, Pow2(k - 1));
    }
  }

  lemma ClearNext(x: nat, p: nat)
    requires p > 0 && ClearBits(x / 2, p - 1) == AlignDown(x / 2, p)
    ensures ClearBits(x, 2 * p - 1) == AlignDown(x, 2 * p)
  {
    HalfDown(x, p);
    ClearOddMask(x, p);
  }

  lemma ClearOddMask(x: nat, p: nat)
    requires p > 0
    ensures ClearBits(x, 2 * p - 1) == 2 * ClearBits(x / 2, p - 1)
  {
    assert (2 * p - 1) / 2 == p - 1 && (2 * p - 1) % 2 == 1;
  }

  lemma {:induction false} ClearNoBits(x: nat)
    ensures ClearBits(x, 0) == x
  {
    if x > 0 {
      ClearNoBits(x / 2);
    }
  }

  lemma HalfDown(x: nat, p: nat)
    requires p > 0
    ensures AlignDown(x, 2 * p) == 2 * AlignDown(x / 2, p)
  {
    var q, r := x / 2 / p, x / 2 % p;
    assert x / 2 == q * p + r;
    assert x == q * (2 * p) + (2 * r + x % 2);
    DivModUnique(x, 2 * p, q, 2 * r + x % 2);
    assert q * (2 * p) == 2 * (q * p);
  }

  lemma {:induction false} ClearBitsBelow(x: nat, mask: nat)
    ensures ClearBits(x, mask) <= x
  {
    if x > 0 {
      ClearBitsBelow(x / 2, mask / 2);
    }
  }

  lemma MulMod(q: nat, m: nat)
    requires m > 0
    ensures (q * m) % m == 0
  {
    if q > 0 {
      MulMod(q - 1, m);
      assert q * m == (q - 1) * m + m;
      ModAddSelf((q - 1) * m, m);
    }
  }

  lemma ModAddSelf(x: nat, m: nat)
    requires m > 0
    ensures (x + m) % m == x % m
  {
    var q, r := x / m, x % m;
    assert x + m == (q + 1) * m + r;
    DivModUnique(x + m, m, q + 1, r);
  }

  lemma DivModUnique(x: nat, m: nat, q: nat, r: nat)
    requires 0 <= r < m && x == q * m + r
    ensures x / m == q && x % m == r
  {
    var q', r' := x / m, x % m;
    assert x == q' * m + r';
    if q > q' {
      MulDistinct(q, q', m);
    } else if q < q' {
      MulDistinct(q', q, m);
    }
  }

  lemma AddMultiple(q: nat, m: nat, r: nat)
    requires m > 0
    ensures (q * m + r) % m == r % m
  {
    var k := r / m;
    assert r == k * m + r % m;
    assert q * m + r == (q + k) * m + r % m;
    DivModUnique(q * m + r, m, q + k, r % m);
  }

  lemma MulDistinct(a: nat, b: nat, m: nat)
    requires a > b
    ensures a * m >= b * m + m
  {
    assert a * m == b * m + (a - b) * m;
    assert (a - b - 1) * m >= 0;
  }

  lemma {:induction false} Pow2Monotone(j: nat, k: nat)
    requires j <= k
    ensures Pow2(j) <= Pow2(k)
    ensures Pow2(k) % Pow2(j) == 0
    decreases k
  {
    if j < k {
      Pow2Monotone(j, k - 1);
      var q := Pow2(k - 1) / Pow2(j);
      assert Pow2(k) == (2 * q) * Pow2(j);
      MulMod(2 * q, Pow2(j));
    } else {
      MulMod(1, Pow2(j));
    }
  }

  lemma {:induction false} BitLengthBounds(v: nat)
    ensures v < Pow2(BitLength(v))
    ensures v > 0 ==> Pow2(BitLength(v) - 1) <= v
  {
    if v > 0 {
      BitLengthBounds(v / 2);
      if v >= 2 {
        assert Pow2(BitLength(v) - 1) == 2 * Pow2(BitLength(v / 2) - 1);
      }
    }
  }

  lemma {:induction false} Pow2Injective(j: nat, k: nat)
    requires Pow2(j) < Pow2(k)
    ensures j < k
  {
    if k <= j {
      Pow2Monotone(k, j);
    }
  }

  lemma {:induction false} Pow2Of64()
    ensures Pow2(63) * 2 == U64 == Pow2(64)
  {
    assert Pow2(4) == 16;
    assert Pow2(8) == 256 by { Pow2Sum(4, 4); }
    assert Pow2(16) == 0x1_0000 by { Pow2Sum(8, 8); }
    assert Pow2(32) == 0x1_0000_0000 by { Pow2Sum(16, 16); }
    assert Pow2(64) == U64 by { Pow2Sum(32, 32); }
  }

  lemma {:induction false} Pow2Sum(j: nat, k: nat)
    ensures Pow2(j + k) == Pow2(j) * Pow2(k)
  {
    if k > 0 {
      Pow2Sum(j, k - 1);
      assert Pow2(j + k) == 2 * (Pow2(j) * Pow2(k - 1)) == Pow2(j) * (2 * Pow2(k - 1));
    }
  }

  /** The result is the least power of two not below `v`; zero and values above 2^63 are the
      only errors. */
  lemma RoundUpIsLeastPow2(v: nat)
    requires v < U64
    ensures RoundUpToNearestPow2(v).Err? <==> v == 0 || v > Pow2(63)
    ensures RoundUpToNearestPow2(v).Ok? ==>
              var p := RoundUpToNearestPow2(v).value;
              IsPow2(p) && v <= p && forall k: nat :: v <= Pow2(k) ==> p <= Pow2(k)
  {
    var x := (v + U64 - 1) % U64;
    assert x == if v == 0 then U64 - 1 else v - 1;
    var n := BitLength(x);
    BitLengthBounds(x);
    Pow2Of64();
    if x >= Pow2(63) {
      Pow2Injective(63, n);
    } else if n > 63 {
      Pow2Monotone(63, n - 1);
    }
    if v > 0 {
      forall k: nat | v <= Pow2(k)
        ensures Pow2(n) <= Pow2(k)
      {
        if n > 0 {
          Pow2Injective(n - 1, k);
        }
        Pow2Monotone(n, k);
      }
    }
  }

  /** A power of two that is at least `Pow2(j)` is a multiple of it. */
  lemma LargePow2IsMultiple(p: nat, j: nat)
    requires IsPow2(p) && p >= Pow2(j)
    ensures p % Pow2(j) == 0
  {
    var k: nat :| p == Pow2(k);
    if k < j {
      Pow2Monotone(k, j);
    }
    if j <= k {
      Pow2Monotone(j, k);
    }
  }

  lemma MultipleOfMultiple(x: nat, m: nat, d: nat)
    requires m > 0 && d > 0 && x % m == 0 && m % d == 0
    ensures x % d == 0
  {
    var a, b := x / m, m / d;
    assert x == a * (b * d) == (a * b) * d;
    MulMod(a * b, d);
  }

  lemma MultipleSum(x: nat, y: nat, m: nat)
    requires m > 0 && x % m == 0 && y % m == 0
    ensures (x + y) % m == 0
  {
    var a, b := x / m, y / m;
    assert x + y == (a + b) * m;
    MulMod(a + b, m);
  }

  lemma MultipleDifference(x: nat, y: nat, m: nat)
    requires m > 0 && x % m == 0 && y % m == 0 && y <= x
    ensures (x - y) % m == 0
  {
    var a, b := x / m, y / m;
    assert x - y == (a - b) * m;
    MulMod(a - b, m);
  }

  /** Bit `d == 2^i` of a page-aligned number plus something below a page, for a bit below the page. */
  lemma PageBit(k: nat, c: nat, d: nat, h: nat)
    requires d > 0 && d * (2 * h) == 4096
    ensures (k * 4096 + c) / d % 2 == c / d % 2
  {
    var e, q := k * 4096 + c, c / d;
    assert c == q * d + c % d;
    assert k * 4096 == k * (2 * h) * d;
    assert e == (k * (2 * h) + q) * d + c % d;
    DivModUnique(e, d, k * (2 * h) + q, c % d);
    assert k * (2 * h) == k * h * 2;
    AddMultiple(k * h, 2, q);
  }

  /** The low bits of a page-aligned number plus something below a page. */
  lemma LowBits(k: nat, c: nat)
    requires c < 4096
    ensures var e := k * 4096 + c; e % 4096 == c && e % 2 == c % 2 && e / 2 % 2 == c / 2 % 2 && e / 4 % 2 == c / 4 % 2
  {
    var e := k * 4096 + c;
    DivModUnique(e, 4096, k, c);
    DivModUnique(e, 2, k * 2048 + c / 2, c % 2);
    DivModUnique(k * 2048 + c / 2, 2, k * 1024 + c / 2 / 2, c / 2 % 2);
    DivModUnique(e, 4, k * 1024 + c / 4, c % 4);
    DivModUnique(k * 1024 + c / 4, 2, k * 512 + c / 4 / 2, c / 4 % 2);
  }
}
