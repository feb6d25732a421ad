/** Bit fields of a machine word: `read_bits` and `write_bits` of os/src/volatile.rs. */
module BitField {
  import opened Common
  import opened BitMath

  /** `(v >> shift) & ((1 << width) - 1)` */
  function ReadBits(v: nat, shift: nat, width: nat): nat {
    v / Pow2(shift) % Pow2(width)
  }

  /** `(value << shift) | (v & !mask)`, an error if `value` has bits outside the field. */
  function WriteBits(v: nat, shift: nat, width: nat, value: nat): Result<nat> {
    if value >= Pow2(width) then Err
    else Ok(v / Pow2(shift + width) * Pow2(shift + width) + value * Pow2(shift) + v % Pow2(shift))
  }

  lemma DivMulMod(v: nat, m: nat)
    requires m > 0
    ensures v == v / m * m + v % m && v % m < m
  {
  }

  /** Dropping low bits in two steps. */
  lemma DivDiv(v: nat, a: nat, b: nat)
    requires a > 0 && b > 0
    ensures a * b > 0 && v / (a * b) == v / a / b
    ensures v % (a * b) == v / a % b * a + v % a
  {
    var q, r := v / a, v % a;
    var h, l := q / b, q % b;
    DivMulMod(v, a);
    DivMulMod(q, b);
    Regroup(h, l, r, a, b);
    PairBelow(l, r, a, b);
    DivModUnique(v, a * b, h, l * a + r);
  }

  lemma Regroup(h: nat, l: nat, r: nat, a: nat, b: nat)
    ensures (h * b + l) * a + r == h * (a * b) + (l * a + r)
  {
  }

  lemma PairBelow(l: nat, r: nat, a: nat, b: nat)
    requires l < b && r < a
    ensures l * a + r < a * b
  {
    assert (l + 1) * a <= b * a;
  }

  lemma AssembleNum(hi: nat, x: nat, lo: nat, a: nat, b: nat)
    requires x < b && lo < a
    ensures a * b > 0
    ensures var v := hi * (a * b) + x * a + lo; v / (a * b) == hi && v / a % b == x && v % a == lo
  {
    var v := hi * (a * b) + x * a + lo;
    assert hi * (a * b) == hi * b * a;
    assert v == (hi * b + x) * a + lo;
    DivModUnique(v, a, hi * b + x, lo);
    DivModUnique(hi * b + x, b, hi, x);
    DivDiv(v, a, b);
  }

  lemma Assemble(hi: nat, x: nat, lo: nat, shift: nat, width: nat)
    requires x < Pow2(width) && lo < Pow2(shift)
    ensures var v := hi * Pow2(shift + width) + x * Pow2(shift) + lo;
            v / Pow2(shift + width) == hi && ReadBits(v, shift, width) == x && v % Pow2(shift) == lo
  {
    Pow2Sum(shift, width);
    AssembleNum(hi, x, lo, Pow2(shift), Pow2(width));
  }

  /** A written field reads back, and the bits above and below it are kept. */
  lemma WriteThenRead(v: nat, shift: nat, width: nat, value: nat)
    ensures WriteBits(v, shift, width, value).Ok? <==> value < Pow2(width)
    ensures value < Pow2(width) ==>
              var w := WriteBits(v, shift, width, value).value;
              && ReadBits(w, shift, width) == value
              && w / Pow2(shift + width) == v / Pow2(shift + width)
              && w % Pow2(shift) == v % Pow2(shift)
  {
    if value < Pow2(width) {
      Assemble(v / Pow2(shift + width), value, v % Pow2(shift), shift, width);
    }
  }

  /** Two words that agree on the bits from `at` on agree on every field there. */
  lemma HighFieldSame(v: nat, w: nat, at: nat, shift: nat, width: nat)
    requires v / Pow2(at) == w / Pow2(at) && at <= shift
    ensures ReadBits(v, shift, width) == ReadBits(w, shift, width)
  {
    Pow2Sum(at, shift - at);
    DivDiv(v, Pow2(at), Pow2(shift - at));
    DivDiv(w, Pow2(at), Pow2(shift - at));
  }

  /** Two words that agree on the bits below `at` agree on every field there. */
  lemma LowFieldSame(v: nat, w: nat, at: nat, shift: nat, width: nat)
    requires v % Pow2(at) == w % Pow2(at) && shift + width <= at
    ensures ReadBits(v, shift, width) == ReadBits(w, shift, width)
  {
    LowField(v, at, shift, width);
    LowField(w, at, shift, width);
  }

  lemma ModMod(q: nat, b: nat, c: nat)
    requires b > 0 && c > 0
    ensures b * c > 0 && q % (b * c) % b == q % b
  {
    DivDiv(q, b, c);
    DivModUnique(q % (b * c), b, q / b % c, q % b);
  }

  lemma LowFieldNum(v: nat, a: nat, b: nat, c: nat)
    requires a > 0 && b > 0 && c > 0
    ensures b * c > 0 && a * (b * c) > 0 && v % (a * (b * c)) / a % b == v / a % b
  {
    var bc := b * c;
    assert bc > 0;
    DivDiv(v, a, bc);
    DivModUnique(v % (a * bc), a, v / a % bc, v % a);
    ModMod(v / a, b, c);
  }

  lemma LowField(v: nat, at: nat, shift: nat, width: nat)
    requires shift + width <= at
    ensures ReadBits(v, shift, width) == ReadBits(v % Pow2(at), shift, width)
  {
    Pow2Sum(width, at - shift - width);
    Pow2Sum(shift, at - shift);
    LowFieldNum(v, Pow2(shift), Pow2(width), Pow2(at - shift - width));
  }

  /** Writing one field leaves every disjoint field alone. */
  lemma WriteFrame(v: nat, shift: nat, width: nat, value: nat, shift': nat, width': nat)
    requires value < Pow2(width)
    requires shift' >= shift + width || shift' + width' <= shift
    ensures ReadBits(WriteBits(v, shift, width, value).value, shift', width') == ReadBits(v, shift', width')
  {
    WriteThenRead(v, shift, width, value);
    var w := WriteBits(v, shift, width, value).value;
    if shift' >= shift + width {
      HighFieldSame(w, v, shift + width, shift', width');
    } else {
      LowFieldSame(w, v, shift, shift', width');
    }
  }

  /** A write does not leave the word: a field inside `size` bits keeps the value below 2^size. */
  lemma WriteInWord(v: nat, shift: nat, width: nat, value: nat, size: nat)
    requires v < Pow2(size) && shift + width <= size && value < Pow2(width)
    ensures WriteBits(v, shift, width, value).value < Pow2(size)
  {
    Pow2Sum(shift + width, size - shift - width);
    Pow2Sum(shift, width);
    InWordNum(v, value, Pow2(shift), Pow2(width), Pow2(size - shift - width));
  }

  lemma InWordNum(v: nat, value: nat, a: nat, b: nat, c: nat)
    requires a > 0 && b > 0 && v < a * b * c && value < b
    ensures a * b > 0 && v / (a * b) * (a * b) + value * a + v % a < a * b * c
  {
    var m := a * b;
    assert m > 0;
    DivBelow(v, m, c);
    Bounded(v / m, value, v % a, a, b, c);
  }

  lemma DivBelow(v: nat, m: nat, c: nat)
    requires m > 0 && v < m * c
    ensures v / m < c
  {
    DivMulMod(v, m);
  }

  lemma Bounded(hi: nat, x: nat, lo: nat, a: nat, b: nat, c: nat)
    requires hi < c && x < b && lo < a
    ensures hi * (a * b) + x * a + lo < a * b * c
  {
    assert x * a + lo < a * b by {
      assert (x + 1) * a <= b * a;
    }
    assert (hi + 1) * (a * b) <= c * (a * b);
  }
}
