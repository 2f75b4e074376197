/** Python's bit operators on non-negative integers, which the flags word
    of a DNS header is built from. Python integers are unbounded, so these
    are defined on `nat` and never wrap. */
module Bits {

  function Pow2(n: nat): (p: nat)
    ensures p >= 1
  {
    if n == 0 then 1 else 2 * Pow2(n - 1)
  }

  /** Python's `x << n`: never smaller than `x`, and with bit 0 clear
      once the shift is at least one. */
  function ShiftLeft(x: nat, n: nat): (r: nat)
    ensures x <= r
    ensures n > 0 ==> r % 2 == 0
  {
    ScaledByPow2(x, n);
    x * Pow2(n)
  }

  /** Multiplying by a power of two keeps the value or grows it, and a
      positive power makes it even. */
  lemma ScaledByPow2(x: nat, n: nat)
    ensures x <= x * Pow2(n)
    ensures n > 0 ==> (x * Pow2(n)) % 2 == 0
  {
    MulAtLeast(Pow2(n), x);
    if n > 0 {
      assert x * Pow2(n) == 2 * (x * Pow2(n - 1));
    }
  }

  /** Python's `x | y`, computed from the least significant bit upwards.
      The result covers both operands, is at most their sum, and has bit 0
      set exactly when one of them does. */
  function Or(x: nat, y: nat): (r: nat)
    ensures x <= r && y <= r && r <= x + y
    ensures r % 2 == (if x % 2 == 1 || y % 2 == 1 then 1 else 0)
    decreases x + y
  {
    if x == 0 then y
    else if y == 0 then x
    else
      OrStepBounds(x, y, Or(x / 2, y / 2));
      2 * Or(x / 2, y / 2) + (if x % 2 == 1 || y % 2 == 1 then 1 else 0)
  }

  /** One step of `Or` keeps the bounds: if the high bits `q` lie between
      the larger and the sum of the operands' high bits, then so does the
      whole result between the operands and their sum. */
  lemma OrStepBounds(x: nat, y: nat, q: nat)
    requires x / 2 <= q && y / 2 <= q && q <= x / 2 + y / 2
    ensures x <= 2 * q + (if x % 2 == 1 || y % 2 == 1 then 1 else 0)
    ensures y <= 2 * q + (if x % 2 == 1 || y % 2 == 1 then 1 else 0)
    ensures 2 * q + (if x % 2 == 1 || y % 2 == 1 then 1 else 0) <= x + y
    ensures (2 * q + (if x % 2 == 1 || y % 2 == 1 then 1 else 0)) % 2
            == (if x % 2 == 1 || y % 2 == 1 then 1 else 0)
  {
  }

  /** Python's `(x >> lo) & (2 ** width - 1)`: the `width`-bit field of `x`
      whose lowest bit is bit `lo`. */
  function Field(x: nat, lo: nat, width: nat): (f: nat)
    ensures f < Pow2(width)
  {
    (x / Pow2(lo)) % Pow2(width)
  }

  /** The recursive step of `Or` also holds when an operand is zero. */
  lemma OrUnfold(x: nat, y: nat)
    ensures Or(x, y) == 2 * Or(x / 2, y / 2) + (if x % 2 == 1 || y % 2 == 1 then 1 else 0)
  {
  }

  /** Zero is the identity of `|`. */
  lemma {:induction false} OrZero(x: nat)
    ensures Or(x, 0) == x && Or(0, x) == x
    decreases x
  {
    if x != 0 {
      OrZero(x / 2);
    }
  }

  lemma {:induction false} OrComm(x: nat, y: nat)
    ensures Or(x, y) == Or(y, x)
    decreases x + y
  {
    if x != 0 || y != 0 {
      OrComm(x / 2, y / 2);
    }
  }

  /** `Or` read off by halves: the high bits are the `Or` of the high
      bits, the low bit is set when either low bit is. */
  lemma OrHalf(x: nat, y: nat)
    ensures Or(x, y) / 2 == Or(x / 2, y / 2)
    ensures Or(x, y) % 2 == (if x % 2 == 1 || y % 2 == 1 then 1 else 0)
  {
    OrUnfold(x, y);
  }

  lemma {:induction false} OrAssoc(x: nat, y: nat, z: nat)
    ensures Or(Or(x, y), z) == Or(x, Or(y, z))
    decreases x + y + z
  {
    if x != 0 && y != 0 && z != 0 {
      OrHalf(x, y);
      OrHalf(y, z);
      OrHalf(Or(x, y), z);
      OrHalf(x, Or(y, z));
      OrAssoc(x / 2, y / 2, z / 2);
    }
  }

  /** The last two operands of a chain of `|` may change places. */
  lemma OrSwap(p: nat, x: nat, y: nat)
    ensures Or(Or(p, x), y) == Or(Or(p, y), x)
  {
    calc {
      Or(Or(p, x), y);
      { OrAssoc(p, x, y); }
      Or(p, Or(x, y));
      { OrComm(x, y); }
      Or(p, Or(y, x));
      { OrAssoc(p, y, x); }
      Or(Or(p, y), x);
    }
  }

  /** Or-ing a multiple of 2^k with a value below 2^k adds them: the two
      operands have no bit in common. */
  lemma {:induction false} OrAddMultiple(m: nat, y: nat, k: nat)
    requires y < Pow2(k)
    ensures Or(m * Pow2(k), y) == m * Pow2(k) + y
    decreases k
  {
    if k == 0 {
      OrZero(m);
    } else {
      var h := m * Pow2(k - 1);
      assert m * Pow2(k) == 2 * h;
      OrUnfold(2 * h, y);
      OrAddMultiple(m, y / 2, k - 1);
    }
  }

  /** Or-ing with 1 sets bit 0 and leaves every other bit alone. */
  lemma OrOne(x: nat)
    ensures Or(x, 1) == x + 1 - x % 2
  {
    OrUnfold(x, 1);
    OrZero(x / 2);
  }

  lemma {:induction false} MulAtLeast(a: nat, d: nat)
    requires a >= 1
    ensures a * d >= d && d * a >= d
  {
    if a > 1 {
      MulAtLeast(a - 1, d);
      assert a * d == (a - 1) * d + d;
    }
  }

  /** Dividing `q * d + r` by `d` gives `q` back when `0 <= r < d`. */
  lemma DivAdd(q: nat, d: nat, r: nat)
    requires 0 <= r < d
    ensures (q * d + r) / d == q && (q * d + r) % d == r
  {
    var x := q * d + r;
    var q', r' := x / d, x % d;
    assert x == q' * d + r';
    if q' < q {
      assert (q - q') * d == r' - r;
      MulAtLeast(q - q', d);
      assert false;
    } else if q' > q {
      assert (q' - q) * d == r - r';
      MulAtLeast(q' - q, d);
      assert false;
    }
  }

  /** The field of width `w` at bit `lo` of a number laid out as `hi`
      above the field, `f` in it and `low` below it, is `f`. */
  lemma FieldOf(hi: nat, f: nat, low: nat, lo: nat, w: nat)
    requires f < Pow2(w) && low < Pow2(lo)
    ensures Field((hi * Pow2(w) + f) * Pow2(lo) + low, lo, w) == f
  {
    DivAdd(hi * Pow2(w) + f, Pow2(lo), low);
    DivAdd(hi, Pow2(w), f);
  }

  /** `OrAddMultiple` with the multiple named. */
  lemma OrAt(x: nat, m: nat, y: nat, k: nat)
    requires x == m * Pow2(k) && y < Pow2(k)
    ensures Or(x, y) == x + y
  {
    OrAddMultiple(m, y, k);
  }

  /** `FieldOf` with the number named. */
  lemma FieldAt(x: nat, hi: nat, f: nat, low: nat, lo: nat, w: nat)
    requires x == (hi * Pow2(w) + f) * Pow2(lo) + low
    requires f < Pow2(w) && low < Pow2(lo)
    ensures Field(x, lo, w) == f
  {
    FieldOf(hi, f, low, lo, w);
  }

  /** Or-ing `2 * k + bit` with 1 sets the low bit. */
  lemma OrOneAt(y: nat, k: nat, bit: nat)
    requires bit < 2 && y == 2 * k + bit
    ensures Or(y, 1) == 2 * k + 1
  {
    DivAdd(k, 2, bit);
    OrOne(y);
  }
}
