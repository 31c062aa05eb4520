/** Java's fixed-width integer types and the integer operators whose
    semantics differ from Dafny's unbounded, Euclidean ones. */
module JavaInt {

  /** Java `int`. */
  newtype int32 = x: int | -0x8000_0000 <= x < 0x8000_0000

  /** Java `byte` (signed). */
  newtype int8 = x: int | -0x80 <= x < 0x80

  /** `Integer.MIN_VALUE`. */
  const MinValue: int32 := -0x8000_0000

  predicate InInt32(x: int) {
    -0x8000_0000 <= x < 0x8000_0000
  }

  function Abs(x: int): nat {
    if x < 0 then -x else x
  }

  /** Java's `/` on `int`: the magnitude of the quotient is the quotient of
      the magnitudes, and its sign is the product of the operands' signs, so
      it is truncated toward zero. */
  function Div(a: int, b: int): (q: int)
    requires b != 0
    ensures Abs(q) == Abs(a) / Abs(b)
    ensures (a >= 0) == (b > 0) ==> q >= 0
    ensures (a >= 0) != (b > 0) ==> q <= 0
    ensures b > 0 && a >= 0 ==> q == a / b
  {
    var n, d := Abs(a), Abs(b);
    QuotientOfNatural(n, d);
    if (a < 0) == (b < 0) then n / d else -(n / d)
  }

  lemma QuotientOfNatural(n: nat, d: nat)
    requires d > 0
    ensures 0 <= n / d
  {
  }

  /** The 32-bit two's-complement pattern of `x`, read as an unsigned number. */
  function Unsigned32(x: int): (u: int)
    ensures 0 <= u < 0x1_0000_0000
    ensures (u - x) % 0x1_0000_0000 == 0
  {
    x % 0x1_0000_0000
  }

  /** Java's `int` arithmetic: the result of an operation is reduced to 32
      bits and read as a two's-complement number. */
  function Wrap32(x: int): (r: int32)
    ensures InInt32(x) ==> r as int == x
    ensures (r as int - x) % 0x1_0000_0000 == 0
  {
    var u := Unsigned32(x);
    if u < 0x8000_0000 then u as int32
    else
      CongruentShift(u - x);
      (u - 0x1_0000_0000) as int32
  }

  lemma CongruentShift(d: int)
    requires d % 0x1_0000_0000 == 0
    ensures (d - 0x1_0000_0000) % 0x1_0000_0000 == 0
  {
    var q := d / 0x1_0000_0000;
    assert d == q * 0x1_0000_0000;
    assert d - 0x1_0000_0000 == (q - 1) * 0x1_0000_0000;
  }

  lemma {:induction false} MulNonNegative(n: int, a: int)
    requires n >= 0
    ensures a >= 0 ==> n * a >= 0
    decreases if a > 0 then a else 0
  {
    if a > 0 {
      MulNonNegative(n, a - 1);
      assert n * a == n * (a - 1) + n;
    }
  }

  /** Dividing by `d` and then by `k` is dividing by `d * k`, for a
      non-negative dividend. */
  lemma NestedQuotient(x: nat, d: int, k: int)
    requires d > 0 && k > 0
    ensures (x / d) / k == x / (d * k)
  {
    var q, r := x / d, x % d;
    var q2, r2 := q / k, q % k;
    assert x == d * q + r;
    assert q == k * q2 + r2;
    assert d * q == (d * k) * q2 + d * r2;
    MulNonNegative(d, r2);
    MulNonNegative(d, k - 1 - r2);
    assert d * (k - 1 - r2) == d * k - d - d * r2;
    QuotientUnique(x, d * k, q2, d * r2 + r);
  }

  lemma QuotientUnique(x: int, n: int, q: int, r: int)
    requires n > 0 && x == n * q + r && 0 <= r < n
    ensures x / n == q
  {
    var q', r' := x / n, x % n;
    assert x == n * q' + r';
    MulNonNegative(n, q - q' - 1);
    MulNonNegative(n, q' - q - 1);
    assert n * (q - q' - 1) == n * q - n * q' - n;
    assert n * (q' - q - 1) == n * q' - n * q - n;
  }
}
