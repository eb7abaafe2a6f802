/** Arithmetic utilities of the pool: checked addition and subtraction (the
    behaviour of SafeMath on ulong and of Stratis' UInt256 operators), the
    wrap-around of unchecked ulong arithmetic, and the integer square root
    of OpdexV1Pair.Sqrt. */
module Arith {
  import opened Base

  const MAX_U64: nat := 0xFFFF_FFFF_FFFF_FFFF
  const U64_MODULUS: nat := 0x1_0000_0000_0000_0000
  const MAX_U256: nat := 0xFFFF_FFFF_FFFF_FFFF_FFFF_FFFF_FFFF_FFFF_FFFF_FFFF_FFFF_FFFF_FFFF_FFFF_FFFF_FFFF

  /** A value a ulong can hold. */
  type U64 = x: nat | x <= MAX_U64

  /** a + b in a type whose largest value is `max`; aborts on overflow. */
  function CheckedAdd(a: nat, b: nat, max: nat): (r: Result<nat>)
    ensures r.Ok? <==> a + b <= max
    ensures r.Ok? ==> r.value == a + b
    ensures r.Err? ==> r.error == Overflow
  {
    if a + b <= max then Ok(a + b) else Err(Overflow)
  }

  /** a - b on unsigned values; aborts when b exceeds a. */
  function CheckedSub(a: nat, b: nat): (r: Result<nat>)
    ensures r.Ok? <==> b <= a
    ensures r.Ok? ==> r.value + b == a
    ensures r.Err? ==> r.error == Underflow
  {
    if b <= a then Ok(a - b) else Err(Underflow)
  }

  /** The value an unchecked ulong computation (or a `(ulong)` cast) keeps:
      the mathematical result reduced modulo 2^64. */
  function ToU64(x: int): (r: nat)
    ensures r <= MAX_U64
    ensures (x - r) % U64_MODULUS == 0
    ensures 0 <= x <= MAX_U64 ==> r == x
    ensures 0 <= x ==> r <= x
  {
    x % U64_MODULUS
  }

  /** Subtracting wrapped operands wraps to the wrapped difference: an
      unchecked ulong expression a - b equals the true a - b modulo 2^64. */
  lemma WrappedSub(a: int, b: int)
    ensures ToU64(ToU64(a) - ToU64(b)) == ToU64(a - b)
  {
    var qa, qb := a / U64_MODULUS, b / U64_MODULUS;
    assert a == qa * U64_MODULUS + ToU64(a);
    assert b == qb * U64_MODULUS + ToU64(b);
    ModShift(a - b, qa - qb);
  }

  lemma ModShift(x: int, k: int)
    ensures (x - k * U64_MODULUS) % U64_MODULUS == x % U64_MODULUS
  {
  }

  function Min(a: nat, b: nat): (r: nat)
    ensures r <= a && r <= b
    ensures r == a || r == b
  {
    if a > b then b else a
  }

  /** OpdexV1Pair.Sqrt: 1 for every value up to 3 (0 included), otherwise
      the Babylonian iteration started at value / 2 + 1, which yields the
      floor square root. */
  function Sqrt(value: nat): (r: nat)
    ensures 0 < r
    ensures value <= 3 ==> r == 1
    ensures 3 < value ==> r * r <= value < (r + 1) * (r + 1)
  {
    if value <= 3 then 1
    else
      var root := value / 2 + 1;
      assert (root + 1) * (root + 1) > value by {
        assert 2 * root >= value + 1;
        assert (root + 1) * (root + 1) >= 2 * (root + 1);
      }
      assert (value + 1) * (value + 1) > value;
      SqrtLoop(value, value, root)
  }

  /** The loop of OpdexV1Pair.Sqrt: `result` is the previous estimate and
      `root` the next; the loop stops as soon as the estimate stops
      decreasing. Every estimate after the first is at least the floor
      square root, which is what makes the stopping value exact. */
  function SqrtLoop(value: nat, result: nat, root: nat): (r: nat)
    requires 0 < value && 0 < result && 0 < root
    requires value < (root + 1) * (root + 1)
    requires value < (result + 1) * (result + 1)
    requires root < result || root == (value / result + result) / 2
    ensures r * r <= value < (r + 1) * (r + 1)
    decreases result
  {
    if root < result then
      var next := (value / root + root) / 2;
      NewtonStepAbove(value, root);
      SqrtLoop(value, root, next)
    else
      assert result * result <= value by {
        if result * result > value {
          NewtonStepDescends(value, result);
        }
      }
      result
  }

  /** One Babylonian step from any positive estimate never falls below the
      floor square root. */
  lemma NewtonStepAbove(v: nat, r: nat)
    requires 0 < v && 0 < r
    ensures 0 < (v / r + r) / 2
    ensures v < ((v / r + r) / 2 + 1) * ((v / r + r) / 2 + 1)
  {
    var a := v / r;
    DivBounds(v, r);
    var t := (a + r) / 2 + 1;
    if t * t <= v {
      MulLeft(a + 1, 2 * t - r, r);
      SquareGap(t, r);
      assert false;
    }
  }

  /** The product of two naturals, as a natural. */
  function Mul(x: nat, y: nat): nat
  {
    x * y
  }

  /** The floor quotient q of v by z brackets v within one divisor. */
  lemma FloorBracket(v: nat, z: nat, q: nat)
    requires 0 < z && q == v / z
    ensures q * z <= v < q * z + z
  {
    DivBounds(v, z);
  }

  /** The floor quotient brackets its dividend within one divisor. */
  lemma DivBounds(v: nat, r: nat)
    requires 0 < r
    ensures (v / r) * r <= v < (v / r + 1) * r
    ensures v < (v / r) * r + r
  {
    assert v == (v / r) * r + v % r;
  }

  /** (2t - r)·r never exceeds t·t: the gap is the square (t - r)^2. */
  lemma SquareGap(t: int, r: int)
    ensures (2 * t - r) * r <= t * t
  {
    assert t * t - (2 * t - r) * r == (t - r) * (t - r);
  }

  /** Above the floor square root, a Babylonian step strictly decreases. */
  lemma NewtonStepDescends(v: nat, r: nat)
    requires 0 < r && v < r * r
    ensures (v / r + r) / 2 < r
  {
    var a := v / r;
    assert a * r <= v;
    if a >= r {
      MulLeft(r, a, r);
      assert false;
    }
  }

  lemma MulLeft(a: int, b: int, c: nat)
    requires a <= b
    ensures a * c <= b * c
  {
  }

  lemma MulStrict(a: int, b: int, c: nat)
    requires a < b && 0 < c
    ensures a * c < b * c
  {
  }

  /** The floor square root is unique: two values squeezed between the same
      consecutive squares are equal. */
  lemma FloorRootUnique(v: nat, r: nat, s: nat)
    requires r * r <= v < (r + 1) * (r + 1)
    requires s * s <= v < (s + 1) * (s + 1)
    ensures r == s
  {
    if r < s {
      MulMono(r + 1, s);
      assert false;
    } else if s < r {
      MulMono(s + 1, r);
      assert false;
    }
  }

  /** Any r that brackets n the way Sqrt's result does is Sqrt(n). */
  lemma SqrtOfBracket(n: nat, r: nat)
    requires 3 < n && r * r <= n < (r + 1) * (r + 1)
    ensures Sqrt(n) == r
  {
    FloorRootUnique(n, Sqrt(n), r);
  }

  /** Sqrt is exact on perfect squares (0 excepted, whose Sqrt is 1). */
  lemma SqrtOfSquare(n: nat)
    requires 0 < n
    ensures Sqrt(n * n) == n
  {
    if n > 1 {
      MulMono(2, n);
      FloorRootUnique(n * n, Sqrt(n * n), n);
    }
  }

  lemma MulMono(a: nat, b: nat)
    requires a <= b
    ensures a * a <= b * b
  {
    MulLeft(a, b, a);
    MulLeft(a, b, b);
  }
}
