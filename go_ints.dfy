/**
 * Go's fixed-width integer arithmetic, written out over Dafny's unbounded
 * integers: uint64 and int64 addition wrap modulo 2^64, and integer division
 * truncates toward zero.
 */
module GoInts {

  const TWO63: int := 0x8000_0000_0000_0000
  const TWO64: int := 0x1_0000_0000_0000_0000

  type U64 = x: int | 0 <= x < TWO64
  type I64 = x: int | -TWO63 <= x < TWO63

  function Abs(x: int): nat { if x < 0 then -x else x }

  /** `a + b` on uint64. */
  function AddU64(a: U64, b: U64): (r: U64)
    ensures a + b < TWO64 ==> r == a + b
    ensures a + b >= TWO64 ==> r == a + b - TWO64
  {
    (a + b) % TWO64
  }

  /** The int64 that a two's-complement machine holds for the integer `x`. */
  function WrapI64(x: int): (r: I64)
    ensures (r - x) % TWO64 == 0
    ensures -TWO63 <= x < TWO63 ==> r == x
  {
    (x + TWO63) % TWO64 - TWO63
  }

  /** `a + b` on int64. */
  function AddI64(a: I64, b: I64): (r: I64)
    ensures -TWO63 <= a + b < TWO63 ==> r == a + b
    ensures a + b >= TWO63 ==> r == a + b - TWO64
    ensures a + b < -TWO63 ==> r == a + b + TWO64
  {
    WrapI64(a + b)
  }

  /** The conversion `int64(x)` of a uint64. */
  function U64ToI64(x: U64): (r: I64)
    ensures x < TWO63 ==> r == x
    ensures x >= TWO63 ==> r == x - TWO64
  {
    WrapI64(x)
  }

  /** Division truncated toward zero, as Go's `/` on integers. */
  function Quot(a: int, b: int): (q: int)
    requires b != 0
    ensures Abs(a - q * b) < Abs(b)
    ensures a - q * b == 0 || (a - q * b < 0 <==> a < 0)
    ensures Abs(q) <= Abs(a)
    ensures 0 <= a && 0 < b ==> q == a / b
  {
    var n := Abs(a) / Abs(b);
    var q := if (a < 0) == (b < 0) then n else -n;
    QuotientOfMagnitudes(a, b, n, q);
    q
  }

  /** Euclidean division of magnitudes, given the sign of the operands, truncates toward zero. */
  lemma QuotientOfMagnitudes(a: int, b: int, n: int, q: int)
    requires b != 0 && n == Abs(a) / Abs(b)
    requires q == if (a < 0) == (b < 0) then n else -n
    ensures Abs(a - q * b) < Abs(b)
    ensures a - q * b == 0 || (a - q * b < 0 <==> a < 0)
    ensures Abs(q) <= Abs(a)
    ensures 0 <= a && 0 < b ==> q == a / b
  {
    var x, y := Abs(a), Abs(b);
    var m := DivisionBounds(x, y, n);
    SignedProduct(a, b, n, q, m);
  }

  /** For magnitudes, `n = x / y` leaves a remainder below `y`, and is at most `x`. */
  lemma DivisionBounds(x: nat, y: int, n: int) returns (m: int)
    requires y >= 1 && n == x / y
    ensures m == n * y && m <= x < m + y && 0 <= n <= x
  {
    m := n * y;
    assert x == m + x % y;
    MulAtLeast(n, y);
  }

  /** The product `q * b` is the product of magnitudes with the sign of `a`. */
  lemma SignedProduct(a: int, b: int, n: int, q: int, m: int)
    requires b != 0 && n >= 0 && m == n * Abs(b)
    requires q == if (a < 0) == (b < 0) then n else -n
    ensures q * b == if a < 0 then -m else m
  {
    if a < 0 && b < 0 {
      assert n * b == -(n * -b);
    } else if a < 0 {
      assert (-n) * b == -(n * b);
    } else if b < 0 {
      assert (-n) * b == n * -b;
    }
  }

  lemma MulAtLeast(n: nat, y: int)
    requires y >= 1
    ensures n * y >= n
  {
    assert n * y == n + n * (y - 1);
  }

  /** `a / b` on int64: truncating division whose one overflow (-2^63 / -1) wraps. */
  function DivI64(a: I64, b: I64): (r: I64)
    requires b != 0
    ensures !(a == -TWO63 && b == -1) ==> r == Quot(a, b)
    ensures a == -TWO63 && b == -1 ==> r == -TWO63
  {
    WrapI64(Quot(a, b))
  }
}
