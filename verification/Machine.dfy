// C integer types of an LP64 platform (int 32 bits, long and time_t 64 bits), and the
// operators whose meaning in C differs from Dafny's.
module Machine {
  const INT_MIN: int := -0x8000_0000
  const INT_MAX: int := 0x7fff_ffff
  const LONG_MIN: int := -0x8000_0000_0000_0000
  const LONG_MAX: int := 0x7fff_ffff_ffff_ffff
  const ULONG_MAX: int := 0xffff_ffff_ffff_ffff

  type Int = x: int | INT_MIN <= x <= INT_MAX
  type Long = x: int | LONG_MIN <= x <= LONG_MAX
  type ULong = x: int | 0 <= x <= ULONG_MAX

  datatype Option<+T> = None | Some(value: T)

  predicate FitsInt(x: int) { INT_MIN <= x <= INT_MAX }

  /** Conversion to a 32-bit int: reduction modulo 2^32 into the signed range. */
  function WrapInt(x: int): (r: Int)
    ensures r == x <==> FitsInt(x)
  {
    if FitsInt(x) then x else (x - INT_MIN) % 0x1_0000_0000 + INT_MIN
  }

  function WrapLong(x: int): (r: Long)
    ensures LONG_MIN <= x <= LONG_MAX ==> r == x
  {
    if LONG_MIN <= x <= LONG_MAX then x else (x - LONG_MIN) % 0x1_0000_0000_0000_0000 + LONG_MIN
  }

  function WrapULong(x: int): (r: ULong)
    ensures 0 <= x <= ULONG_MAX ==> r == x
  {
    if 0 <= x <= ULONG_MAX then x else x % 0x1_0000_0000_0000_0000
  }

  /** C division: the quotient is truncated toward zero. */
  function TruncDiv(a: int, b: int): (q: int)
    requires 0 < b
    ensures 0 <= a ==> q * b <= a < q * b + b
    ensures a <= 0 ==> q * b - b < a <= q * b
  {
    if 0 <= a then a / b else -(-a / b)
  }

  /** C remainder: it takes the sign of the dividend. */
  function TruncMod(a: int, b: int): int
    requires 0 < b
  {
    a - TruncDiv(a, b) * b
  }

  lemma MulGrows(p: int, a: int, b: int)
    requires 0 <= p && a <= b
    ensures p * a <= p * b
  {
  }

  /** Quotient and remainder are determined by what they add up to. */
  lemma DivMod(a: int, n: int, q: int, r: int)
    requires 0 <= r < n && a == n * q + r
    ensures a / n == q && a % n == r
  {
    var q' := a / n;
    assert n * (q' - q) == r - a % n;
    if q' > q { MulGrows(n, 1, q' - q); }
    if q' < q { MulGrows(n, q' - q, -1); }
  }
}
