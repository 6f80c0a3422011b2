/** The few pieces of C arithmetic that test_comm.c relies on, written out
    explicitly because Dafny's integers are unbounded and its `%` is Euclidean. */
module CSemantics {

  /** Largest value of a C `int` on the platforms the benchmark targets. */
  const INT_MAX: int := 0x7fff_ffff

  /** `unsigned long long` arithmetic is taken modulo this value. */
  const ULLONG_MOD: int := 0x1_0000_0000_0000_0000

  datatype Option<T> = None | Some(value: T)

  function Abs(x: int): int
  {
    if x < 0 then -x else x
  }

  /** C's `a % b`: the remainder of division truncated toward zero, which
      takes the sign of the dividend. The ensures clauses pin it down: its
      magnitude is the remainder of the magnitudes, and it never has the
      opposite sign of `a`. */
  function CRem(a: int, b: int): (r: int)
    requires b != 0
    ensures -Abs(b) < r < Abs(b)
    ensures a >= 0 ==> r >= 0
    ensures a <= 0 ==> r <= 0
    ensures Abs(r) == Abs(a) % Abs(b)
  {
    if a >= 0 then a % Abs(b) else -((-a) % Abs(b))
  }

  /** For the divisor 2 the C remainder is zero exactly when the number is
      even, whatever its sign. */
  lemma CRemTwo(a: int)
    ensures CRem(a, 2) == 0 <==> a % 2 == 0
    ensures CRem(a, 2) != 0 <==> a % 2 == 1
  {
  }

  /** `x += y` on an `unsigned long long` holding `x`. */
  function AddULL(x: nat, y: nat): (r: nat)
    requires x < ULLONG_MOD && y < ULLONG_MOD
    ensures r < ULLONG_MOD
    ensures x + y < ULLONG_MOD ==> r == x + y
    ensures x + y >= ULLONG_MOD ==> r == x + y - ULLONG_MOD
  {
    (x + y) % ULLONG_MOD
  }
}
