/** Machine integers, and facts about multiplication and Euclidean division that
    the solver does not find on its own. */
module Integers {
  import opened Wrappers

  type Byte = b: int | 0 <= b < 256

  const U64_MAX: int := 0xFFFF_FFFF_FFFF_FFFF

  type U64 = n: int | 0 <= n <= U64_MAX

  const I64_MAX: int := 0x7FFF_FFFF_FFFF_FFFF

  type I64 = n: int | -I64_MAX - 1 <= n <= I64_MAX

  /** The largest integer that binary64 represents along with all smaller ones. */
  const MAX_SAFE_INTEGER: int := 0x1F_FFFF_FFFF_FFFF

  function Checked(n: int): (checked: Option<U64>)
    requires 0 <= n
    ensures checked.Some? <==> n < 0x1_0000_0000_0000_0000
    ensures checked.Some? ==> checked.value == n
  {
    if n <= U64_MAX then Some(n) else None
  }

  function CheckedAdd(a: U64, b: U64): Option<U64> {
    Checked(a + b)
  }

  function CheckedMul(a: U64, b: U64): Option<U64> {
    ProductNonNegative(a, b);
    Checked(a * b)
  }

  lemma ProductNonNegative(a: nat, b: nat)
    ensures 0 <= a * b
  {}

  lemma ScaleUp(a: int, b: int, k: nat)
    requires a <= b
    ensures a * k <= b * k
  {}

  lemma ScaleStrict(a: int, b: int, k: nat)
    requires a < b
    ensures a * k + k <= b * k
  {
    ScaleUp(a + 1, b, k);
    assert (a + 1) * k == a * k + k;
  }

  lemma ProductMonotone(a: nat, b: nat, c: nat, d: nat)
    requires a <= b && c <= d
    ensures a * c <= b * d
  {
    ScaleUp(a, b, c);
    ScaleUp(c, d, b);
    assert c * b == b * c && d * b == b * d;
  }

  /** Quotient and remainder are unique. */
  lemma DivModUnique(n: int, e: nat, q: int, r: nat, product: int)
    requires e > 0 && r < e && product == q * e && n == product + r
    ensures n / e == q && n % e == r
  {
    var t := n / e;
    var p := t * e;
    assert n == p + n % e;
    if t < q {
      ScaleStrict(t, q, e);
    } else if q < t {
      ScaleStrict(q, t, e);
    }
  }

  lemma MultipleHasNoRemainder(q: int, e: nat)
    requires e > 0
    ensures (q * e) % e == 0 && (q * e) / e == q
  {
    DivModUnique(q * e, e, q, 0, q * e);
  }
}
