/** Positional notation with a different base at each place, the first place
    being the most significant. */
module MixedRadix {
  import opened Integers

  function Product(sizes: seq<nat>): nat {
    if sizes == [] then 1
    else
      ProductNonNegative(Product(sizes[..|sizes| - 1]), sizes[|sizes| - 1]);
      Product(sizes[..|sizes| - 1]) * sizes[|sizes| - 1]
  }

  ghost predicate IsChoice(sizes: seq<nat>, choice: seq<nat>) {
    |choice| == |sizes| && forall i :: 0 <= i < |sizes| ==> choice[i] < sizes[i]
  }

  lemma QuotientBound(k: nat, n: nat, c: nat)
    requires k < c * n
    ensures n > 0 && k / n < c
  {
    if n > 0 && k / n >= c {
      ScaleUp(c, k / n, n);
    }
  }

  function Digits(sizes: seq<nat>, k: nat): (choice: seq<nat>)
    requires k < Product(sizes)
    ensures IsChoice(sizes, choice)
  {
    if sizes == [] then []
    else
      var n := |sizes| - 1;
      QuotientBound(k, sizes[n], Product(sizes[..n]));
      Digits(sizes[..n], k / sizes[n]) + [k % sizes[n]]
  }

  /** The product of the sizes after place i. */
  function Stride(sizes: seq<nat>, i: nat): nat
    requires i < |sizes|
  {
    if i == |sizes| - 1 then 1
    else
      ProductNonNegative(Stride(sizes[..|sizes| - 1], i), sizes[|sizes| - 1]);
      Stride(sizes[..|sizes| - 1], i) * sizes[|sizes| - 1]
  }

  /** The stride of a place in closed form: the last place varies fastest. */
  lemma {:induction false} StrideIsProduct(sizes: seq<nat>, i: nat)
    requires i < |sizes|
    ensures Stride(sizes, i) == Product(sizes[i + 1..])
    decreases |sizes|
  {
    var n := |sizes| - 1;
    if i < n {
      StrideIsProduct(sizes[..n], i);
      assert sizes[i + 1..][..n - i - 1] == sizes[..n][i + 1..];
    }
  }

  lemma ProductPush(sizes: seq<nat>, n: nat)
    ensures Product(sizes + [n]) == Product(sizes) * n
  {
    assert (sizes + [n])[..|sizes|] == sizes;
  }

  lemma DigitsPush(sizes: seq<nat>, n: nat, i: nat, j: nat, k: nat, scaled: nat)
    requires i < Product(sizes) && j < n && scaled == i * n && k == scaled + j
    ensures k < Product(sizes + [n]) && Digits(sizes + [n], k) == Digits(sizes, i) + [j]
  {
    assert (sizes + [n])[..|sizes|] == sizes;
    ProductPush(sizes, n);
    ScaleStrict(i, Product(sizes), n);
    DivModUnique(k, n, i, j, scaled);
  }

  lemma DivideTwice(k: nat, a: nat, b: nat, p: nat)
    requires a > 0 && b > 0 && p == a * b
    ensures p > 0 && k / b / a == k / p
  {
    var q := k / b;
    var t := q / a;
    var low, mid := k % b, q % a;
    var r := mid * b + low;
    ScaleStrict(mid, a, b);
    Distribute(t, a, mid, b, q, p);
    Reassemble(k, b);
    DivModUnique(k, p, t, r, t * p);
  }

  lemma Reassemble(k: nat, b: nat)
    requires b > 0
    ensures k == k / b * b + k % b
  {}

  lemma Distribute(t: nat, a: nat, mid: nat, b: nat, q: nat, p: nat)
    requires a > 0 && t == q / a && mid == q % a && p == a * b
    ensures q * b == t * p + mid * b
  {
    Reassemble(q, a);
    var ta := t * a;
    assert q == ta + mid;
    assert q * b == ta * b + mid * b;
    assert ta * b == t * p;
  }

  /** Each digit in closed form. */
  lemma {:induction false} DigitsAreMixedRadix(sizes: seq<nat>, k: nat, i: nat)
    requires k < Product(sizes) && i < |sizes|
    ensures Stride(sizes, i) > 0 && sizes[i] > 0 && Digits(sizes, k)[i] == k / Stride(sizes, i) % sizes[i]
    decreases |sizes|
  {
    var n := |sizes| - 1;
    QuotientBound(k, sizes[n], Product(sizes[..n]));
    if i < n {
      DigitsAreMixedRadix(sizes[..n], k / sizes[n], i);
      DivideTwice(k, Stride(sizes[..n], i), sizes[n], Stride(sizes, i));
    }
  }

  /** Every choice is written by exactly one number. */
  lemma {:induction false} EveryChoiceOnce(sizes: seq<nat>, choice: seq<nat>) returns (k: nat)
    requires IsChoice(sizes, choice)
    ensures k < Product(sizes) && Digits(sizes, k) == choice
    ensures forall m: nat :: m < Product(sizes) && Digits(sizes, m) == choice ==> m == k
    decreases |sizes|
  {
    hide Product;
    hide Digits;
    if sizes == [] {
      OnlyChoice(choice);
      k := 0;
    } else {
      var n := |sizes| - 1;
      var front := EveryChoiceOnce(sizes[..n], choice[..n]);
      k := Combined(sizes, choice, front);
      forall m: nat | m < Product(sizes) && Digits(sizes, m) == choice
        ensures m == k
      {
        LastDigit(sizes, m, choice);
      }
    }
  }

  lemma OnlyChoice(choice: seq<nat>)
    requires IsChoice([], choice)
    ensures Product([]) == 1 && Digits([], 0) == choice
  {}

  lemma Combined(sizes: seq<nat>, choice: seq<nat>, front: nat) returns (k: nat)
    requires sizes != [] && IsChoice(sizes, choice)
    requires
      var n := |sizes| - 1;
      front < Product(sizes[..n]) && Digits(sizes[..n], front) == choice[..n]
    ensures k < Product(sizes) && Digits(sizes, k) == choice
    ensures k == front * sizes[|sizes| - 1] + choice[|sizes| - 1]
  {
    var n := |sizes| - 1;
    var scaled := front * sizes[n];
    k := scaled + choice[n];
    assert sizes[..n] + [sizes[n]] == sizes && choice[..n] + [choice[n]] == choice;
    DigitsPush(sizes[..n], sizes[n], front, choice[n], k, scaled);
  }

  lemma LastDigit(sizes: seq<nat>, m: nat, choice: seq<nat>)
    requires sizes != [] && m < Product(sizes) && Digits(sizes, m) == choice
    ensures
      var n := |sizes| - 1;
      && sizes[n] > 0 && m == m / sizes[n] * sizes[n] + choice[n]
      && m / sizes[n] < Product(sizes[..n]) && Digits(sizes[..n], m / sizes[n]) == choice[..n]
  {
    var n := |sizes| - 1;
    QuotientBound(m, sizes[n], Product(sizes[..n]));
    var front := Digits(sizes[..n], m / sizes[n]);
    assert choice == front + [m % sizes[n]];
    assert choice[..n] == front;
  }
}
