/** Positional notation: powers and the value of a digit sequence in a base.
    Used for PHP's base conversions, for decimal prefixes and for the 128-bit
    value of an address made of eight 16-bit groups. */
module Positional {

  function Pow(b: nat, n: nat): (r: nat)
    ensures b >= 1 ==> r >= 1
  {
    if n == 0 then 1 else b * Pow(b, n - 1)
  }

  /** Every digit is below the base. */
  predicate AllBelow(ds: seq<nat>, b: nat) {
    forall i :: 0 <= i < |ds| ==> ds[i] < b
  }

  /** Value of `ds`, most significant digit first. */
  function Eval(ds: seq<nat>, b: nat): nat {
    if |ds| == 0 then 0 else Eval(ds[..|ds| - 1], b) * b + ds[|ds| - 1]
  }

  function Repeat<T>(x: T, n: nat): (r: seq<T>)
    ensures |r| == n && forall i :: 0 <= i < n ==> r[i] == x
  {
    if n == 0 then [] else [x] + Repeat(x, n - 1)
  }

  lemma {:induction false} PowAdd(b: nat, m: nat, n: nat)
    ensures Pow(b, m + n) == Pow(b, m) * Pow(b, n)
  {
    if n > 0 {
      PowAdd(b, m, n - 1);
      assert Pow(b, m + n) == b * Pow(b, m + n - 1);
      assert Pow(b, n) == b * Pow(b, n - 1);
      Regroup(b, Pow(b, m), Pow(b, n - 1));
    }
  }

  lemma Regroup(b: nat, x: nat, y: nat)
    ensures b * (x * y) == x * (b * y)
  {
  }

  lemma {:induction false} PowMul(b: nat, m: nat, n: nat)
    ensures Pow(Pow(b, m), n) == Pow(b, m * n)
  {
    if n > 0 {
      PowMul(b, m, n - 1);
      PowAdd(b, m, m * (n - 1));
      assert m + m * (n - 1) == m * n;
    }
  }

  lemma {:induction false} EvalAppend(ds: seq<nat>, d: nat, b: nat)
    ensures Eval(ds + [d], b) == Eval(ds, b) * b + d
  {
    assert (ds + [d])[..|ds|] == ds;
  }

  /** Appending digits shifts the value left by their count. */
  lemma {:induction false} EvalConcat(xs: seq<nat>, ys: seq<nat>, b: nat)
    ensures Eval(xs + ys, b) == Eval(xs, b) * Pow(b, |ys|) + Eval(ys, b)
    decreases |ys|
  {
    if ys == [] {
      assert xs + ys == xs;
    } else {
      var init, last := ys[..|ys| - 1], ys[|ys| - 1];
      assert ys == init + [last];
      assert xs + ys == (xs + init) + [last];
      EvalAppend(xs + init, last, b);
      EvalAppend(init, last, b);
      EvalConcat(xs, init, b);
      ShiftStep(Eval(xs, b), Pow(b, |init|), Eval(init, b), b, last);
    }
  }

  lemma ShiftStep(x: nat, p: nat, y: nat, b: nat, d: nat)
    ensures (x * p + y) * b + d == x * (b * p) + (y * b + d)
  {
    calc {
      (x * p + y) * b + d;
      x * p * b + y * b + d;
      x * (b * p) + (y * b + d);
    }
  }

  /** A sequence of `n` digits in base `b` is below `b^n`. */
  lemma {:induction false} EvalBound(ds: seq<nat>, b: nat)
    requires AllBelow(ds, b)
    ensures Eval(ds, b) < Pow(b, |ds|)
    decreases |ds|
  {
    if ds != [] {
      var init := ds[..|ds| - 1];
      EvalBound(init, b);
      BoundStep(Eval(init, b), ds[|ds| - 1], b, Pow(b, |init|));
    }
  }

  /** A digit sequence of at most `n` digits is worth less than b^n. */
  lemma EvalWithin(ds: seq<nat>, b: nat, n: nat)
    requires AllBelow(ds, b) && |ds| <= n
    ensures b >= 1 ==> Eval(ds, b) < Pow(b, n)
  {
    if b >= 1 {
      EvalBound(ds, b);
      PowAdd(b, |ds|, n - |ds|);
      assert |ds| + (n - |ds|) == n;
      MulMonotoneRight(Pow(b, |ds|), Pow(b, n - |ds|));
    }
  }

  lemma MulMonotoneRight(x: nat, y: nat)
    requires y >= 1
    ensures x <= x * y
  {
  }

  lemma BoundStep(x: nat, d: nat, b: nat, p: nat)
    requires x < p && d < b
    ensures x * b + d < b * p
  {
    assert (x + 1) * b <= p * b;
  }

  /** All-zero digits are worth 0. */
  lemma {:induction false} EvalZeros(n: nat, b: nat)
    ensures Eval(Repeat<nat>(0, n), b) == 0
  {
    if n > 0 {
      RepeatSnoc<nat>(0, n - 1);
      EvalAppend(Repeat<nat>(0, n - 1), 0, b);
      EvalZeros(n - 1, b);
    }
  }

  /** `n` copies of the largest digit are worth `b^n - 1`. */
  lemma {:induction false} EvalMaxDigits(n: nat, b: nat)
    requires b >= 1
    ensures Eval(Repeat<nat>(b - 1, n), b) == Pow(b, n) - 1
  {
    if n > 0 {
      var top: nat := b - 1;
      RepeatSnoc(top, n - 1);
      EvalAppend(Repeat(top, n - 1), top, b);
      EvalMaxDigits(n - 1, b);
      assert Pow(b, n) == b * Pow(b, n - 1);
      MaxDigitStep(Pow(b, n - 1), b);
    }
  }

  lemma RepeatSnoc<T>(x: T, n: nat)
    ensures Repeat(x, n + 1) == Repeat(x, n) + [x]
  {
    assert |Repeat(x, n + 1)| == |Repeat(x, n) + [x]|;
  }

  lemma MaxDigitStep(p: nat, b: nat)
    requires p >= 1 && b >= 1
    ensures (p - 1) * b + (b - 1) == b * p - 1
  {
  }

  /** Quotient and remainder are determined by any decomposition `a == q * d + r`. */
  lemma DivModUnique(a: nat, d: nat, q: nat, r: nat)
    requires 0 <= r < d && a == q * d + r
    ensures a / d == q && a % d == r
  {
    var k: int := q - a / d;
    assert k * d == a % d - r;
    MultipleOrZero(k, d);
  }

  lemma MultipleOrZero(k: int, d: nat)
    requires d > 0
    ensures k == 0 || k * d >= d || k * d <= -(d as int)
  {
    if k > 0 {
      var j: nat := k - 1;
      assert k * d == j * d + d;
    } else if k < 0 {
      var j: nat := -k - 1;
      assert k * d == -(j * d) - d;
    }
  }
}
