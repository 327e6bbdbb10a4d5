/** Polynomials over a field, as coefficient sequences with the constant term first. */
module Polynomials {
  import opened BinaryFields
  import opened Permutations

  function Eval<F>(k: Field<F>, p: seq<F>, x: F): F {
    if p == [] then k.zero else k.add(p[0], k.mul(x, Eval(k, p[1..], x)))
  }

  function Sum<F>(k: Field<F>, p: seq<F>, q: seq<F>): (r: seq<F>)
    requires |p| == |q|
    ensures |r| == |p|
  {
    if p == [] then [] else [k.add(p[0], q[0])] + Sum(k, p[1..], q[1..])
  }

  function Scale<F>(k: Field<F>, c: F, p: seq<F>): (r: seq<F>)
    ensures |r| == |p|
  {
    if p == [] then [] else [k.mul(c, p[0])] + Scale(k, c, p[1..])
  }

  function Zeros<F>(k: Field<F>, n: nat): (r: seq<F>)
    ensures |r| == n
  {
    if n == 0 then [] else [k.zero] + Zeros(k, n - 1)
  }

  /** p * (x - r) */
  function TimesRoot<F>(k: Field<F>, p: seq<F>, r: F): (q: seq<F>)
    ensures |q| == |p| + 1
  {
    Sum(k, [k.zero] + p, Scale(k, r, p) + [k.zero])
  }

  /** The quotient of p by x - r, whose remainder is Eval(p, r). */
  function Quotient<F>(k: Field<F>, p: seq<F>, r: F): (q: seq<F>)
    ensures |q| == if p == [] then 0 else |p| - 1
  {
    if |p| < 2 then [] else [Eval(k, p[1..], r)] + Quotient(k, p[1..], r)
  }

  /** The product of a - x over the elements x of xs. */
  function Differences<F>(k: Field<F>, a: F, xs: seq<F>): F {
    if xs == [] then k.one else k.mul(k.add(a, xs[0]), Differences(k, a, xs[1..]))
  }

  /** The monic polynomial whose roots are xs. */
  function FromRoots<F>(k: Field<F>, xs: seq<F>): (p: seq<F>)
    ensures |p| == |xs| + 1
  {
    if xs == [] then [k.one] else TimesRoot(k, FromRoots(k, xs[1..]), xs[0])
  }

  ghost predicate Distinct<F>(xs: seq<F>) {
    forall i, j :: 0 <= i < j < |xs| ==> xs[i] != xs[j]
  }

  ghost predicate PassesThrough<F>(k: Field<F>, p: seq<F>, xs: seq<F>, ys: seq<F>)
    requires |xs| == |ys|
  {
    forall i :: 0 <= i < |xs| ==> Eval(k, p, xs[i]) == ys[i]
  }

  // Evaluation respects the operations.

  lemma {:induction false} EvalSum<F(!new)>(k: Field<F>, p: seq<F>, q: seq<F>, x: F)
    requires IsField(k) && |p| == |q|
    ensures Eval(k, Sum(k, p, q), x) == k.add(Eval(k, p, x), Eval(k, q, x))
  {
    if p == [] {
      Unit(k, k.zero);
    } else {
      EvalSum(k, p[1..], q[1..], x);
      assert Sum(k, p, q)[1..] == Sum(k, p[1..], q[1..]);
      var a, b := Eval(k, p[1..], x), Eval(k, q[1..], x);
      Distribute(k, x, a, b);
      AddRegroup(k, p[0], q[0], k.mul(x, a), k.mul(x, b));
    }
  }

  lemma {:induction false} EvalScale<F(!new)>(k: Field<F>, c: F, p: seq<F>, x: F)
    requires IsField(k)
    ensures Eval(k, Scale(k, c, p), x) == k.mul(c, Eval(k, p, x))
  {
    if p == [] {
      MulZero(k, c);
    } else {
      EvalScale(k, c, p[1..], x);
      assert Scale(k, c, p)[1..] == Scale(k, c, p[1..]);
      var rest := Eval(k, p[1..], x);
      Distribute(k, c, p[0], k.mul(x, rest));
      MulSwap(k, c, x, rest);
    }
  }

  lemma {:induction false} EvalZeros<F(!new)>(k: Field<F>, n: nat, x: F)
    requires IsField(k)
    ensures Eval(k, Zeros(k, n), x) == k.zero
  {
    if n > 0 {
      EvalZeros(k, n - 1, x);
      assert Zeros(k, n)[1..] == Zeros(k, n - 1);
      MulZero(k, x);
      Unit(k, k.zero);
    }
  }

  /** Leading zero coefficients do not change the values. */
  lemma {:induction false} EvalPadded<F(!new)>(k: Field<F>, p: seq<F>, n: nat, x: F)
    requires IsField(k)
    ensures Eval(k, p + Zeros(k, n), x) == Eval(k, p, x)
  {
    if p == [] {
      EvalZeros(k, n, x);
      assert p + Zeros(k, n) == Zeros(k, n);
    } else {
      EvalPadded(k, p[1..], n, x);
      assert (p + Zeros(k, n))[1..] == p[1..] + Zeros(k, n);
    }
  }

  lemma EvalAtZero<F(!new)>(k: Field<F>, p: seq<F>)
    requires IsField(k) && p != []
    ensures Eval(k, p, k.zero) == p[0]
  {
    MulZero(k, Eval(k, p[1..], k.zero));
    Unit(k, p[0]);
  }

  lemma EvalTimesRoot<F(!new)>(k: Field<F>, p: seq<F>, r: F, x: F)
    requires IsField(k)
    ensures Eval(k, TimesRoot(k, p, r), x) == k.mul(k.add(x, r), Eval(k, p, x))
  {
    var v := Eval(k, p, x);
    EvalSum(k, [k.zero] + p, Scale(k, r, p) + [k.zero], x);
    assert ([k.zero] + p)[1..] == p;
    Unit(k, k.mul(x, v));
    assert Zeros(k, 1) == [k.zero];
    EvalPadded(k, Scale(k, r, p), 1, x);
    EvalScale(k, r, p, x);
    Distribute(k, v, x, r);
  }

  lemma {:induction false} EvalFromRoots<F(!new)>(k: Field<F>, xs: seq<F>, a: F)
    requires IsField(k)
    ensures Eval(k, FromRoots(k, xs), a) == Differences(k, a, xs)
  {
    if xs == [] {
      MulZero(k, a);
      Unit(k, k.one);
    } else {
      EvalFromRoots(k, xs[1..], a);
      EvalTimesRoot(k, FromRoots(k, xs[1..]), xs[0], a);
    }
  }

  lemma {:induction false} DifferencesZero<F(!new)>(k: Field<F>, a: F, xs: seq<F>)
    requires IsField(k)
    ensures Differences(k, a, xs) == k.zero <==> a in xs
  {
    if xs != [] {
      DifferencesZero(k, a, xs[1..]);
      Cancel(k, a, xs[0]);
      NoZeroDivisors(k, k.add(a, xs[0]), Differences(k, a, xs[1..]));
    }
  }

  // A polynomial with as many roots as coefficients is zero.

  /** p == (x - r) * Quotient(p, r) + Eval(p, r), as values. */
  lemma {:induction false} EvalQuotient<F(!new)>(k: Field<F>, p: seq<F>, r: F, x: F)
    requires IsField(k)
    ensures Eval(k, p, x) == k.add(k.mul(k.add(x, r), Eval(k, Quotient(k, p, r), x)), Eval(k, p, r))
  {
    if |p| < 2 {
      MulZero(k, k.add(x, r));
      MulZero(k, x);
      MulZero(k, r);
      Unit(k, Eval(k, p, r));
    } else {
      var tail := p[1..];
      var q, v := Eval(k, Quotient(k, tail, r), x), Eval(k, tail, r);
      EvalQuotient(k, tail, r, x);
      assert Quotient(k, p, r)[1..] == Quotient(k, tail, r);
      QuotientStep(k, p[0], x, r, q, v);
    }
  }

  lemma QuotientStep<F(!new)>(k: Field<F>, c: F, x: F, r: F, q: F, v: F)
    requires IsField(k)
    ensures k.add(c, k.mul(x, k.add(k.mul(k.add(x, r), q), v)))
         == k.add(k.mul(k.add(x, r), k.add(v, k.mul(x, q))), k.add(c, k.mul(r, v)))
  {
    var d := k.add(x, r);
    var dxq, xv, rv := k.mul(d, k.mul(x, q)), k.mul(x, v), k.mul(r, v);
    Distribute(k, x, k.mul(d, q), v);
    MulSwap(k, x, d, q);
    Distribute(k, d, v, k.mul(x, q));
    Distribute(k, v, x, r);
    // c + (dxq + xv) == ((xv + rv) + dxq) + (c + rv)
    AddRegroup(k, k.add(xv, rv), dxq, c, rv);
    Commute(k, k.add(k.add(xv, rv), c), k.add(dxq, rv));
    Commute(k, k.add(xv, rv), c);
    Associate(k, c, xv, rv);
    AddRegroup(k, c, k.add(xv, rv), dxq, rv);
    AddRegroup(k, xv, rv, rv, k.zero);
    Associate(k, xv, rv, rv);
    Unit(k, rv);
    Unit(k, xv);
    Commute(k, dxq, xv);
    Associate(k, c, dxq, xv);
    AddRegroup(k, c, dxq, k.add(xv, rv), rv);
  }

  lemma {:induction false} QuotientZero<F(!new)>(k: Field<F>, p: seq<F>, r: F)
    requires IsField(k)
    requires Eval(k, p, r) == k.zero && Quotient(k, p, r) == Zeros(k, |Quotient(k, p, r)|)
    ensures p == Zeros(k, |p|)
  {
    if |p| == 1 {
      MulZero(k, r);
      Unit(k, p[0]);
    } else if |p| > 1 {
      assert Zeros(k, |p| - 1)[0] == k.zero;
      assert Zeros(k, |p| - 1)[1..] == Zeros(k, |p| - 2);
      assert Quotient(k, p, r)[1..] == Quotient(k, p[1..], r);
      QuotientZero(k, p[1..], r);
      MulZero(k, r);
      Unit(k, p[0]);
    }
  }

  /** A polynomial with at least as many distinct roots as coefficients is zero. */
  lemma {:induction false} ManyRoots<F(!new)>(k: Field<F>, p: seq<F>, xs: seq<F>)
    requires IsField(k) && |p| <= |xs| && Distinct(xs)
    requires forall x :: x in xs ==> Eval(k, p, x) == k.zero
    ensures p == Zeros(k, |p|)
    decreases |p|
  {
    if p != [] {
      var r, q := xs[0], Quotient(k, p, xs[0]);
      forall x | x in xs[1..]
        ensures Eval(k, q, x) == k.zero
      {
        EvalQuotient(k, p, r, x);
        Unit(k, k.mul(k.add(x, r), Eval(k, q, x)));
        Cancel(k, x, r);
        NoZeroDivisors(k, k.add(x, r), Eval(k, q, x));
      }
      ManyRoots(k, q, xs[1..]);
      QuotientZero(k, p, r);
    }
  }

  lemma {:induction false} SumZero<F(!new)>(k: Field<F>, p: seq<F>, q: seq<F>)
    requires IsField(k) && |p| == |q| && Sum(k, p, q) == Zeros(k, |p|)
    ensures p == q
  {
    if p != [] {
      assert Sum(k, p, q)[0] == k.zero && Sum(k, p, q)[1..] == Sum(k, p[1..], q[1..]);
      assert Zeros(k, |p|)[1..] == Zeros(k, |p| - 1);
      Cancel(k, p[0], q[0]);
      SumZero(k, p[1..], q[1..]);
    }
  }

  /** Two polynomials with n coefficients that agree at n points are equal. */
  lemma Uniqueness<F(!new)>(k: Field<F>, p: seq<F>, q: seq<F>, xs: seq<F>)
    requires IsField(k) && |p| == |q| <= |xs| && Distinct(xs)
    requires forall x :: x in xs ==> Eval(k, p, x) == Eval(k, q, x)
    ensures p == q
  {
    forall x | x in xs
      ensures Eval(k, Sum(k, p, q), x) == k.zero
    {
      EvalSum(k, p, q, x);
      Unit(k, Eval(k, q, x));
    }
    ManyRoots(k, Sum(k, p, q), xs);
    SumZero(k, p, q);
  }

  // Lagrange interpolation.

  /** The weight of point i in the interpolant's value at a. */
  function Weight<F>(k: Field<F>, xs: seq<F>, i: nat, a: F): F
    requires i < |xs|
  {
    k.mul(Differences(k, a, Others(xs, i)), k.inv(Differences(k, xs[i], Others(xs, i))))
  }

  /** The weighted sum of the first n values. */
  function Lagrange<F>(k: Field<F>, xs: seq<F>, ys: seq<F>, a: F, n: nat): F
    requires |xs| == |ys| && n <= |xs|
  {
    if n == 0 then k.zero
    else k.add(Lagrange(k, xs, ys, a, n - 1), k.mul(ys[n - 1], Weight(k, xs, n - 1, a)))
  }

  /** The polynomial whose values are the weighted sums. */
  function Interpolant<F>(k: Field<F>, xs: seq<F>, ys: seq<F>, n: nat): (p: seq<F>)
    requires |xs| == |ys| && n <= |xs|
    ensures |p| == |xs|
  {
    if n == 0 then Zeros(k, |xs|)
    else
      var i := n - 1;
      var c := k.mul(ys[i], k.inv(Differences(k, xs[i], Others(xs, i))));
      Sum(k, Interpolant(k, xs, ys, i), Scale(k, c, FromRoots(k, Others(xs, i))))
  }

  lemma {:induction false} EvalInterpolant<F(!new)>(k: Field<F>, xs: seq<F>, ys: seq<F>, n: nat, a: F)
    requires IsField(k) && |xs| == |ys| && n <= |xs|
    ensures Eval(k, Interpolant(k, xs, ys, n), a) == Lagrange(k, xs, ys, a, n)
  {
    if n == 0 {
      EvalZeros(k, |xs|, a);
    } else {
      var i := n - 1;
      var others := Others(xs, i);
      var w := k.inv(Differences(k, xs[i], others));
      EvalInterpolant(k, xs, ys, i, a);
      EvalSum(k, Interpolant(k, xs, ys, i), Scale(k, k.mul(ys[i], w), FromRoots(k, others)), a);
      EvalScale(k, k.mul(ys[i], w), FromRoots(k, others), a);
      EvalFromRoots(k, others, a);
      Associate(k, ys[i], w, Differences(k, a, others));
      Commute(k, w, Differences(k, a, others));
    }
  }

  lemma WeightAtPoint<F(!new)>(k: Field<F>, xs: seq<F>, i: nat, j: nat)
    requires IsField(k) && Distinct(xs) && i < |xs| && j < |xs|
    ensures Weight(k, xs, i, xs[j]) == if i == j then k.one else k.zero
  {
    var others := Others(xs, i);
    DifferencesZero(k, xs[j], others);
    if i == j {
      Unit(k, Differences(k, xs[i], others));
    } else {
      assert xs[j] == others[if j < i then j else j - 1];
      MulZero(k, k.inv(Differences(k, xs[i], others)));
    }
  }

  lemma {:induction false} LagrangeAtPoint<F(!new)>(k: Field<F>, xs: seq<F>, ys: seq<F>, j: nat, n: nat)
    requires IsField(k) && Distinct(xs) && |xs| == |ys| && j < |xs| && n <= |xs|
    ensures Lagrange(k, xs, ys, xs[j], n) == if j < n then ys[j] else k.zero
  {
    if n > 0 {
      LagrangeAtPoint(k, xs, ys, j, n - 1);
      WeightAtPoint(k, xs, n - 1, j);
      MulZero(k, ys[n - 1]);
      Unit(k, ys[n - 1]);
      Unit(k, ys[j]);
      Unit(k, k.zero);
    }
  }

  /** The interpolant passes through the points. */
  lemma InterpolantPasses<F(!new)>(k: Field<F>, xs: seq<F>, ys: seq<F>)
    requires IsField(k) && Distinct(xs) && |xs| == |ys|
    ensures PassesThrough(k, Interpolant(k, xs, ys, |xs|), xs, ys)
  {
    forall j | 0 <= j < |xs|
      ensures Eval(k, Interpolant(k, xs, ys, |xs|), xs[j]) == ys[j]
    {
      EvalInterpolant(k, xs, ys, |xs|, xs[j]);
      LagrangeAtPoint(k, xs, ys, j, |xs|);
    }
  }

  /** Every polynomial of low enough degree through the points is the interpolant, padded with zeros. */
  lemma PaddedInterpolates<F(!new)>(k: Field<F>, p: seq<F>, xs: seq<F>, ys: seq<F>)
    requires IsField(k) && Distinct(xs) && |p| <= |xs| == |ys| && PassesThrough(k, p, xs, ys)
    ensures p + Zeros(k, |xs| - |p|) == Interpolant(k, xs, ys, |xs|)
  {
    var padded := p + Zeros(k, |xs| - |p|);
    var q := Interpolant(k, xs, ys, |xs|);
    InterpolantPasses(k, xs, ys);
    forall x | x in xs
      ensures Eval(k, padded, x) == Eval(k, q, x)
    {
      var i :| 0 <= i < |xs| && xs[i] == x;
      EvalPadded(k, p, |xs| - |p|, x);
    }
    Uniqueness(k, padded, q, xs);
  }

  /** Lagrange's formula gives every value of every polynomial of degree below |xs| through the points. */
  lemma LagrangeInterpolates<F(!new)>(k: Field<F>, p: seq<F>, xs: seq<F>, ys: seq<F>, a: F)
    requires IsField(k) && Distinct(xs) && |p| <= |xs| == |ys| && PassesThrough(k, p, xs, ys)
    ensures Lagrange(k, xs, ys, a, |xs|) == Eval(k, p, a)
  {
    PaddedInterpolates(k, p, xs, ys);
    EvalPadded(k, p, |xs| - |p|, a);
    EvalInterpolant(k, xs, ys, |xs|, a);
  }

  /** Exactly one polynomial with |xs| coefficients passes through the points. */
  lemma InterpolantUnique<F(!new)>(k: Field<F>, p: seq<F>, xs: seq<F>, ys: seq<F>)
    requires IsField(k) && Distinct(xs) && |p| == |xs| == |ys|
    ensures PassesThrough(k, p, xs, ys) <==> p == Interpolant(k, xs, ys, |xs|)
  {
    InterpolantPasses(k, xs, ys);
    if PassesThrough(k, p, xs, ys) {
      forall x | x in xs
        ensures Eval(k, p, x) == Eval(k, Interpolant(k, xs, ys, |xs|), x)
      {
        var i :| 0 <= i < |xs| && xs[i] == x;
      }
      Uniqueness(k, p, Interpolant(k, xs, ys, |xs|), xs);
    }
  }

  // Interpolation with too few points.

  /** The quotient of p by the product of x - r over the elements r of xs. */
  function Divided<F>(k: Field<F>, p: seq<F>, xs: seq<F>): (q: seq<F>)
    requires |xs| <= |p|
    ensures |q| == |p| - |xs|
    decreases xs
  {
    if xs == [] then p else Divided(k, Quotient(k, p, xs[0]), xs[1..])
  }

  /** The remainder of that division. */
  function Remainder<F>(k: Field<F>, p: seq<F>, xs: seq<F>): (r: seq<F>)
    requires |xs| <= |p|
    ensures |r| == |xs|
    decreases xs
  {
    if xs == [] then []
    else
      var rest := Remainder(k, Quotient(k, p, xs[0]), xs[1..]);
      Sum(k, TimesRoot(k, rest, xs[0]), [Eval(k, p, xs[0])] + Zeros(k, |rest|))
  }

  lemma EvalConstant<F(!new)>(k: Field<F>, c: F, n: nat, a: F)
    requires IsField(k)
    ensures Eval(k, [c] + Zeros(k, n), a) == c
  {
    EvalPadded(k, [c], n, a);
    MulZero(k, a);
    Unit(k, c);
  }

  /** p == (the product of x - r over xs) * Divided(p, xs) + Remainder(p, xs), as values. */
  lemma {:induction false} EvalDivided<F(!new)>(k: Field<F>, p: seq<F>, xs: seq<F>, a: F)
    requires IsField(k) && |xs| <= |p|
    ensures Eval(k, p, a)
         == k.add(k.mul(Differences(k, a, xs), Eval(k, Divided(k, p, xs), a)), Eval(k, Remainder(k, p, xs), a))
    decreases xs
  {
    if xs == [] {
      Unit(k, Eval(k, p, a));
    } else {
      var q := Quotient(k, p, xs[0]);
      var rest := Remainder(k, q, xs[1..]);
      EvalQuotient(k, p, xs[0], a);
      EvalDivided(k, q, xs[1..], a);
      EvalTimesRoot(k, rest, xs[0], a);
      EvalConstant(k, Eval(k, p, xs[0]), |rest|, a);
      EvalSum(k, TimesRoot(k, rest, xs[0]), [Eval(k, p, xs[0])] + Zeros(k, |rest|), a);
      var d, m := k.add(a, xs[0]), Differences(k, a, xs[1..]);
      var v := Eval(k, Divided(k, q, xs[1..]), a);
      Distribute(k, d, k.mul(m, v), Eval(k, rest, a));
      Associate(k, d, m, v);
      Associate(k, k.mul(d, k.mul(m, v)), k.mul(d, Eval(k, rest, a)), Eval(k, p, xs[0]));
    }
  }

  /** The interpolant of the values of p at xs is the remainder. */
  lemma RemainderInterpolates<F(!new)>(k: Field<F>, p: seq<F>, q: seq<F>, xs: seq<F>)
    requires IsField(k) && Distinct(xs) && |q| == |xs| <= |p|
    requires forall x :: x in xs ==> Eval(k, p, x) == Eval(k, q, x)
    ensures q == Remainder(k, p, xs)
  {
    var r := Remainder(k, p, xs);
    forall x | x in xs
      ensures Eval(k, q, x) == Eval(k, r, x)
    {
      EvalDivided(k, p, xs, x);
      DifferencesZero(k, x, xs);
      MulZero(k, Eval(k, Divided(k, p, xs), x));
      Unit(k, Eval(k, r, x));
    }
    Uniqueness(k, q, r, xs);
  }

  /** Interpolating with too few points gives the right constant exactly if the quotient has none. */
  lemma ConstantIffDivided<F(!new)>(k: Field<F>, p: seq<F>, q: seq<F>, xs: seq<F>)
    requires IsField(k) && Distinct(xs) && k.zero !in xs && 0 < |q| == |xs| < |p|
    requires forall x :: x in xs ==> Eval(k, p, x) == Eval(k, q, x)
    ensures q[0] == p[0] <==> Divided(k, p, xs)[0] == k.zero
  {
    var v := Divided(k, p, xs);
    var m := Differences(k, k.zero, xs);
    RemainderInterpolates(k, p, q, xs);
    EvalDivided(k, p, xs, k.zero);
    EvalAtZero(k, p);
    EvalAtZero(k, q);
    EvalAtZero(k, v);
    DifferencesZero(k, k.zero, xs);
    NoZeroDivisors(k, m, v[0]);
    Cancel(k, q[0], k.mul(m, v[0]));
    Commute(k, q[0], k.mul(m, v[0]));
    Unit(k, q[0]);
    Cancel(k, q[0], p[0]);
    Unit(k, k.mul(m, v[0]));
  }

  lemma {:induction false} QuotientKeepsLeading<F(!new)>(k: Field<F>, p: seq<F>, r: F)
    requires IsField(k) && |p| >= 2
    ensures Quotient(k, p, r)[|p| - 2] == p[|p| - 1]
  {
    if |p| == 2 {
      MulZero(k, r);
      Unit(k, p[1]);
    } else {
      QuotientKeepsLeading(k, p[1..], r);
    }
  }

  lemma {:induction false} DividedKeepsLeading<F(!new)>(k: Field<F>, p: seq<F>, xs: seq<F>)
    requires IsField(k) && |xs| < |p|
    ensures Divided(k, p, xs)[|p| - |xs| - 1] == p[|p| - 1]
    decreases xs
  {
    if xs != [] {
      var q := Quotient(k, p, xs[0]);
      QuotientKeepsLeading(k, p, xs[0]);
      DividedKeepsLeading(k, q, xs[1..]);
      assert Divided(k, p, xs) == Divided(k, q, xs[1..]) && |q| == |p| - 1;
    }
  }

  /** With one point too few, the right constant comes out exactly if there is no leading term. */
  lemma ConstantIffNoLeading<F(!new)>(k: Field<F>, p: seq<F>, q: seq<F>, xs: seq<F>)
    requires IsField(k) && Distinct(xs) && k.zero !in xs && xs != []
    requires |p| == |xs| + 1 && |q| == |xs|
    requires forall x :: x in xs ==> Eval(k, p, x) == Eval(k, q, x)
    ensures q[0] == p[0] <==> p[|xs|] == k.zero
  {
    ConstantIffDivided(k, p, q, xs);
    DividedKeepsLeading(k, p, xs);
  }

  /** Leaving out one of two equal roots loses no root. */
  lemma RepeatedRoot<F(!new)>(k: Field<F>, xs: seq<F>, i: nat, j: nat)
    requires IsField(k) && i < j < |xs| && xs[i] == xs[j]
    ensures forall x :: x in xs ==> Eval(k, FromRoots(k, Others(xs, j)), x) == k.zero
    ensures k.zero !in xs ==> FromRoots(k, Others(xs, j))[0] != k.zero
  {
    var roots := Others(xs, j);
    forall x | x in xs
      ensures Eval(k, FromRoots(k, roots), x) == k.zero
    {
      var t :| 0 <= t < |xs| && xs[t] == x;
      assert x == roots[if t < j then t else if t == j then i else t - 1];
      EvalFromRoots(k, roots, x);
      DifferencesZero(k, x, roots);
    }
    EvalAtZero(k, FromRoots(k, roots));
    EvalFromRoots(k, roots, k.zero);
    DifferencesZero(k, k.zero, roots);
  }

  lemma {:induction false} LagrangeOfZeros<F(!new)>(k: Field<F>, xs: seq<F>, ys: seq<F>, a: F, n: nat)
    requires IsField(k) && |xs| == |ys| && n <= |xs| && forall i :: 0 <= i < n ==> ys[i] == k.zero
    ensures Lagrange(k, xs, ys, a, n) == k.zero
  {
    if n > 0 {
      LagrangeOfZeros(k, xs, ys, a, n - 1);
      MulZero(k, Weight(k, xs, n - 1, a));
      Unit(k, k.zero);
    }
  }
}
