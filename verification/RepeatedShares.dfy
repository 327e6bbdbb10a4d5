/** Which lists of shares, with repetitions, give every secret back. */
module RepeatedShares {
  import opened BinaryFields
  import opened Gf256
  import opened Permutations
  import opened Polynomials
  import opened Results
  import opened Shamir
  import opened ShamirTheorems

  ghost predicate ValidList(picks: seq<nat>, n: nat) {
    forall t :: 0 <= t < |picks| ==> picks[t] < n
  }

  /** The indices of the picked shares. */
  function PickedIndices(n: nat, picks: seq<nat>): (xs: seq<Byte>)
    requires n <= 255 && ValidList(picks, n)
    ensures |xs| == |picks| && forall t :: 0 <= t < |xs| ==> xs[t] == IndexOf(picks[t])
  {
    seq(|picks|, t requires 0 <= t < |picks| => IndexOf(picks[t]))
  }

  ghost predicate AlwaysRecovers(n: nat, m: nat, picks: seq<nat>)
    requires n <= 255 && ValidList(picks, n)
  {
    forall secret: seq<Byte>, ps: seq<seq<Byte>> ::
      Hides(ps, secret, m) ==> Combined(Pick(SharesOf(ps, n), picks)) == Ok(secret)
  }

  /** The values of p at xs, each times the s-th power of the argument. */
  function Shifted<F>(k: Field<F>, p: seq<F>, xs: seq<F>, s: nat): (ys: seq<F>)
    ensures |ys| == |xs|
    ensures forall i :: 0 <= i < |xs| ==> ys[i] == k.mul(Raised(k, xs[i], s), Eval(k, p, xs[i]))
  {
    seq(|xs|, i requires 0 <= i < |xs| => k.mul(Raised(k, xs[i], s), Eval(k, p, xs[i])))
  }

  function Raised<F>(k: Field<F>, x: F, s: nat): F {
    if s == 0 then k.one else k.mul(x, Raised(k, x, s - 1))
  }

  function Powers<F>(k: Field<F>, xs: seq<F>, s: nat): (ys: seq<F>)
    ensures |ys| == |xs| && forall i :: 0 <= i < |xs| ==> ys[i] == Raised(k, xs[i], s)
  {
    seq(|xs|, i requires 0 <= i < |xs| => Raised(k, xs[i], s))
  }

  /** What Lagrange's formula at 0 makes of the values of x^s, whether or not the points are distinct. */
  function Moment<F>(k: Field<F>, xs: seq<F>, s: nat): F {
    Lagrange(k, xs, Powers(k, xs, s), k.zero, |xs|)
  }

  /** The formula gives back the constant of every monomial of degree below m. */
  ghost predicate Balanced<F>(k: Field<F>, xs: seq<F>, m: nat) {
    forall s :: 0 <= s < m ==> Moment(k, xs, s) == if s == 0 then k.one else k.zero
  }

  lemma {:induction false} LagrangeCombines<F(!new)>(
      k: Field<F>, xs: seq<F>, us: seq<F>, c: F, ys: seq<F>, zs: seq<F>, a: F, n: nat)
    requires IsField(k) && |xs| == |us| == |ys| == |zs| && n <= |xs|
    requires forall i :: 0 <= i < n ==> us[i] == k.add(k.mul(c, ys[i]), zs[i])
    ensures Lagrange(k, xs, us, a, n) == k.add(k.mul(c, Lagrange(k, xs, ys, a, n)), Lagrange(k, xs, zs, a, n))
  {
    if n == 0 {
      MulZero(k, c);
      Unit(k, k.zero);
    } else {
      var i := n - 1;
      var w := Weight(k, xs, i, a);
      var y, z := Lagrange(k, xs, ys, a, i), Lagrange(k, xs, zs, a, i);
      LagrangeCombines(k, xs, us, c, ys, zs, a, i);
      Distribute(k, w, k.mul(c, ys[i]), zs[i]);
      Associate(k, c, ys[i], w);
      Distribute(k, c, y, k.mul(ys[i], w));
      BinaryFields.AddRegroup(k, k.mul(c, y), z, k.mul(c, k.mul(ys[i], w)), k.mul(zs[i], w));
    }
  }

  /** x^s * p(x) == p[0] * x^s + x^(s + 1) * p[1..](x) */
  lemma ShiftedStep<F(!new)>(k: Field<F>, p: seq<F>, x: F, s: nat)
    requires IsField(k) && p != []
    ensures k.mul(Raised(k, x, s), Eval(k, p, x))
         == k.add(k.mul(p[0], Raised(k, x, s)), k.mul(Raised(k, x, s + 1), Eval(k, p[1..], x)))
  {
    var r, v := Raised(k, x, s), Eval(k, p[1..], x);
    Distribute(k, r, p[0], k.mul(x, v));
    Commute(k, r, p[0]);
    Associate(k, r, x, v);
    Commute(k, r, x);
  }

  lemma ShiftedLagrange<F(!new)>(k: Field<F>, p: seq<F>, xs: seq<F>, s: nat)
    requires IsField(k) && p != []
    ensures Lagrange(k, xs, Shifted(k, p, xs, s), k.zero, |xs|)
         == k.add(k.mul(p[0], Moment(k, xs, s)), Lagrange(k, xs, Shifted(k, p[1..], xs, s + 1), k.zero, |xs|))
  {
    forall i | 0 <= i < |xs|
      ensures Shifted(k, p, xs, s)[i] == k.add(k.mul(p[0], Powers(k, xs, s)[i]), Shifted(k, p[1..], xs, s + 1)[i])
    {
      ShiftedStep(k, p, xs[i], s);
    }
    LagrangeCombines(k, xs, Shifted(k, p, xs, s), p[0], Powers(k, xs, s), Shifted(k, p[1..], xs, s + 1), k.zero, |xs|);
  }

  /** Where the moments are zero, so is Lagrange's formula. */
  lemma {:induction false} NoMoments<F(!new)>(k: Field<F>, p: seq<F>, xs: seq<F>, s: nat)
    requires IsField(k) && forall t :: s <= t < s + |p| ==> Moment(k, xs, t) == k.zero
    ensures Lagrange(k, xs, Shifted(k, p, xs, s), k.zero, |xs|) == k.zero
    decreases p
  {
    if p == [] {
      forall i | 0 <= i < |xs|
        ensures Shifted(k, p, xs, s)[i] == k.zero
      {
        MulZero(k, Raised(k, xs[i], s));
      }
      LagrangeOfZeros(k, xs, Shifted(k, p, xs, s), k.zero, |xs|);
    } else {
      ShiftedLagrange(k, p, xs, s);
      NoMoments(k, p[1..], xs, s + 1);
      MulZero(k, p[0]);
      Unit(k, k.zero);
    }
  }

  lemma ShiftedByNothing<F(!new)>(k: Field<F>, p: seq<F>, xs: seq<F>, ys: seq<F>)
    requires IsField(k) && |xs| == |ys| && forall i :: 0 <= i < |xs| ==> ys[i] == Eval(k, p, xs[i])
    ensures ys == Shifted(k, p, xs, 0)
  {
    forall i | 0 <= i < |xs|
      ensures ys[i] == Shifted(k, p, xs, 0)[i]
    {
      Unit(k, ys[i]);
    }
  }

  lemma FirstMoment<F(!new)>(k: Field<F>, p: seq<F>, xs: seq<F>)
    requires IsField(k) && p != [] && Balanced(k, xs, |p|)
    ensures Lagrange(k, xs, Shifted(k, p, xs, 0), k.zero, |xs|) == p[0]
  {
    var rest := p[1..];
    assert Moment(k, xs, 0) == k.one;
    NoMoments(k, rest, xs, 1);
    ShiftedLagrange(k, p, xs, 0);
    Unit(k, p[0]);
  }

  lemma BalancedConstant<F(!new)>(k: Field<F>, p: seq<F>, xs: seq<F>, ys: seq<F>)
    requires IsField(k) && p != [] && Balanced(k, xs, |p|) && |xs| == |ys|
    requires forall i :: 0 <= i < |xs| ==> ys[i] == Eval(k, p, xs[i])
    ensures Lagrange(k, xs, ys, k.zero, |xs|) == p[0]
  {
    ShiftedByNothing(k, p, xs, ys);
    FirstMoment(k, p, xs);
  }

  /** x^s as a polynomial with m coefficients. */
  function Monomial<F>(k: Field<F>, s: nat, m: nat): (p: seq<F>)
    requires s < m
    ensures |p| == m && p[0] == if s == 0 then k.one else k.zero
  {
    Zeros(k, s) + ([k.one] + Zeros(k, m - 1 - s))
  }

  lemma MonomialTail<F>(k: Field<F>, s: nat, m: nat)
    requires 0 < s < m
    ensures Monomial(k, s, m)[1..] == Monomial(k, s - 1, m - 1)
  {
  }

  lemma {:induction false} EvalMonomial<F(!new)>(k: Field<F>, s: nat, m: nat, x: F)
    requires IsField(k) && s < m
    ensures Eval(k, Monomial(k, s, m), x) == Raised(k, x, s)
  {
    if s == 0 {
      EvalConstant(k, k.one, m - 1, x);
      assert Monomial(k, s, m) == [k.one] + Zeros(k, m - 1);
    } else {
      EvalMonomial(k, s - 1, m - 1, x);
      MonomialTail(k, s, m);
      Unit(k, Raised(k, x, s));
    }
  }

  lemma MomentOfMonomial<F(!new)>(k: Field<F>, s: nat, m: nat, xs: seq<F>, ys: seq<F>)
    requires IsField(k) && s < m && |xs| == |ys|
    requires forall i :: 0 <= i < |xs| ==> ys[i] == Eval(k, Monomial(k, s, m), xs[i])
    ensures Lagrange(k, xs, ys, k.zero, |xs|) == Moment(k, xs, s)
  {
    forall i | 0 <= i < |xs|
      ensures ys[i] == Powers(k, xs, s)[i]
    {
      EvalMonomial(k, s, m, xs[i]);
    }
    assert ys == Powers(k, xs, s);
  }

  lemma PickedColumn(ps: seq<seq<Byte>>, n: nat, picks: seq<nat>, j: nat)
    requires n <= 255 && |picks| >= 2 && ValidList(picks, n) && j < |ps|
    ensures LongEnough(Pick(SharesOf(ps, n), picks)) && |Pick(SharesOf(ps, n), picks)[0].value| == |ps|
    ensures Indices(Pick(SharesOf(ps, n), picks)) == PickedIndices(n, picks)
    ensures forall i :: 0 <= i < |picks| ==>
              Column(Pick(SharesOf(ps, n), picks), j)[i] == Eval(GF256, ps[j], PickedIndices(n, picks)[i])
  {
  }

  lemma BalancedByte(ps: seq<seq<Byte>>, n: nat, picks: seq<nat>, j: nat)
    requires n <= 255 && |picks| >= 2 && ValidList(picks, n) && j < |ps| && ps[j] != []
    requires Balanced(GF256, PickedIndices(n, picks), |ps[j]|)
    ensures var shares := Pick(SharesOf(ps, n), picks);
            LongEnough(shares) && j < |shares[0].value| && CombinedByte(shares, j) == ps[j][0]
  {
    PickedColumn(ps, n, picks, j);
    Gf256IsField();
    BalancedConstant(GF256, ps[j], PickedIndices(n, picks), Column(Pick(SharesOf(ps, n), picks), j));
  }

  lemma BalancedRecovers(secret: seq<Byte>, ps: seq<seq<Byte>>, n: nat, m: nat, picks: seq<nat>)
    requires ValidParameters(n, m) && ValidList(picks, n) && |picks| >= 2
    requires Balanced(GF256, PickedIndices(n, picks), m) && Hides(ps, secret, m)
    ensures Combined(Pick(SharesOf(ps, n), picks)) == Ok(secret)
  {
    var shares := Pick(SharesOf(ps, n), picks);
    assert LongEnough(shares) && |shares[0].value| == |secret|;
    forall j | 0 <= j < |secret|
      ensures CombinedByte(shares, j) == secret[j]
    {
      BalancedByte(ps, n, picks, j);
    }
    assert Combined(shares).value == secret;
  }

  function ValuesAt(p: seq<Byte>, xs: seq<Byte>): (ys: seq<Byte>)
    ensures |ys| == |xs| && forall i :: 0 <= i < |xs| ==> ys[i] == Eval(GF256, p, xs[i])
  {
    seq(|xs|, i requires 0 <= i < |xs| => Eval(GF256, p, xs[i]))
  }

  /** What combining makes of the shares of one byte. */
  lemma CombinedOneByte(p: seq<Byte>, n: nat, picks: seq<nat>) returns (c: Byte)
    requires n <= 255 && ValidList(picks, n) && |picks| >= 2
    ensures c == Lagrange(GF256, PickedIndices(n, picks), ValuesAt(p, PickedIndices(n, picks)), 0, |picks|)
    ensures Combined(Pick(SharesOf([p], n), picks)) == Ok([c])
  {
    var shares := Pick(SharesOf([p], n), picks);
    PickedColumn([p], n, picks, 0);
    c := CombinedByte(shares, 0);
    assert Column(shares, 0) == ValuesAt(p, PickedIndices(n, picks));
    assert Combined(shares).value == [c];
  }

  lemma CombinedMonomial(n: nat, m: nat, picks: seq<nat>, s: nat)
    requires ValidParameters(n, m) && ValidList(picks, n) && |picks| >= 2 && s < m
    ensures Combined(Pick(SharesOf([Monomial(GF256, s, m)], n), picks))
         == Ok([Moment(GF256, PickedIndices(n, picks), s)])
  {
    var p, xs := Monomial(GF256, s, m), PickedIndices(n, picks);
    var c := CombinedOneByte(p, n, picks);
    Gf256IsField();
    MomentOfMonomial(GF256, s, m, xs, ValuesAt(p, xs));
  }

  lemma RecoveringIsBalanced(n: nat, m: nat, picks: seq<nat>, s: nat)
    requires ValidParameters(n, m) && ValidList(picks, n) && |picks| >= 2 && s < m
    requires AlwaysRecovers(n, m, picks)
    ensures Moment(GF256, PickedIndices(n, picks), s) == if s == 0 then 1 else 0
  {
    var p := Monomial(GF256, s, m);
    assert Hides([p], [p[0]], m);
    CombinedMonomial(n, m, picks, s);
  }

  lemma RecoversFromTwo(n: nat, m: nat, picks: seq<nat>)
    requires ValidParameters(n, m) && ValidList(picks, n) && AlwaysRecovers(n, m, picks)
    ensures |picks| >= 2
  {
    assert Hides([], [], m);
  }

  /**
   * A list of shares, with whatever repetitions, gives every secret back exactly if there are at least two and
   * their indices are balanced, which can be computed before any share is known.
   */
  lemma AlwaysRecoversIff(n: nat, m: nat, picks: seq<nat>)
    requires ValidParameters(n, m) && ValidList(picks, n)
    ensures AlwaysRecovers(n, m, picks) <==> |picks| >= 2 && Balanced(GF256, PickedIndices(n, picks), m)
  {
    if AlwaysRecovers(n, m, picks) {
      RecoversFromTwo(n, m, picks);
      forall s | 0 <= s < m
        ensures Moment(GF256, PickedIndices(n, picks), s) == if s == 0 then 1 else 0
      {
        RecoveringIsBalanced(n, m, picks, s);
      }
    } else if |picks| >= 2 && Balanced(GF256, PickedIndices(n, picks), m) {
      forall secret: seq<Byte>, ps: seq<seq<Byte>> | Hides(ps, secret, m)
        ensures Combined(Pick(SharesOf(ps, n), picks)) == Ok(secret)
      {
        BalancedRecovers(secret, ps, n, m, picks);
      }
    }
  }

  // Lists that do not recover.

  lemma PickedIndexNonzero(n: nat, picks: seq<nat>)
    requires n <= 255 && ValidList(picks, n)
    ensures 0 !in PickedIndices(n, picks)
  {
    forall t | 0 <= t < |picks|
      ensures PickedIndices(n, picks)[t] != 0
    {
      IndexDistinct(picks[t], picks[t]);
    }
  }

  lemma VanishesOn(xs: seq<Byte>, i: nat, k: nat) returns (p: seq<Byte>)
    requires i < k < |xs| && xs[i] == xs[k] && 0 !in xs
    ensures |p| == |xs| && p[0] != 0
    ensures Lagrange(GF256, xs, ValuesAt(p, xs), 0, |xs|) == 0
  {
    Gf256IsField();
    RepeatedRoot(GF256, xs, i, k);
    p := FromRoots(GF256, Others(xs, k));
    forall t | 0 <= t < |xs|
      ensures ValuesAt(p, xs)[t] == 0
    {
      assert xs[t] in xs;
    }
    LagrangeOfZeros(GF256, xs, ValuesAt(p, xs), 0, |xs|);
  }

  /** A repeated share leaves a secret that m shares do not give back. */
  lemma RepeatedShareFails(n: nat, m: nat, picks: seq<nat>, i: nat, k: nat) returns (p: seq<Byte>)
    requires ValidParameters(n, m) && ValidList(picks, n) && |picks| == m
    requires i < k < m && picks[i] == picks[k]
    ensures |p| == m && Hides([p], [p[0]], m)
    ensures Combined(Pick(SharesOf([p], n), picks)) != Ok([p[0]])
  {
    PickedIndexNonzero(n, picks);
    p := VanishesOn(PickedIndices(n, picks), i, k);
    var c := CombinedOneByte(p, n, picks);
  }

  // One share that is in the list twice.

  lemma {:induction false} TakeFactor<F(!new)>(k: Field<F>, a: F, xs: seq<F>, q: nat)
    requires IsField(k) && q < |xs|
    ensures Differences(k, a, xs) == k.mul(k.add(a, xs[q]), Differences(k, a, Others(xs, q)))
    decreases q
  {
    if q == 0 {
      assert Others(xs, 0) == xs[1..];
    } else {
      TakeFactor(k, a, xs[1..], q - 1);
      assert Others(xs, q)[1..] == Others(xs[1..], q - 1);
      BinaryFields.MulSwap(k, k.add(a, xs[0]), k.add(a, xs[q]), Differences(k, a, Others(xs[1..], q - 1)));
    }
  }

  lemma InverseOfProduct<F(!new)>(k: Field<F>, e: F, f: F)
    requires IsField(k) && e != k.zero && f != k.zero
    ensures k.mul(e, k.inv(k.mul(e, f))) == k.inv(f)
  {
    var u, v := k.inv(k.mul(e, f)), k.inv(f);
    NoZeroDivisors(k, e, f);
    Unit(k, k.mul(e, f));
    Unit(k, f);
    // e u == (e u)(f v) == ((e f) u) v == v
    Unit(k, k.mul(e, u));
    Associate(k, k.mul(e, u), f, v);
    Associate(k, e, u, f);
    Commute(k, u, f);
    Associate(k, e, f, u);
    Unit(k, v);
  }

  lemma CancelFactor<F(!new)>(k: Field<F>, d: F, e: F, f: F, num: F)
    requires IsField(k) && e != k.zero && f != k.zero
    ensures k.mul(e, k.mul(k.mul(d, num), k.inv(k.mul(e, f)))) == k.mul(d, k.mul(num, k.inv(f)))
  {
    InverseOfProduct(k, e, f);
    BinaryFields.MulSwap(k, e, k.mul(d, num), k.inv(k.mul(e, f)));
    Associate(k, d, num, k.inv(f));
  }

  /** The index d is at positions i and k, and all other indices are different. */
  ghost predicate Doubled<F>(xs: seq<F>, i: nat, k: nat) {
    i < k < |xs| && xs[i] == xs[k] && Distinct(Others(xs, k))
  }

  /** Where position t of xs is, after the one at k is left out. */
  function Without(t: nat, k: nat): nat
    requires t != k
  {
    if t < k then t else t - 1
  }

  /** Two elements can be left out in either order. */
  lemma OthersTwice<F>(xs: seq<F>, t: nat, k: nat)
    requires t < |xs| && k < |xs| && t != k
    ensures Without(t, k) < |Others(xs, k)| && Others(xs, k)[Without(t, k)] == xs[t]
    ensures Without(k, t) < |Others(xs, t)| && Others(xs, t)[Without(k, t)] == xs[k]
    ensures Others(Others(xs, t), Without(k, t)) == Others(Others(xs, k), Without(t, k))
  {
    if t < k {
      assert Others(Others(xs, t), k - 1) == xs[..t] + xs[t + 1..k] + xs[k + 1..];
      assert Others(Others(xs, k), t) == xs[..t] + xs[t + 1..k] + xs[k + 1..];
    } else {
      assert Others(Others(xs, t), k) == xs[..k] + xs[k + 1..t] + xs[t + 1..];
      assert Others(Others(xs, k), t - 1) == xs[..k] + xs[k + 1..t] + xs[t + 1..];
    }
  }

  lemma DoubledWeight<F(!new)>(f: Field<F>, xs: seq<F>, i: nat, k: nat, t: nat)
    requires IsField(f) && Doubled(xs, i, k) && t < |xs| && t != i && t != k
    ensures f.mul(f.add(xs[t], xs[k]), Weight(f, xs, t, f.zero))
         == f.mul(xs[k], Weight(f, Others(xs, k), Without(t, k), f.zero))
  {
    var d, ts, t' := xs[k], Others(xs, k), Without(t, k);
    var rest := Others(ts, t');
    OthersTwice(xs, t, k);
    TakeFactor(f, f.zero, Others(xs, t), Without(k, t));
    TakeFactor(f, xs[t], Others(xs, t), Without(k, t));
    Unit(f, d);
    OthersTwice(xs, i, k);
    assert ts[Without(i, k)] == d;
    Cancel(f, xs[t], d);
    DifferencesZero(f, xs[t], rest);
    CancelFactor(f, d, f.add(xs[t], d), Differences(f, xs[t], rest), Differences(f, f.zero, rest));
  }

  /** The values of x + d on the list, and those of 1 on the list without one of the two d, except at the other. */
  ghost predicate DoubledValues<F>(f: Field<F>, xs: seq<F>, i: nat, k: nat, ys: seq<F>, zs: seq<F>)
    requires Doubled(xs, i, k)
  {
    && |ys| == |xs| && |zs| == |xs| - 1
    && (forall t :: 0 <= t < |ys| ==> ys[t] == f.add(xs[t], xs[k]))
    && (forall t :: 0 <= t < |zs| ==> zs[t] == if t == i then f.zero else f.one)
  }

  lemma DoubledTerm<F(!new)>(f: Field<F>, xs: seq<F>, i: nat, k: nat, ys: seq<F>, zs: seq<F>, t: nat)
    requires IsField(f) && Doubled(xs, i, k) && DoubledValues(f, xs, i, k, ys, zs) && t < |xs|
    ensures f.mul(ys[t], Weight(f, xs, t, f.zero))
         == if t == k then f.zero
            else f.mul(xs[k], f.mul(zs[Without(t, k)], Weight(f, Others(xs, k), Without(t, k), f.zero)))
  {
    Cancel(f, xs[t], xs[k]);
    MulZero(f, Weight(f, xs, t, f.zero));
    if t != k {
      var w := Weight(f, Others(xs, k), Without(t, k), f.zero);
      MulZero(f, w);
      MulZero(f, xs[k]);
      Unit(f, w);
      if t != i {
        DoubledWeight(f, xs, i, k, t);
      }
    }
  }

  lemma DoubledStep<F(!new)>(f: Field<F>, xs: seq<F>, i: nat, k: nat, ys: seq<F>, zs: seq<F>, t: nat)
    requires IsField(f) && Doubled(xs, i, k) && DoubledValues(f, xs, i, k, ys, zs) && t < |xs| && t != k
    requires Lagrange(f, xs, ys, f.zero, t) == f.mul(xs[k], Lagrange(f, Others(xs, k), zs, f.zero, Without(t, k)))
    ensures Lagrange(f, xs, ys, f.zero, t + 1)
         == f.mul(xs[k], Lagrange(f, Others(xs, k), zs, f.zero, Without(t, k) + 1))
  {
    var ts, t' := Others(xs, k), Without(t, k);
    DoubledTerm(f, xs, i, k, ys, zs, t);
    Distribute(f, xs[k], Lagrange(f, ts, zs, f.zero, t'), f.mul(zs[t'], Weight(f, ts, t', f.zero)));
  }

  lemma DoubledSkip<F(!new)>(f: Field<F>, xs: seq<F>, i: nat, k: nat, ys: seq<F>, zs: seq<F>)
    requires IsField(f) && Doubled(xs, i, k) && DoubledValues(f, xs, i, k, ys, zs)
    ensures Lagrange(f, xs, ys, f.zero, k + 1) == Lagrange(f, xs, ys, f.zero, k)
  {
    DoubledTerm(f, xs, i, k, ys, zs, k);
    Unit(f, Lagrange(f, xs, ys, f.zero, k));
  }

  lemma {:induction false} DoubledLagrange<F(!new)>(
      f: Field<F>, xs: seq<F>, i: nat, k: nat, ys: seq<F>, zs: seq<F>, n: nat)
    requires IsField(f) && Doubled(xs, i, k) && DoubledValues(f, xs, i, k, ys, zs) && n <= |xs|
    ensures n <= k ==> Lagrange(f, xs, ys, f.zero, n) == f.mul(xs[k], Lagrange(f, Others(xs, k), zs, f.zero, n))
    ensures n > k ==> Lagrange(f, xs, ys, f.zero, n) == f.mul(xs[k], Lagrange(f, Others(xs, k), zs, f.zero, n - 1))
    decreases n
  {
    if n == 0 {
      MulZero(f, xs[k]);
    } else {
      DoubledLagrange(f, xs, i, k, ys, zs, n - 1);
      if n - 1 == k {
        DoubledSkip(f, xs, i, k, ys, zs);
      } else {
        DoubledStep(f, xs, i, k, ys, zs, n - 1);
      }
    }
  }

  /** A polynomial that is 1 at 0 and at all points but one is 1 there, too. */
  lemma OneEverywhere<F(!new)>(f: Field<F>, p: seq<F>, ts: seq<F>, i: nat)
    requires IsField(f) && Distinct(ts) && f.zero !in ts && i < |ts| == |p|
    requires Eval(f, p, f.zero) == f.one
    requires forall t :: 0 <= t < |ts| && t != i ==> Eval(f, p, ts[t]) == f.one
    ensures Eval(f, p, ts[i]) == f.one
  {
    var one, nodes := [f.one] + Zeros(f, |ts| - 1), [f.zero] + Others(ts, i);
    forall x | x in nodes
      ensures Eval(f, p, x) == Eval(f, one, x)
    {
      EvalConstant(f, f.one, |ts| - 1, x);
      if x != f.zero {
        var t :| 0 <= t < |ts| && t != i && ts[t] == x;
      }
    }
    Uniqueness(f, p, one, nodes);
    EvalConstant(f, f.one, |ts| - 1, ts[i]);
  }

  /** Values that are 1 at all points but one, where they are 0, do not interpolate to 1 at 0. */
  lemma AllButOne<F(!new)>(f: Field<F>, ts: seq<F>, zs: seq<F>, i: nat)
    requires IsField(f) && Distinct(ts) && f.zero !in ts && i < |ts| == |zs|
    requires forall t :: 0 <= t < |zs| ==> zs[t] == if t == i then f.zero else f.one
    ensures Lagrange(f, ts, zs, f.zero, |ts|) != f.one
  {
    var p := Interpolant(f, ts, zs, |ts|);
    InterpolantPasses(f, ts, zs);
    EvalInterpolant(f, ts, zs, |ts|, f.zero);
    assert Eval(f, p, ts[i]) == zs[i] == f.zero;
    if Lagrange(f, ts, zs, f.zero, |ts|) == f.one {
      OneEverywhere(f, p, ts, i);
    }
  }

  lemma EvalLine<F(!new)>(f: Field<F>, d: F, m: nat, x: F)
    requires IsField(f) && m >= 2
    ensures Eval(f, [d, f.one] + Zeros(f, m - 2), x) == f.add(x, d)
  {
    var p := [d, f.one];
    EvalPadded(f, p, m - 2, x);
    EvalConstant(f, f.one, 0, x);
    assert p[1..] == [f.one] + Zeros(f, 0);
    Unit(f, x);
    Commute(f, d, x);
  }

  lemma MulIsIdentity<F(!new)>(f: Field<F>, d: F, c: F)
    requires IsField(f) && d != f.zero && f.mul(d, c) == d
    ensures c == f.one
  {
    Distribute(f, d, c, f.one);
    Unit(f, d);
    NoZeroDivisors(f, d, f.add(c, f.one));
    Cancel(f, c, f.one);
  }

  /** 1 everywhere but at position i, where it is 0. */
  function AllOnesBut<F>(f: Field<F>, n: nat, i: nat): (zs: seq<F>)
    ensures |zs| == n && forall t :: 0 <= t < n ==> zs[t] == if t == i then f.zero else f.one
  {
    seq(n, t => if t == i then f.zero else f.one)
  }

  lemma DoubledIsMultiple<F(!new)>(f: Field<F>, xs: seq<F>, i: nat, k: nat, ys: seq<F>, zs: seq<F>) returns (c: F)
    requires IsField(f) && Doubled(xs, i, k) && DoubledValues(f, xs, i, k, ys, zs) && f.zero !in xs
    ensures Lagrange(f, xs, ys, f.zero, |xs|) == f.mul(xs[k], c) && c != f.one
  {
    var ts := Others(xs, k);
    c := Lagrange(f, ts, zs, f.zero, |ts|);
    DoubledLagrange(f, xs, i, k, ys, zs, |xs|);
    AllButOne(f, ts, zs, i);
  }

  /** With an index d that is there twice, the polynomial x + d is not given back. */
  lemma DoubledMisses<F(!new)>(f: Field<F>, xs: seq<F>, i: nat, k: nat, ys: seq<F>)
    requires IsField(f) && Doubled(xs, i, k) && f.zero !in xs
    requires |ys| == |xs| && forall t :: 0 <= t < |xs| ==> ys[t] == f.add(xs[t], xs[k])
    ensures Lagrange(f, xs, ys, f.zero, |xs|) != xs[k]
  {
    var c := DoubledIsMultiple(f, xs, i, k, ys, AllOnesBut(f, |xs| - 1, i));
    if f.mul(xs[k], c) == xs[k] {
      MulIsIdentity(f, xs[k], c);
    }
  }

  lemma DoubledIndices(n: nat, picks: seq<nat>, i: nat, k: nat)
    requires n <= 255 && ValidList(picks, n) && Doubled(picks, i, k)
    ensures Doubled(PickedIndices(n, picks), i, k)
  {
    var xs := PickedIndices(n, picks);
    forall a, b | 0 <= a < b < |xs| - 1
      ensures Others(xs, k)[a] != Others(xs, k)[b]
    {
      assert Others(picks, k)[a] != Others(picks, k)[b];
      IndexDistinct(Others(picks, k)[a], Others(picks, k)[b]);
    }
  }

  /** A list, of any length, in which exactly one share is there twice leaves a secret that it does not give back. */
  lemma DoubledShareFails(n: nat, m: nat, picks: seq<nat>, i: nat, k: nat) returns (p: seq<Byte>)
    requires ValidParameters(n, m) && ValidList(picks, n) && Doubled(picks, i, k)
    ensures |p| == m && Hides([p], [p[0]], m)
    ensures Combined(Pick(SharesOf([p], n), picks)) != Ok([p[0]])
  {
    var xs := PickedIndices(n, picks);
    p := [xs[k], GF256.one] + Zeros(GF256, m - 2);
    var c := CombinedOneByte(p, n, picks);
    Gf256IsField();
    PickedIndexNonzero(n, picks);
    DoubledIndices(n, picks, i, k);
    forall t | 0 <= t < |xs|
      ensures ValuesAt(p, xs)[t] == GF256.add(xs[t], xs[k])
    {
      EvalLine(GF256, xs[k], m, xs[t]);
    }
    DoubledMisses(GF256, xs, i, k, ValuesAt(p, xs));
  }

  /** Leaving out a repeated share leaves different ones. */
  ghost predicate AtMostOneTwice(picks: seq<nat>) {
    forall i, k :: 0 <= i < k < |picks| && picks[i] == picks[k] ==> Distinct(Others(picks, k))
  }

  /** m shares, or more of which at most one is there twice, give every secret back exactly if they are different. */
  lemma RecoversIffDistinct(n: nat, m: nat, picks: seq<nat>)
    requires ValidParameters(n, m) && ValidList(picks, n)
    requires |picks| == m || (|picks| > m && AtMostOneTwice(picks))
    ensures AlwaysRecovers(n, m, picks) <==> Distinct(picks)
  {
    if Distinct(picks) {
      forall secret: seq<Byte>, ps: seq<seq<Byte>> | Hides(ps, secret, m)
        ensures Combined(Pick(SharesOf(ps, n), picks)) == Ok(secret)
      {
        SplitCombine(secret, ps, n, m, picks);
      }
    } else {
      var i, k :| 0 <= i < k < |picks| && picks[i] == picks[k];
      var p;
      if |picks| == m {
        p := RepeatedShareFails(n, m, picks, i, k);
      } else {
        p := DoubledShareFails(n, m, picks, i, k);
      }
    }
  }

  // Repetitions that do no harm.

  /** The share 1, three times, and the shares of the two other cube roots of 1. */
  const CUBE_ROOTS: seq<nat> := [0, 0, 0, 187, 188]

  lemma CubeRoots()
    ensures Mul(0xbc, 0xbc) == 0xbd && Mul(0xbd, 0xbd) == 0xbc && Mul(0xbc, 0xbd) == 1
  {
    MulIsSquare(0xbc);
    assert Square(0xbc) == 0xbd;
    MulIsSquare(0xbd);
    assert Square(0xbd) == 0xbc;
    MulAddRight(0xbc, 0xbc, 1);
    MulOneRight(0xbc);
    assert Add(0xbc, 1) == 0xbd && Add(0xbd, 0xbc) == 1;
  }

  lemma CubeRootIndices()
    ensures PickedIndices(255, CUBE_ROOTS) == [0x01, 0x01, 0x01, 0xbc, 0xbd]
  {
    IndexValue(0);
    IndexValue(187);
    IndexValue(188);
  }

  /** A repeated point has no weight. */
  lemma RepeatedWeight(xs: seq<Byte>, i: nat, k: nat)
    requires i < |xs| && k < |xs| && i != k && xs[i] == xs[k]
    ensures Weight(GF256, xs, i, 0) == 0
  {
    Gf256IsField();
    assert Others(xs, i)[Without(k, i)] == xs[k];
    DifferencesZero(GF256, xs[i], Others(xs, i));
    MulZero(GF256, Differences(GF256, 0, Others(xs, i)));
  }

  /** The weight of b next to three times 1 and c, where b and c are the other cube roots of 1. */
  lemma RootWeight(b: Byte, c: Byte, xs: seq<Byte>, i: nat)
    requires i < |xs| && xs[i] == b && Others(xs, i) == [1, 1, 1, c]
    requires Add(b, 1) == c && Add(b, c) == 1 && Mul(c, Mul(c, c)) == 1
    ensures Weight(GF256, xs, i, 0) == c
  {
    ThreeAndOne(0, c);
    ThreeAndOne(b, c);
    MulOneLeft(c);
    MulOneRight(c);
    MulOneRight(1);
    MulInverse(1);
    MulOneLeft(Inverse(1));
  }

  lemma DifferencesCons<F>(f: Field<F>, a: F, x: F, xs: seq<F>)
    ensures Differences(f, a, [x] + xs) == f.mul(f.add(a, x), Differences(f, a, xs))
  {
    assert ([x] + xs)[1..] == xs;
  }

  lemma ThreeAndOne(a: Byte, c: Byte)
    ensures Differences(GF256, a, [1, 1, 1, c]) == Mul(Add(a, 1), Mul(Add(a, 1), Mul(Add(a, 1), Add(a, c))))
  {
    DifferencesCons(GF256, a, c, []);
    DifferencesCons(GF256, a, 1, [c]);
    DifferencesCons(GF256, a, 1, [1, c]);
    DifferencesCons(GF256, a, 1, [1, 1, c]);
    assert [c] == [c] + [] && [1, c] == [1] + [c] && [1, 1, c] == [1] + [1, c] && [1, 1, 1, c] == [1] + [1, 1, c];
    MulOneRight(Add(a, c));
  }

  const ROOT_INDICES: seq<Byte> := [0x01, 0x01, 0x01, 0xbc, 0xbd]

  lemma RepeatedRootWeights()
    ensures forall i :: 0 <= i < 3 ==> Weight(GF256, ROOT_INDICES, i, 0) == 0
  {
    RepeatedWeight(ROOT_INDICES, 0, 1);
    RepeatedWeight(ROOT_INDICES, 1, 2);
    RepeatedWeight(ROOT_INDICES, 2, 0);
  }

  lemma RootWeights()
    ensures Weight(GF256, ROOT_INDICES, 3, 0) == 0xbd && Weight(GF256, ROOT_INDICES, 4, 0) == 0xbc
  {
    CubeRoots();
    MulCommutes(0xbc, 0xbd);
    RootSums();
    RootWeight(0xbc, 0xbd, ROOT_INDICES, 3);
    RootWeight(0xbd, 0xbc, ROOT_INDICES, 4);
  }

  lemma RootSums()
    ensures Add(0xbc, 1) == 0xbd && Add(0xbd, 1) == 0xbc && Add(0xbc, 0xbd) == 1 && Add(0xbd, 0xbc) == 1
  {
  }

  lemma {:induction false} NoWeight<F(!new)>(f: Field<F>, xs: seq<F>, ys: seq<F>, a: F, n: nat)
    requires IsField(f) && |xs| == |ys| && n <= |xs|
    requires forall i :: 0 <= i < n ==> Weight(f, xs, i, a) == f.zero
    ensures Lagrange(f, xs, ys, a, n) == f.zero
  {
    if n > 0 {
      NoWeight(f, xs, ys, a, n - 1);
      MulZero(f, ys[n - 1]);
      Unit(f, f.zero);
    }
  }

  lemma RootLagrange(ys: seq<Byte>)
    requires |ys| == 5
    ensures Lagrange(GF256, ROOT_INDICES, ys, 0, 5) == Add(Mul(ys[3], 0xbd), Mul(ys[4], 0xbc))
  {
    RepeatedRootWeights();
    RootWeights();
    Gf256IsField();
    NoWeight(GF256, ROOT_INDICES, ys, 0, 3);
    Unit(GF256, Mul(ys[3], 0xbd));
  }

  /** Three submissions of one share and two more can give every secret with threshold 2 back. */
  lemma ThreefoldShareRecovers()
    ensures ValidList(CUBE_ROOTS, 255) && !Distinct(CUBE_ROOTS) && AlwaysRecovers(255, 2, CUBE_ROOTS)
  {
    assert CUBE_ROOTS[0] == CUBE_ROOTS[1];
    CubeRootIndices();
    RootMoments();
    AlwaysRecoversIff(255, 2, CUBE_ROOTS);
  }

  lemma RootMoments()
    ensures Balanced(GF256, ROOT_INDICES, 2)
  {
    ZerothMoment();
    FirstRootMoment();
  }

  lemma ZerothMoment()
    ensures Moment(GF256, ROOT_INDICES, 0) == 1
  {
    var ys := Powers(GF256, ROOT_INDICES, 0);
    RootLagrange(ys);
    assert ys[3] == 1 && ys[4] == 1;
    MulOneLeft(0xbd);
    MulOneLeft(0xbc);
    assert Add(0xbd, 0xbc) == 1;
  }

  lemma RaisedOnce<F(!new)>(f: Field<F>, x: F)
    requires IsField(f)
    ensures Raised(f, x, 1) == x
  {
    Unit(f, x);
    assert Raised(f, x, 0) == f.one;
  }

  lemma FirstRootMoment()
    ensures Moment(GF256, ROOT_INDICES, 1) == 0
  {
    var ys := Powers(GF256, ROOT_INDICES, 1);
    RootLagrange(ys);
    Gf256IsField();
    RaisedOnce(GF256, ROOT_INDICES[3]);
    RaisedOnce(GF256, ROOT_INDICES[4]);
    CubeRoots();
    MulCommutes(0xbc, 0xbd);
    assert Add(1, 1) == 0;
  }
}
