/** What splitting and combining promise. */
module ShamirTheorems {
  import opened BinaryFields
  import opened Gf256
  import opened Polynomials
  import opened Results
  import opened Shamir

  /** The shares that interpolation is defined for. */
  ghost predicate Combinable(shares: seq<Share>) {
    |shares| >= 2 && LongEnough(shares) && Distinct(Indices(shares))
  }

  ghost predicate ThroughColumn(p: seq<Byte>, shares: seq<Share>, j: nat)
    requires LongEnough(shares) && shares != [] && j < |shares[0].value|
  {
    PassesThrough(GF256, p, Indices(shares), Column(shares, j))
  }

  /** Byte j of the result is P(0) for the one polynomial P of degree below |shares| through the shares. */
  lemma CombineInterpolates(shares: seq<Share>, j: nat) returns (p: seq<Byte>)
    requires Combinable(shares) && j < |shares[0].value|
    ensures |p| == |shares| && ThroughColumn(p, shares, j)
    ensures forall q: seq<Byte> :: |q| == |shares| && ThroughColumn(q, shares, j) ==> q == p
    ensures Combined(shares).Ok? && |Combined(shares).value| == |shares[0].value|
    ensures Combined(shares).value[j] == p[0]
  {
    var xs, ys := Indices(shares), Column(shares, j);
    Gf256IsField();
    p := Interpolant(GF256, xs, ys, |xs|);
    forall q: seq<Byte> | |q| == |shares|
      ensures PassesThrough(GF256, q, xs, ys) <==> q == p
    {
      InterpolantUnique(GF256, q, xs, ys);
    }
    EvalInterpolant(GF256, xs, ys, |xs|, 0);
    EvalAtZero(GF256, p);
  }

  /** Every polynomial of lower degree through the shares has the combined byte as its constant term. */
  lemma CombineRecovers(shares: seq<Share>, p: seq<Byte>, j: nat)
    requires Combinable(shares) && j < |shares[0].value|
    requires 0 < |p| <= |shares| && ThroughColumn(p, shares, j)
    ensures CombinedByte(shares, j) == p[0]
  {
    Gf256IsField();
    LagrangeInterpolates(GF256, p, Indices(shares), Column(shares, j), 0);
    EvalAtZero(GF256, p);
  }

  lemma OrderIgnoredAt(shares: seq<Share>, reordered: seq<Share>, j: nat)
    requires Combinable(shares) && Combinable(reordered) && |reordered| == |shares|
    requires forall s :: s in reordered ==> s in shares
    requires j < |shares[0].value| && j < |reordered[0].value|
    ensures CombinedByte(reordered, j) == CombinedByte(shares, j)
  {
    var p := CombineInterpolates(shares, j);
    forall i | 0 <= i < |reordered|
      ensures Eval(GF256, p, Indices(reordered)[i]) == Column(reordered, j)[i]
    {
      assert reordered[i] in shares;
      var k :| 0 <= k < |shares| && shares[k] == reordered[i];
      assert Indices(shares)[k] == shares[k].index && Column(shares, j)[k] == shares[k].value[j];
    }
    CombineRecovers(reordered, p, j);
  }

  /** The result does not depend on the order of the shares. */
  lemma CombineIgnoresOrder(shares: seq<Share>, reordered: seq<Share>)
    requires Combinable(shares) && Combinable(reordered) && |reordered| == |shares|
    requires forall s :: s in reordered ==> s in shares
    requires forall s :: s in shares ==> |s.value| == |shares[0].value|
    ensures Combined(reordered) == Combined(shares)
  {
    assert reordered[0] in shares;
    forall j | 0 <= j < |shares[0].value|
      ensures CombinedByte(reordered, j) == CombinedByte(shares, j)
    {
      OrderIgnoredAt(shares, reordered, j);
    }
    assert Combined(reordered).value == Combined(shares).value;
  }

  // Splitting and combining.

  lemma {:induction false} IndexValue(i: nat)
    requires i < 255
    ensures IndexOf(i) as int == i + 1
  {
    if i > 0 {
      IndexValue(i - 1);
    }
  }

  lemma IndexDistinct(i: nat, k: nat)
    requires i < 255 && k < 255
    ensures IndexOf(i) != 0 && (IndexOf(i) == IndexOf(k) ==> i == k)
  {
    IndexValue(i);
    IndexValue(k);
  }

  ghost predicate ValidPicks(picks: seq<nat>, n: nat) {
    Distinct(picks) && forall i :: 0 <= i < |picks| ==> picks[i] < n
  }

  /** Some of the shares, in any order. */
  function Pick(shares: seq<Share>, picks: seq<nat>): (r: seq<Share>)
    requires forall i :: 0 <= i < |picks| ==> picks[i] < |shares|
    ensures |r| == |picks|
    ensures forall i :: 0 <= i < |r| ==> r[i] == shares[picks[i]]
  {
    seq(|picks|, i requires 0 <= i < |picks| => shares[picks[i]])
  }

  /** The polynomials that split the secret with threshold m. */
  ghost predicate Hides(ps: seq<seq<Byte>>, secret: seq<Byte>, m: nat) {
    |ps| == |secret| && forall j :: 0 <= j < |ps| ==> |ps[j]| == m && m > 0 && ps[j][0] == secret[j]
  }

  lemma SplitHides(secret: seq<Byte>, n: nat, m: nat, draws: Draws)
    requires ValidParameters(n, m) && DrawsFor(draws, |secret|, m) && AllDelivered(draws)
    ensures Hides(PolynomialsFor(secret, draws), secret, m)
  {
  }

  lemma PickCombinable(ps: seq<seq<Byte>>, n: nat, picks: seq<nat>)
    requires n <= 255 && |picks| >= 2 && ValidPicks(picks, n)
    ensures Combinable(Pick(SharesOf(ps, n), picks))
  {
    var shares := Pick(SharesOf(ps, n), picks);
    forall i, k | 0 <= i < k < |shares|
      ensures Indices(shares)[i] != Indices(shares)[k]
    {
      IndexDistinct(picks[i], picks[k]);
    }
  }

  /** Any m or more shares of a split secret, in any order, give it back. */
  lemma SplitCombine(secret: seq<Byte>, ps: seq<seq<Byte>>, n: nat, m: nat, picks: seq<nat>)
    requires ValidParameters(n, m) && Hides(ps, secret, m)
    requires |picks| >= m && ValidPicks(picks, n)
    ensures Combined(Pick(SharesOf(ps, n), picks)) == Ok(secret)
  {
    var shares := Pick(SharesOf(ps, n), picks);
    PickCombinable(ps, n, picks);
    forall j | 0 <= j < |secret|
      ensures CombinedByte(shares, j) == secret[j]
    {
      CombineRecovers(shares, ps[j], j);
    }
    assert Combined(shares).value == secret;
  }

  // Fewer shares than the threshold.

  /** The polynomials of length m that hide the byte and have the given values. */
  ghost predicate Fits(p: seq<Byte>, m: nat, byte: Byte, xs: seq<Byte>, ys: seq<Byte>) {
    |p| == m && m > 0 && p[0] == byte && |xs| == |ys| && PassesThrough(GF256, p, xs, ys)
  }

  lemma FitsIsThroughZero(p: seq<Byte>, m: nat, byte: Byte, xs: seq<Byte>, ys: seq<Byte>)
    requires |xs| == |ys| && |p| == m && m > 0
    ensures Fits(p, m, byte, xs, ys) <==> PassesThrough(GF256, p, [0] + xs, [byte] + ys)
  {
    Gf256IsField();
    EvalAtZero(GF256, p);
    var xs', ys' := [0] + xs, [byte] + ys;
    if PassesThrough(GF256, p, xs', ys') {
      forall i | 0 <= i < |xs|
        ensures Eval(GF256, p, xs[i]) == ys[i]
      {
        assert xs'[i + 1] == xs[i] && ys'[i + 1] == ys[i];
      }
      assert xs'[0] == 0 && ys'[0] == byte;
    }
  }

  /** Perfect secrecy: whatever m - 1 shares show, every secret byte fits them, in exactly one way. */
  lemma PerfectSecrecy(m: nat, byte: Byte, xs: seq<Byte>, ys: seq<Byte>) returns (p: seq<Byte>)
    requires m >= 2 && |xs| == |ys| == m - 1 && Distinct(xs) && 0 !in xs
    ensures forall q: seq<Byte> :: Fits(q, m, byte, xs, ys) <==> q == p
  {
    Gf256IsField();
    var xs', ys' := [0] + xs, [byte] + ys;
    p := Interpolant(GF256, xs', ys', m);
    forall q: seq<Byte>
      ensures Fits(q, m, byte, xs, ys) <==> q == p
    {
      if |q| == m {
        InterpolantUnique(GF256, q, xs', ys');
        FitsIsThroughZero(q, m, byte, xs, ys);
      }
    }
  }

  /** The polynomial of length m that is 1 at 0 and 0 at each of xs. */
  function Mask(m: nat, xs: seq<Byte>): (p: seq<Byte>)
    requires |xs| < m
    ensures |p| == m
  {
    Scale(GF256, Inverse(Differences(GF256, 0, xs)), FromRoots(GF256, xs)) + Zeros(GF256, m - 1 - |xs|)
  }

  lemma EvalMask(m: nat, xs: seq<Byte>, a: Byte)
    requires |xs| < m && 0 !in xs
    ensures a in xs ==> Eval(GF256, Mask(m, xs), a) == 0
    ensures a == 0 ==> Eval(GF256, Mask(m, xs), a) == 1
  {
    Gf256IsField();
    var d := Differences(GF256, 0, xs);
    var c := GF256.inv(d);
    EvalPadded(GF256, Scale(GF256, c, FromRoots(GF256, xs)), m - 1 - |xs|, a);
    EvalScale(GF256, c, FromRoots(GF256, xs), a);
    EvalFromRoots(GF256, xs, a);
    DifferencesZero(GF256, a, xs);
    DifferencesZero(GF256, 0, xs);
    MulZero(GF256, c);
    Unit(GF256, d);
  }

  /** Turns a polynomial that hides one byte into one that hides another, without changing the shares at xs. */
  function Rehide(p: seq<Byte>, from: Byte, to: Byte, xs: seq<Byte>): (q: seq<Byte>)
    requires |xs| < |p|
    ensures |q| == |p|
  {
    Sum(GF256, p, Scale(GF256, GF256.add(from, to), Mask(|p|, xs)))
  }

  lemma {:induction false} SumTwice<F(!new)>(k: Field<F>, p: seq<F>, q: seq<F>)
    requires IsField(k) && |p| == |q|
    ensures Sum(k, Sum(k, p, q), q) == p
  {
    if p != [] {
      SumTwice(k, p[1..], q[1..]);
      assert Sum(k, p, q)[1..] == Sum(k, p[1..], q[1..]);
      Associate(k, p[0], q[0], q[0]);
      Unit(k, q[0]);
      Unit(k, p[0]);
    }
  }

  /**
   * Fewer than m shares fit every secret byte equally often: Rehide is its own inverse
   * and matches the polynomials that hide one byte with those that hide the other.
   */
  lemma EquallyOften(m: nat, from: Byte, to: Byte, xs: seq<Byte>, ys: seq<Byte>, p: seq<Byte>)
    requires |xs| < m && 0 !in xs
    requires Fits(p, m, from, xs, ys)
    ensures Fits(Rehide(p, from, to, xs), m, to, xs, ys)
    ensures Rehide(Rehide(p, from, to, xs), to, from, xs) == p
  {
    Gf256IsField();
    var q := Rehide(p, from, to, xs);
    var c := GF256.add(from, to);
    var mask := Scale(GF256, c, Mask(m, xs));
    Commute(GF256, from, to);
    SumTwice(GF256, p, mask);
    forall i | 0 <= i < |xs|
      ensures Eval(GF256, q, xs[i]) == ys[i]
    {
      EvalSum(GF256, p, mask, xs[i]);
      EvalScale(GF256, c, Mask(m, xs), xs[i]);
      EvalMask(m, xs, xs[i]);
      MulZero(GF256, c);
      Unit(GF256, ys[i]);
    }
    EvalSum(GF256, p, mask, 0);
    EvalScale(GF256, c, Mask(m, xs), 0);
    EvalMask(m, xs, 0);
    Unit(GF256, c);
    EvalAtZero(GF256, p);
    EvalAtZero(GF256, q);
    Cancel(GF256, from, to);
  }

  /** The polynomials of another secret that agree with ps on the picked shares. */
  function RehideAll(ps: seq<seq<Byte>>, from: seq<Byte>, to: seq<Byte>, xs: seq<Byte>): (qs: seq<seq<Byte>>)
    requires |ps| == |from| == |to| && forall j :: 0 <= j < |ps| ==> |xs| < |ps[j]|
    ensures |qs| == |ps|
    ensures forall j :: 0 <= j < |ps| ==> qs[j] == Rehide(ps[j], from[j], to[j], xs)
  {
    seq(|ps|, j requires 0 <= j < |ps| => Rehide(ps[j], from[j], to[j], xs))
  }

  lemma RehideAgrees(m: nat, from: Byte, to: Byte, xs: seq<Byte>, p: seq<Byte>)
    requires |xs| < m && 0 !in xs && |p| == m && p[0] == from
    ensures Rehide(p, from, to, xs)[0] == to
    ensures forall i :: 0 <= i < |xs| ==> Eval(GF256, Rehide(p, from, to, xs), xs[i]) == Eval(GF256, p, xs[i])
  {
    var ys := seq(|xs|, i requires 0 <= i < |xs| => Eval(GF256, p, xs[i]));
    EquallyOften(m, from, to, xs, ys, p);
  }

  lemma PickedIndicesNonzero(ps: seq<seq<Byte>>, n: nat, picks: seq<nat>)
    requires n <= 255 && forall i :: 0 <= i < |picks| ==> picks[i] < n
    ensures 0 !in Indices(Pick(SharesOf(ps, n), picks))
  {
    forall i | 0 <= i < |picks|
      ensures Indices(Pick(SharesOf(ps, n), picks))[i] != 0
    {
      IndexDistinct(picks[i], picks[i]);
    }
  }

  /** Fewer than m shares of one secret are also shares of every other secret of that length. */
  lemma FewSharesHideTheSecret(secret: seq<Byte>, other: seq<Byte>, ps: seq<seq<Byte>>, n: nat, m: nat, picks: seq<nat>)
      returns (qs: seq<seq<Byte>>)
    requires ValidParameters(n, m) && Hides(ps, secret, m) && |other| == |secret|
    requires |picks| < m && ValidPicks(picks, n)
    ensures Hides(qs, other, m)
    ensures Pick(SharesOf(qs, n), picks) == Pick(SharesOf(ps, n), picks)
  {
    var xs := Indices(Pick(SharesOf(ps, n), picks));
    PickedIndicesNonzero(ps, n, picks);
    qs := RehideAll(ps, secret, other, xs);
    forall j | 0 <= j < |secret|
      ensures |qs[j]| == m && qs[j][0] == other[j]
      ensures forall i :: 0 <= i < |xs| ==> Eval(GF256, qs[j], xs[i]) == Eval(GF256, ps[j], xs[i])
    {
      RehideAgrees(m, secret[j], other[j], xs, ps[j]);
    }
    forall i | 0 <= i < |picks|
      ensures Pick(SharesOf(qs, n), picks)[i] == Pick(SharesOf(ps, n), picks)[i]
    {
      assert xs[i] == IndexOf(picks[i]);
      assert Values(qs, xs[i]) == Values(ps, xs[i]);
    }
  }

  // When fewer shares than the threshold give the secret back after all.

  lemma TooFewSharesByte(p: seq<Byte>, shares: seq<Share>, j: nat)
    requires Combinable(shares) && j < |shares[0].value| && 0 !in Indices(shares)
    requires |p| > |shares| && ThroughColumn(p, shares, j)
    ensures CombinedByte(shares, j) == p[0] <==> Divided(GF256, p, Indices(shares))[0] == 0
  {
    Gf256IsField();
    var q := CombineInterpolates(shares, j);
    forall x | x in Indices(shares)
      ensures Eval(GF256, p, x) == Eval(GF256, q, x)
    {
      var i :| 0 <= i < |shares| && Indices(shares)[i] == x;
    }
    ConstantIffDivided(GF256, p, q, Indices(shares));
  }

  /** Every polynomial, divided by the product of x - r over the indices r, has the constant term zero. */
  ghost predicate NoConstantLeft(ps: seq<seq<Byte>>, xs: seq<Byte>)
    requires forall j :: 0 <= j < |ps| ==> |xs| < |ps[j]|
  {
    forall j :: 0 <= j < |ps| ==> Divided(GF256, ps[j], xs)[0] == 0
  }

  lemma TooFewSharesRecover(secret: seq<Byte>, ps: seq<seq<Byte>>, n: nat, m: nat, picks: seq<nat>, j: nat)
    requires ValidParameters(n, m) && Hides(ps, secret, m) && j < |secret|
    requires 2 <= |picks| < m && ValidPicks(picks, n)
    ensures var shares := Pick(SharesOf(ps, n), picks);
            && LongEnough(shares) && j < |shares[0].value|
            && (CombinedByte(shares, j) == secret[j] <==> Divided(GF256, ps[j], Indices(shares))[0] == 0)
  {
    PickCombinable(ps, n, picks);
    PickedIndicesNonzero(ps, n, picks);
    TooFewSharesByte(ps[j], Pick(SharesOf(ps, n), picks), j);
  }

  /**
   * Any number of shares below the threshold: less than two are refused, and more give the secret back exactly
   * if no constant is left.
   */
  lemma TooFewSharesRecoverIff(secret: seq<Byte>, ps: seq<seq<Byte>>, n: nat, m: nat, picks: seq<nat>)
    requires ValidParameters(n, m) && Hides(ps, secret, m)
    requires |picks| < m && ValidPicks(picks, n)
    ensures |picks| < 2 ==> Combined(Pick(SharesOf(ps, n), picks)) == Err(TooFewShares)
    ensures Combined(Pick(SharesOf(ps, n), picks)) == Ok(secret) <==>
              |picks| >= 2 && NoConstantLeft(ps, Indices(Pick(SharesOf(ps, n), picks)))
  {
    var shares := Pick(SharesOf(ps, n), picks);
    if |picks| >= 2 {
      assert LongEnough(shares) && |shares[0].value| == |secret|;
      forall j | 0 <= j < |secret|
        ensures CombinedByte(shares, j) == secret[j] <==> Divided(GF256, ps[j], Indices(shares))[0] == 0
      {
        TooFewSharesRecover(secret, ps, n, m, picks, j);
      }
      var r := Combined(shares).value;
      assert r == secret <==> forall j :: 0 <= j < |secret| ==> r[j] == secret[j];
    }
  }

  lemma NoConstantIffNoLeading(ps: seq<seq<Byte>>, m: nat, xs: seq<Byte>)
    requires |xs| == m - 1 && forall j :: 0 <= j < |ps| ==> |ps[j]| == m
    ensures NoConstantLeft(ps, xs) <==> forall j :: 0 <= j < |ps| ==> ps[j][m - 1] == 0
  {
    Gf256IsField();
    forall j | 0 <= j < |ps|
      ensures Divided(GF256, ps[j], xs)[0] == ps[j][m - 1]
    {
      DividedKeepsLeading(GF256, ps[j], xs);
    }
  }

  /** m - 1 shares give the secret back exactly if m is not 2 and every leading coefficient happens to be zero. */
  lemma OneShareShort(secret: seq<Byte>, ps: seq<seq<Byte>>, n: nat, m: nat, picks: seq<nat>)
    requires ValidParameters(n, m) && Hides(ps, secret, m)
    requires |picks| == m - 1 && ValidPicks(picks, n)
    ensures Combined(Pick(SharesOf(ps, n), picks)) == Ok(secret) <==>
              m > 2 && forall j :: 0 <= j < |ps| ==> ps[j][m - 1] == 0
  {
    TooFewSharesRecoverIff(secret, ps, n, m, picks);
    NoConstantIffNoLeading(ps, m, Indices(Pick(SharesOf(ps, n), picks)));
  }

  /** So for every secret there are draws with which one share too few gives it back. */
  lemma OneShareShortCanRecover(secret: seq<Byte>, n: nat, m: nat, picks: seq<nat>) returns (ps: seq<seq<Byte>>)
    requires ValidParameters(n, m) && m > 2 && |picks| == m - 1 && ValidPicks(picks, n)
    ensures Hides(ps, secret, m) && Combined(Pick(SharesOf(ps, n), picks)) == Ok(secret)
  {
    ps := seq(|secret|, j requires 0 <= j < |secret| => [secret[j]] + seq(m - 1, _ => 0));
    OneShareShort(secret, ps, n, m, picks);
  }
}
