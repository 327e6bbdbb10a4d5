/** Combining does not depend on the order of the shares, whether or not some are repeated. */
module ShareOrder {
  import opened BinaryFields
  import opened Gf256
  import opened Permutations
  import opened Polynomials
  import opened Results
  import opened Shamir

  /** Positions t and t + 1 change places. */
  function Swapped<T>(s: seq<T>, t: nat): (r: seq<T>)
    requires t + 1 < |s|
    ensures |r| == |s|
    ensures forall i :: 0 <= i < |r| ==> r[i] == s[Moved(i, t)]
  {
    s[..t] + [s[t + 1], s[t]] + s[t + 2..]
  }

  function Moved(i: nat, t: nat): nat {
    if i == t then t + 1 else if i == t + 1 then t else i
  }

  lemma {:induction false} DifferencesSwapped<F(!new)>(k: Field<F>, b: F, xs: seq<F>, t: nat)
    requires IsField(k) && t + 1 < |xs|
    ensures Differences(k, b, Swapped(xs, t)) == Differences(k, b, xs)
    decreases t
  {
    var swapped := Swapped(xs, t);
    if t == 0 {
      var rest := xs[2..];
      assert xs[1..] == [xs[1]] + rest && swapped[1..] == [xs[0]] + rest;
      assert ([xs[1]] + rest)[1..] == rest && ([xs[0]] + rest)[1..] == rest;
      BinaryFields.MulSwap(k, k.add(b, xs[0]), k.add(b, xs[1]), Differences(k, b, rest));
    } else {
      DifferencesSwapped(k, b, xs[1..], t - 1);
      assert swapped[1..] == Swapped(xs[1..], t - 1);
    }
  }

  // Leaving one out of the swapped elements.

  lemma OthersBefore<T>(xs: seq<T>, t: nat, i: nat)
    requires i < t && t + 1 < |xs|
    ensures Others(Swapped(xs, t), i) == Swapped(Others(xs, i), t - 1)
  {
  }

  lemma OthersHere<T>(xs: seq<T>, t: nat, i: nat)
    requires t + 1 < |xs| && (i == t || i == t + 1)
    ensures Others(Swapped(xs, t), i) == Others(xs, Moved(i, t))
  {
    var swapped := Swapped(xs, t);
    assert swapped[..t] == xs[..t] && swapped[t + 2..] == xs[t + 2..];
    assert Others(swapped, i) == xs[..t] + [xs[i]] + xs[t + 2..];
  }

  lemma OthersBehind<T>(xs: seq<T>, t: nat, i: nat)
    requires t + 1 < i < |xs|
    ensures Others(Swapped(xs, t), i) == Swapped(Others(xs, i), t)
  {
  }

  lemma WeightSwapped<F(!new)>(k: Field<F>, xs: seq<F>, t: nat, i: nat, a: F)
    requires IsField(k) && t + 1 < |xs| && i < |xs|
    ensures Weight(k, Swapped(xs, t), i, a) == Weight(k, xs, Moved(i, t), a)
  {
    assert Swapped(xs, t)[i] == xs[Moved(i, t)];
    if i < t {
      OthersBefore(xs, t, i);
      DifferencesSwapped(k, a, Others(xs, i), t - 1);
      DifferencesSwapped(k, xs[i], Others(xs, i), t - 1);
    } else if i <= t + 1 {
      OthersHere(xs, t, i);
    } else {
      OthersBehind(xs, t, i);
      DifferencesSwapped(k, a, Others(xs, i), t);
      DifferencesSwapped(k, xs[i], Others(xs, i), t);
    }
  }

  lemma LagrangeStep<F>(k: Field<F>, xs: seq<F>, ys: seq<F>, a: F, n: nat)
    requires |xs| == |ys| && n < |xs|
    ensures Lagrange(k, xs, ys, a, n + 1) == k.add(Lagrange(k, xs, ys, a, n), k.mul(ys[n], Weight(k, xs, n, a)))
  {
  }

  /** The sum of the two terms that have changed places. */
  lemma LagrangeOver<F(!new)>(k: Field<F>, xs: seq<F>, ys: seq<F>, a: F, t: nat)
    requires IsField(k) && |xs| == |ys| && t + 1 < |xs|
    requires Lagrange(k, Swapped(xs, t), Swapped(ys, t), a, t) == Lagrange(k, xs, ys, a, t)
    ensures Lagrange(k, Swapped(xs, t), Swapped(ys, t), a, t + 2) == Lagrange(k, xs, ys, a, t + 2)
  {
    var xs', ys', sum := Swapped(xs, t), Swapped(ys, t), Lagrange(k, xs, ys, a, t);
    var p, q := k.mul(ys[t], Weight(k, xs, t, a)), k.mul(ys[t + 1], Weight(k, xs, t + 1, a));
    WeightSwapped(k, xs, t, t, a);
    WeightSwapped(k, xs, t, t + 1, a);
    LagrangeStep(k, xs, ys, a, t);
    LagrangeStep(k, xs, ys, a, t + 1);
    LagrangeStep(k, xs', ys', a, t);
    LagrangeStep(k, xs', ys', a, t + 1);
    Associate(k, sum, p, q);
    Associate(k, sum, q, p);
    Commute(k, p, q);
  }

  /** Sums that agree after m terms go on to agree where their terms do. */
  lemma {:induction false} SameTerms<F>(
      k: Field<F>, xs: seq<F>, ys: seq<F>, xs': seq<F>, ys': seq<F>, a: F, m: nat, n: nat)
    requires |xs| == |ys| == |xs'| == |ys'| && m <= n <= |xs|
    requires forall i :: m <= i < n ==> ys'[i] == ys[i] && Weight(k, xs', i, a) == Weight(k, xs, i, a)
    requires Lagrange(k, xs', ys', a, m) == Lagrange(k, xs, ys, a, m)
    ensures Lagrange(k, xs', ys', a, n) == Lagrange(k, xs, ys, a, n)
    decreases n
  {
    if m < n {
      SameTerms(k, xs, ys, xs', ys', a, m, n - 1);
    }
  }

  lemma SameWeight<F(!new)>(k: Field<F>, xs: seq<F>, ys: seq<F>, a: F, t: nat, i: nat)
    requires IsField(k) && |xs| == |ys| && t + 1 < |xs| && i < |xs| && i != t && i != t + 1
    ensures Swapped(ys, t)[i] == ys[i] && Weight(k, Swapped(xs, t), i, a) == Weight(k, xs, i, a)
  {
    WeightSwapped(k, xs, t, i, a);
  }

  lemma LagrangeSwapped<F(!new)>(k: Field<F>, xs: seq<F>, ys: seq<F>, a: F, t: nat)
    requires IsField(k) && |xs| == |ys| && t + 1 < |xs|
    ensures Lagrange(k, Swapped(xs, t), Swapped(ys, t), a, |xs|) == Lagrange(k, xs, ys, a, |xs|)
  {
    forall i | 0 <= i < |xs| && i != t && i != t + 1
      ensures Swapped(ys, t)[i] == ys[i] && Weight(k, Swapped(xs, t), i, a) == Weight(k, xs, i, a)
    {
      SameWeight(k, xs, ys, a, t, i);
    }
    SameTerms(k, xs, ys, Swapped(xs, t), Swapped(ys, t), a, 0, t);
    LagrangeOver(k, xs, ys, a, t);
    SameTerms(k, xs, ys, Swapped(xs, t), Swapped(ys, t), a, t + 2, |xs|);
  }

  /** Byte j of every share, if it has one. */
  function Bytes(shares: seq<Share>, j: nat): (ys: seq<Byte>)
    ensures |ys| == |shares|
    ensures forall i :: 0 <= i < |ys| ==> ys[i] == if j < |shares[i].value| then shares[i].value[j] else 0
  {
    seq(|shares|, i requires 0 <= i < |shares| => if j < |shares[i].value| then shares[i].value[j] else 0)
  }

  function ByteOf(shares: seq<Share>, j: nat): Byte {
    Lagrange(GF256, Indices(shares), Bytes(shares, j), 0, |shares|)
  }

  lemma ByteSwapped(shares: seq<Share>, j: nat, t: nat)
    requires t + 1 < |shares|
    ensures ByteOf(Swapped(shares, t), j) == ByteOf(shares, j)
  {
    var swapped := Swapped(shares, t);
    Gf256IsField();
    assert Indices(swapped) == Swapped(Indices(shares), t);
    assert Bytes(swapped, j) == Swapped(Bytes(shares, j), t);
    LagrangeSwapped(GF256, Indices(shares), Bytes(shares, j), 0, t);
  }

  /** The element at position k is moved to position i, past those that are there. */
  function MovedTo<T>(s: seq<T>, i: nat, k: nat): seq<T>
    requires i <= k < |s|
  {
    s[..i] + [s[k]] + s[i..k] + s[k + 1..]
  }

  lemma MoveOneFurther<T>(s: seq<T>, i: nat, k: nat)
    requires i < k < |s|
    ensures MovedTo(Swapped(s, k - 1), i, k - 1) == MovedTo(s, i, k)
  {
    var next := Swapped(s, k - 1);
    assert next[..i] == s[..i] && next[i..k - 1] == s[i..k - 1] && next[k..] == [s[k - 1]] + s[k + 1..];
    assert s[i..k] == s[i..k - 1] + [s[k - 1]];
  }

  lemma MoveNowhere<T>(s: seq<T>, i: nat)
    requires i < |s|
    ensures MovedTo(s, i, i) == s
  {
  }

  lemma MoveInto<T>(prefix: seq<T>, b: seq<T>, k: nat)
    requires k < |b|
    ensures MovedTo(prefix + b, |prefix|, |prefix| + k) == (prefix + [b[k]]) + Others(b, k)
  {
    var s, i := prefix + b, |prefix|;
    assert s[..i] == prefix && s[i..i + k] == b[..k] && s[i + k + 1..] == b[k + 1..];
  }

  lemma {:induction false} ByteMoved(shares: seq<Share>, j: nat, i: nat, k: nat)
    requires i <= k < |shares|
    ensures ByteOf(MovedTo(shares, i, k), j) == ByteOf(shares, j)
    decreases k - i
  {
    if i == k {
      MoveNowhere(shares, i);
    } else {
      ByteSwapped(shares, j, k - 1);
      ByteMoved(Swapped(shares, k - 1), j, i, k - 1);
      MoveOneFurther(shares, i, k);
    }
  }

  lemma {:induction false} BytePermuted(prefix: seq<Share>, a: seq<Share>, b: seq<Share>, j: nat)
    requires multiset(a) == multiset(b)
    ensures ByteOf(prefix + a, j) == ByteOf(prefix + b, j)
    decreases |a|
  {
    if a == [] {
      SameElements(a, b);
      assert b == [];
    } else {
      var k := TakeOutSame(a, b);
      ByteMoved(prefix + b, j, |prefix|, |prefix| + k);
      MoveInto(prefix, b, k);
      BytePermuted(prefix + [a[0]], a[1..], Others(b, k), j);
      MoveInto(prefix, a, 0);
      MoveNowhere(prefix + a, |prefix|);
      assert Others(a, 0) == a[1..];
    }
  }

  ghost predicate EquallyLong(shares: seq<Share>) {
    forall s, s' :: s in shares && s' in shares ==> |s.value| == |s'.value|
  }

  lemma ByteIsCombined(shares: seq<Share>, j: nat)
    requires EquallyLong(shares) && shares != [] && j < |shares[0].value|
    ensures LongEnough(shares) && CombinedByte(shares, j) == ByteOf(shares, j)
  {
    assert forall i :: 0 <= i < |shares| ==> shares[i] in shares;
    assert Column(shares, j) == Bytes(shares, j);
  }

  /** Whether or not shares are repeated, equally long shares combine to the same bytes in every order. */
  lemma CombineIgnoresOrder(shares: seq<Share>, reordered: seq<Share>)
    requires EquallyLong(shares) && multiset(reordered) == multiset(shares)
    ensures Combined(reordered) == Combined(shares)
  {
    SameElements(reordered, shares);
    if |shares| >= 2 {
      assert shares[0] in shares && reordered[0] in reordered;
      assert LongEnough(shares) && LongEnough(reordered);
      forall j | 0 <= j < |shares[0].value|
        ensures CombinedByte(reordered, j) == CombinedByte(shares, j)
      {
        ByteIsCombined(shares, j);
        ByteIsCombined(reordered, j);
        BytePermuted([], reordered, shares, j);
        assert [] + reordered == reordered && [] + shares == shares;
      }
      assert Combined(reordered).value == Combined(shares).value;
    }
  }
}
