/** Shamir's secret sharing over the bytes. */
module Shamir {
  import opened BinaryFields
  import opened Gf256
  import opened Permutations
  import opened Polynomials
  import opened Results

  datatype Share = Share(index: Byte, value: seq<Byte>)

  datatype ShamirError = BadShareCount | BadThreshold | NoRandomness | TooFewShares

  /** What the random source returns for each secret byte: m - 1 coefficients, or a failure. */
  type Draws = seq<Option<seq<Byte>>>

  predicate ValidParameters(n: int, m: int) {
    2 <= m <= n <= 255
  }

  predicate DrawsFor(draws: Draws, length: nat, m: nat) {
    |draws| == length && forall j :: 0 <= j < length ==> draws[j].Some? ==> |draws[j].value| == m - 1
  }

  predicate AllDelivered(draws: Draws) {
    forall j :: 0 <= j < |draws| ==> draws[j].Some?
  }

  /** The polynomial of each secret byte. */
  function PolynomialsFor(secret: seq<Byte>, draws: Draws): (ps: seq<seq<Byte>>)
    requires |draws| == |secret| && AllDelivered(draws)
    ensures |ps| == |secret|
    ensures forall j :: 0 <= j < |ps| ==> ps[j] == [secret[j]] + draws[j].value
  {
    seq(|secret|, j requires 0 <= j < |secret| => [secret[j]] + draws[j].value)
  }

  function Values(ps: seq<seq<Byte>>, x: Byte): (vs: seq<Byte>)
    ensures |vs| == |ps|
    ensures forall j :: 0 <= j < |ps| ==> vs[j] == Eval(GF256, ps[j], x)
  {
    seq(|ps|, j requires 0 <= j < |ps| => Eval(GF256, ps[j], x))
  }

  /** The byte i + 1. */
  function IndexOf(i: nat): Byte
    requires i < 255
  {
    if i == 0 then 1 else IndexOf(i - 1) + 1
  }

  /** The n shares of the secret that the polynomials hide. */
  function SharesOf(ps: seq<seq<Byte>>, n: nat): (shares: seq<Share>)
    requires n <= 255
    ensures |shares| == n
    ensures forall i :: 0 <= i < n ==> shares[i] == Share(IndexOf(i), Values(ps, IndexOf(i)))
  {
    seq(n, i requires 0 <= i < n => Share(IndexOf(i), Values(ps, IndexOf(i))))
  }

  // Splitting.

  lemma HornerUpwards(y: Byte, c: Byte, power: Byte, x: Byte, rest: Byte)
    ensures GF256.add(GF256.add(y, GF256.mul(c, power)), GF256.mul(GF256.mul(power, x), rest))
         == GF256.add(y, GF256.mul(power, GF256.add(c, GF256.mul(x, rest))))
  {
    Gf256IsField();
    FieldHornerUpwards(GF256, y, c, power, x, rest);
  }

  lemma FieldHornerUpwards<F(!new)>(k: Field<F>, y: F, c: F, power: F, x: F, rest: F)
    requires IsField(k)
    ensures k.add(k.add(y, k.mul(c, power)), k.mul(k.mul(power, x), rest))
         == k.add(y, k.mul(power, k.add(c, k.mul(x, rest))))
  {
    Distribute(k, power, c, k.mul(x, rest));
    Commute(k, c, power);
    Associate(k, power, x, rest);
    Associate(k, y, k.mul(c, power), k.mul(power, k.mul(x, rest)));
  }

  method EvaluateAt(coeffs: array<Byte>, x: Byte) returns (y: Byte)
    ensures y == Eval(GF256, coeffs[..], x)
  {
    y := 0;
    var power: Byte := 1;
    ghost var p := coeffs[..];
    ghost var total := Eval(GF256, p, x);
    Gf256IsField();
    Unit(GF256, total);
    for k := 0 to coeffs.Length
      invariant GF256.add(y, GF256.mul(power, Eval(GF256, p[k..], x))) == total
    {
      var c := coeffs[k];
      assert p[k..][1..] == p[k + 1..];
      HornerUpwards(y, c, power, x, Eval(GF256, p[k + 1..], x));
      var term := GfMul(c, power);
      y := Add(y, term);
      power := GfMul(power, x);
    }
    assert p[coeffs.Length..] == [];
    MulZero(GF256, power);
    Unit(GF256, y);
  }

  ghost predicate Buffers(bufs: seq<array<Byte>>, length: nat) {
    && (forall i, k :: 0 <= i < k < |bufs| ==> bufs[i] != bufs[k])
    && (forall i :: 0 <= i < |bufs| ==> bufs[i].Length == length)
  }

  /** Writes byte j of every share. */
  method FillColumn(bufs: seq<array<Byte>>, coeffs: array<Byte>, j: nat, ghost length: nat)
    requires |bufs| <= 255 && Buffers(bufs, length) && j < length
    requires forall i :: 0 <= i < |bufs| ==> bufs[i] != coeffs
    modifies bufs
    ensures forall i :: 0 <= i < |bufs| ==> bufs[i][..] == old(bufs[i][..])[j := Eval(GF256, coeffs[..], IndexOf(i))]
  {
    for i := 0 to |bufs|
      invariant coeffs[..] == old(coeffs[..])
      invariant forall k :: 0 <= k < i ==> bufs[k][..] == old(bufs[k][..])[j := Eval(GF256, coeffs[..], IndexOf(k))]
      invariant forall k :: i <= k < |bufs| ==> bufs[k][..] == old(bufs[k][..])
    {
      bufs[i][j] := EvaluateAt(coeffs, IndexOf(i));
    }
  }

  method NewBuffers(n: nat, length: nat) returns (bufs: seq<array<Byte>>)
    ensures |bufs| == n && Buffers(bufs, length)
    ensures forall i :: 0 <= i < n ==> fresh(bufs[i])
  {
    bufs := [];
    for i := 0 to n
      invariant |bufs| == i && Buffers(bufs, length)
      invariant forall k :: 0 <= k < i ==> fresh(bufs[k])
    {
      var buf := new Byte[length];
      bufs := bufs + [buf];
    }
  }

  method Snapshot(bufs: seq<array<Byte>>) returns (shares: seq<Share>)
    requires |bufs| <= 255
    ensures |shares| == |bufs|
    ensures forall i :: 0 <= i < |bufs| ==> shares[i] == Share(IndexOf(i), bufs[i][..])
  {
    shares := [];
    for i := 0 to |bufs|
      invariant |shares| == i
      invariant forall k :: 0 <= k < i ==> shares[k] == Share(IndexOf(k), bufs[k][..])
    {
      shares := shares + [Share(IndexOf(i), bufs[i][..])];
    }
  }

  /** Splits the secret into n shares, any m of which determine it. */
  method Split(secret: seq<Byte>, n: int, m: int, draws: Draws) returns (r: Outcome<seq<Share>, ShamirError>)
    requires ValidParameters(n, m) ==> DrawsFor(draws, |secret|, m)
    ensures !(2 <= n <= 255) ==> r == Err(BadShareCount)
    ensures 2 <= n <= 255 && !(2 <= m <= n) ==> r == Err(BadThreshold)
    ensures ValidParameters(n, m) && !AllDelivered(draws) ==> r == Err(NoRandomness)
    ensures ValidParameters(n, m) && AllDelivered(draws) ==> r == Ok(SharesOf(PolynomialsFor(secret, draws), n))
  {
    if n < 2 || n > 255 {
      return Err(BadShareCount);
    }
    if m < 2 || m > n {
      return Err(BadThreshold);
    }
    var bufs := NewBuffers(n, |secret|);
    var coeffs := new Byte[m];
    for j := 0 to |secret|
      invariant forall k :: 0 <= k < j ==> draws[k].Some?
      invariant forall i, k :: 0 <= i < n && 0 <= k < j ==>
                  bufs[i][k] == Eval(GF256, [secret[k]] + draws[k].value, IndexOf(i))
    {
      if draws[j].None? {
        return Err(NoRandomness);
      }
      forall k | 1 <= k < m {
        coeffs[k] := draws[j].value[k - 1];
      }
      coeffs[0] := secret[j];
      assert coeffs[..] == [secret[j]] + draws[j].value;
      label before:
      FillColumn(bufs, coeffs, j, |secret|);
      forall i, k | 0 <= i < n && 0 <= k < j + 1
        ensures bufs[i][k] == Eval(GF256, [secret[k]] + draws[k].value, IndexOf(i))
      {
        assert bufs[i][..][k] == if k == j then Eval(GF256, coeffs[..], IndexOf(i)) else old@before(bufs[i][..])[k];
      }
    }
    ghost var ps := PolynomialsFor(secret, draws);
    forall i | 0 <= i < n
      ensures bufs[i][..] == Values(ps, IndexOf(i))
    {
    }
    var shares := Snapshot(bufs);
    assert shares == SharesOf(ps, n);
    return Ok(shares);
  }

  // Combining.

  function Indices(shares: seq<Share>): (xs: seq<Byte>)
    ensures |xs| == |shares|
    ensures forall i :: 0 <= i < |xs| ==> xs[i] == shares[i].index
  {
    seq(|shares|, i requires 0 <= i < |shares| => shares[i].index)
  }

  /** No share is shorter than the first one. */
  predicate LongEnough(shares: seq<Share>) {
    forall i :: 0 <= i < |shares| ==> |shares[0].value| <= |shares[i].value|
  }

  function Column(shares: seq<Share>, j: nat): (ys: seq<Byte>)
    requires LongEnough(shares) && shares != [] && j < |shares[0].value|
    ensures |ys| == |shares|
    ensures forall i :: 0 <= i < |ys| ==> ys[i] == shares[i].value[j]
  {
    seq(|shares|, i requires 0 <= i < |shares| => shares[i].value[j])
  }

  function CombinedByte(shares: seq<Share>, j: nat): Byte
    requires LongEnough(shares) && shares != [] && j < |shares[0].value|
  {
    Lagrange(GF256, Indices(shares), Column(shares, j), 0, |shares|)
  }

  /** Combine as a function; a share shorter than the first one makes the program index out of range. */
  function Combined(shares: seq<Share>): Outcome<seq<Byte>, ShamirError> {
    if |shares| < 2 then Err(TooFewShares)
    else if !LongEnough(shares) then Panic
    else Ok(seq(|shares[0].value|, j requires 0 <= j < |shares[0].value| => CombinedByte(shares, j)))
  }

  /** The elements of xs from position n on, without the one at position i. */
  function Remaining<F>(xs: seq<F>, i: nat, n: nat): seq<F>
    requires i < |xs| && n <= |xs|
  {
    if n <= i then xs[n..i] + xs[i + 1..] else xs[n..]
  }

  /** acc is the product of the factors at the positions before n. */
  ghost predicate PartialProduct<F>(k: Field<F>, xs: seq<F>, i: nat, n: nat, a: F, acc: F)
    requires i < |xs| && n <= |xs|
  {
    k.mul(acc, Differences(k, a, Remaining(xs, i, n))) == Differences(k, a, Others(xs, i))
  }

  lemma NoFactor<F(!new)>(k: Field<F>, xs: seq<F>, i: nat, a: F)
    requires IsField(k) && i < |xs|
    ensures PartialProduct(k, xs, i, 0, a, k.one)
  {
    assert Remaining(xs, i, 0) == Others(xs, i);
    Unit(k, Differences(k, a, Others(xs, i)));
  }

  lemma NextFactor<F(!new)>(k: Field<F>, xs: seq<F>, i: nat, n: nat, a: F, acc: F)
    requires IsField(k) && i < |xs| && n < |xs| && PartialProduct(k, xs, i, n, a, acc)
    ensures PartialProduct(k, xs, i, n + 1, a, if n == i then acc else k.mul(acc, k.add(a, xs[n])))
  {
    var rest := Remaining(xs, i, n + 1);
    if n == i {
      assert Remaining(xs, i, n) == rest;
    } else {
      assert Remaining(xs, i, n) == [xs[n]] + rest;
      Associate(k, acc, k.add(a, xs[n]), Differences(k, a, rest));
    }
  }

  lemma AllFactors<F(!new)>(k: Field<F>, xs: seq<F>, i: nat, a: F, acc: F)
    requires IsField(k) && i < |xs| && PartialProduct(k, xs, i, |xs|, a, acc)
    ensures acc == Differences(k, a, Others(xs, i))
  {
    assert Remaining(xs, i, |xs|) == [];
    Unit(k, acc);
  }

  ghost predicate PartialProducts(xs: seq<Byte>, i: nat, n: nat, num: Byte, den: Byte)
    requires i < |xs| && n <= |xs|
  {
    PartialProduct(GF256, xs, i, n, 0, num) && PartialProduct(GF256, xs, i, n, xs[i], den)
  }

  lemma NextFactors(xs: seq<Byte>, i: nat, n: nat, num: Byte, den: Byte, num': Byte, den': Byte)
    requires i < |xs| && n < |xs| && PartialProducts(xs, i, n, num, den)
    requires num' == (if n == i then num else Mul(num, xs[n]))
    requires den' == (if n == i then den else Mul(den, Add(xs[i], xs[n])))
    ensures PartialProducts(xs, i, n + 1, num', den')
  {
    Gf256IsField();
    Unit(GF256, xs[n]);
    NextFactor(GF256, xs, i, n, 0, num);
    NextFactor(GF256, xs, i, n, xs[i], den);
  }

  /** The numerator and the denominator of the weight of share i. */
  method BasisProducts(shares: seq<Share>, i: nat) returns (num: Byte, den: Byte)
    requires i < |shares|
    ensures num == Differences(GF256, 0, Others(Indices(shares), i))
    ensures den == Differences(GF256, shares[i].index, Others(Indices(shares), i))
  {
    num, den := 1, 1;
    ghost var xs := Indices(shares);
    Gf256IsField();
    NoFactor(GF256, xs, i, 0);
    NoFactor(GF256, xs, i, xs[i]);
    for k := 0 to |shares|
      invariant PartialProducts(xs, i, k, num, den)
    {
      ghost var num0, den0 := num, den;
      if i != k {
        num := GfMul(num, shares[k].index);
        var difference := Add(shares[i].index, shares[k].index);
        den := GfMul(den, difference);
      }
      NextFactors(xs, i, k, num0, den0, num, den);
    }
    AllFactors(GF256, xs, i, 0, num);
    AllFactors(GF256, xs, i, xs[i], den);
  }

  /** The contribution of share i to byte j. */
  method Term(shares: seq<Share>, i: nat, j: nat) returns (term: Byte)
    requires i < |shares| && j < |shares[i].value|
    ensures term == GF256.mul(shares[i].value[j], Weight(GF256, Indices(shares), i, 0))
  {
    var num, den := BasisProducts(shares, i);
    var inv := GfInv(den);
    var weight := GfMul(num, inv);
    assert weight == Weight(GF256, Indices(shares), i, 0);
    term := GfMul(shares[i].value[j], weight);
  }

  /** Adds the contribution of share i to the sum of those before it. */
  method AddTerm(shares: seq<Share>, i: nat, j: nat, sum: Byte) returns (r: Byte)
    requires i < |shares| && j < |shares[i].value|
    ensures LongEnough(shares) && j < |shares[0].value| ==>
              sum == Lagrange(GF256, Indices(shares), Column(shares, j), 0, i) ==>
              r == Lagrange(GF256, Indices(shares), Column(shares, j), 0, i + 1)
  {
    var term := Term(shares, i, j);
    r := Add(sum, term);
    assert r == GF256.add(sum, term);
  }

  /** One byte of the result, or None if a share is too short. */
  method CombineByte(shares: seq<Share>, j: nat) returns (r: Option<Byte>)
    requires shares != []
    ensures r.None? <==> exists i :: 0 <= i < |shares| && |shares[i].value| <= j
    ensures r.Some? && LongEnough(shares) && j < |shares[0].value| ==> r.value == CombinedByte(shares, j)
  {
    ghost var regular := LongEnough(shares) && j < |shares[0].value|;
    var result: Byte := 0;
    for i := 0 to |shares|
      invariant forall t :: 0 <= t < i ==> j < |shares[t].value|
      invariant regular ==> result == Lagrange(GF256, Indices(shares), Column(shares, j), 0, i)
    {
      if j >= |shares[i].value| {
        return None;
      }
      result := AddTerm(shares, i, j, result);
    }
    return Some(result);
  }

  method Combine(shares: seq<Share>) returns (r: Outcome<seq<Byte>, ShamirError>)
    ensures r == Combined(shares)
    ensures |shares| < 2 <==> r == Err(TooFewShares)
    ensures r.Panic? <==> |shares| >= 2 && exists i :: 0 <= i < |shares| && |shares[i].value| < |shares[0].value|
    ensures r.Ok? ==> |r.value| == |shares[0].value|
  {
    if |shares| < 2 {
      return Err(TooFewShares);
    }
    var secretLen := |shares[0].value|;
    var secret := new Byte[secretLen];
    for j := 0 to secretLen
      invariant forall i :: 0 <= i < |shares| ==> j <= |shares[i].value|
      invariant LongEnough(shares) ==> forall t :: 0 <= t < j ==> secret[t] == CombinedByte(shares, t)
    {
      var result := CombineByte(shares, j);
      if result.None? {
        return Panic;
      }
      secret[j] := result.value;
    }
    assert LongEnough(shares);
    assert secret[..] == Combined(shares).value;
    return Ok(secret[..]);
  }
}
