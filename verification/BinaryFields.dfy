/** Fields of characteristic two, in which adding an element twice undoes the addition. */
module BinaryFields {
  datatype Field<!F> = Field(zero: F, one: F, add: (F, F) -> F, mul: (F, F) -> F, inv: F -> F)

  ghost predicate UnitLaws<F>(k: Field<F>, a: F) {
    && k.add(a, k.zero) == a && k.add(a, a) == k.zero && k.mul(a, k.one) == a
    && (a != k.zero ==> k.mul(a, k.inv(a)) == k.one)
  }

  ghost predicate CommutativeLaws<F>(k: Field<F>, a: F, b: F) {
    k.add(a, b) == k.add(b, a) && k.mul(a, b) == k.mul(b, a)
  }

  ghost predicate TernaryLaws<F>(k: Field<F>, a: F, b: F, c: F) {
    && k.add(k.add(a, b), c) == k.add(a, k.add(b, c))
    && k.mul(k.mul(a, b), c) == k.mul(a, k.mul(b, c))
    && k.mul(a, k.add(b, c)) == k.add(k.mul(a, b), k.mul(a, c))
  }

  /** The laws are named, so that a proof that needs one of them asks for it. */
  ghost predicate IsField<F(!new)>(k: Field<F>) {
    && k.one != k.zero
    && (forall a :: UnitLaws(k, a))
    && (forall a, b :: CommutativeLaws(k, a, b))
    && (forall a, b, c :: TernaryLaws(k, a, b, c))
  }

  lemma Unit<F(!new)>(k: Field<F>, a: F)
    requires IsField(k)
    ensures k.add(a, k.zero) == a && k.add(k.zero, a) == a && k.add(a, a) == k.zero
    ensures k.mul(a, k.one) == a && k.mul(k.one, a) == a
    ensures a != k.zero ==> k.mul(a, k.inv(a)) == k.one && k.mul(k.inv(a), a) == k.one
  {
    assert UnitLaws(k, a);
    assert CommutativeLaws(k, a, k.zero) && CommutativeLaws(k, a, k.one) && CommutativeLaws(k, a, k.inv(a));
  }

  lemma Commute<F(!new)>(k: Field<F>, a: F, b: F)
    requires IsField(k)
    ensures k.add(a, b) == k.add(b, a) && k.mul(a, b) == k.mul(b, a)
  {
    assert CommutativeLaws(k, a, b);
  }

  lemma Associate<F(!new)>(k: Field<F>, a: F, b: F, c: F)
    requires IsField(k)
    ensures k.add(k.add(a, b), c) == k.add(a, k.add(b, c))
    ensures k.mul(k.mul(a, b), c) == k.mul(a, k.mul(b, c))
  {
    assert TernaryLaws(k, a, b, c);
  }

  lemma Distribute<F(!new)>(k: Field<F>, a: F, b: F, c: F)
    requires IsField(k)
    ensures k.mul(a, k.add(b, c)) == k.add(k.mul(a, b), k.mul(a, c))
    ensures k.mul(k.add(b, c), a) == k.add(k.mul(b, a), k.mul(c, a))
  {
    assert TernaryLaws(k, a, b, c);
    assert CommutativeLaws(k, a, k.add(b, c)) && CommutativeLaws(k, a, b) && CommutativeLaws(k, a, c);
  }

  lemma MulZero<F(!new)>(k: Field<F>, a: F)
    requires IsField(k)
    ensures k.mul(a, k.zero) == k.zero && k.mul(k.zero, a) == k.zero
  {
    Unit(k, k.zero);
    Distribute(k, a, k.zero, k.zero);
    Unit(k, k.mul(a, k.zero));
    Commute(k, a, k.zero);
  }

  lemma Cancel<F(!new)>(k: Field<F>, a: F, b: F)
    requires IsField(k)
    ensures k.add(a, k.add(a, b)) == b
    ensures k.add(a, b) == k.zero <==> a == b
  {
    Associate(k, a, a, b);
    Unit(k, a);
    Unit(k, b);
  }

  lemma AddRegroup<F(!new)>(k: Field<F>, a: F, b: F, c: F, d: F)
    requires IsField(k)
    ensures k.add(k.add(a, b), k.add(c, d)) == k.add(k.add(a, c), k.add(b, d))
  {
    Associate(k, a, b, k.add(c, d));
    Associate(k, b, c, d);
    Commute(k, b, c);
    Associate(k, c, b, d);
    Associate(k, a, c, k.add(b, d));
  }

  lemma MulSwap<F(!new)>(k: Field<F>, a: F, b: F, c: F)
    requires IsField(k)
    ensures k.mul(a, k.mul(b, c)) == k.mul(b, k.mul(a, c))
  {
    Associate(k, a, b, c);
    Commute(k, a, b);
    Associate(k, b, a, c);
  }

  lemma NoZeroDivisors<F(!new)>(k: Field<F>, a: F, b: F)
    requires IsField(k)
    ensures k.mul(a, b) == k.zero <==> a == k.zero || b == k.zero
  {
    MulZero(k, a);
    MulZero(k, b);
    Unit(k, a);
    Unit(k, b);
    Associate(k, k.inv(a), a, b);
    MulZero(k, k.inv(a));
  }
}
