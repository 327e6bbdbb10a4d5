/** The carry-less product of bytes, and what the field product has to do with it (section 4.2 of FIPS 197). */
module CarryLessProducts {
  import opened Gf256

  /** Polynomials over GF(2) of degree at most 15, bit i being the coefficient of x^i. */
  type Wide = bv16

  function Plus(a: Wide, b: Wide): Wide {
    a ^ b
  }

  /** The product of a and x. */
  function Shift(a: Wide): Wide {
    a << 1
  }

  /** p plus the polynomial product of a and the low n bits of b, without reduction. */
  function AddCarryLess(p: Wide, a: Wide, b: Byte, n: nat): Wide
    decreases n, a, b, p
  {
    if n == 0 then p
    else AddCarryLess(if b & 1 != 0 then Plus(p, a) else p, Shift(a), b >> 1, n - 1)
  }

  /** a * x + b */
  function Horner(a: Wide, b: Wide): Wide {
    Plus(Shift(a), b)
  }

  /** The product of q and x^8 + x^4 + x^3 + x + 1, by Horner's rule. */
  function TimesModulus(q: Wide): Wide {
    Horner(Horner(Shift(Horner(Horner(Shift(Shift(Shift(q))), q), q)), q), q)
  }

  /**
   * Dividing w gives q, with remainder r: w == q * (x^8 + x^4 + x^3 + x + 1) + r, where q has degree at most 7
   * and so no bit is lost.
   */
  predicate IsDivision(w: Wide, q: Wide, r: Byte) {
    q < 0x100 && w == Plus(TimesModulus(q), r as Wide)
  }

  lemma PlusCommutes(a: Wide, b: Wide)
    ensures Plus(a, b) == Plus(b, a)
  {
  }

  lemma PlusAssociates(a: Wide, b: Wide, c: Wide)
    ensures Plus(Plus(a, b), c) == Plus(a, Plus(b, c))
  {
  }

  lemma PlusRegroup(a: Wide, b: Wide, c: Wide, d: Wide)
    ensures Plus(Plus(a, b), Plus(c, d)) == Plus(Plus(a, c), Plus(b, d))
  {
    PlusAssociates(a, b, Plus(c, d));
    PlusAssociates(b, c, d);
    PlusCommutes(b, c);
    PlusAssociates(c, b, d);
    PlusAssociates(a, c, Plus(b, d));
  }

  lemma ShiftPlus(a: Wide, b: Wide)
    ensures Shift(Plus(a, b)) == Plus(Shift(a), Shift(b))
  {
  }

  lemma HornerPlus(a: Wide, b: Wide, c: Wide, d: Wide)
    ensures Horner(Plus(a, b), Plus(c, d)) == Plus(Horner(a, c), Horner(b, d))
  {
    ShiftPlus(a, b);
    PlusRegroup(Shift(a), Shift(b), c, d);
  }

  lemma TimesModulusPlus(a: Wide, b: Wide)
    ensures TimesModulus(Plus(a, b)) == Plus(TimesModulus(a), TimesModulus(b))
  {
    ShiftPlus(a, b);
    ShiftPlus(Shift(a), Shift(b));
    ShiftPlus(Shift(Shift(a)), Shift(Shift(b)));
    var a1, b1 := Horner(Shift(Shift(Shift(a))), a), Horner(Shift(Shift(Shift(b))), b);
    HornerPlus(Shift(Shift(Shift(a))), Shift(Shift(Shift(b))), a, b);
    HornerPlus(a1, b1, a, b);
    ShiftPlus(Horner(a1, a), Horner(b1, b));
    HornerPlus(Shift(Horner(a1, a)), Shift(Horner(b1, b)), a, b);
    HornerPlus(Horner(Shift(Horner(a1, a)), a), Horner(Shift(Horner(b1, b)), b), a, b);
  }

  lemma TimesModulusShift(a: Wide)
    ensures TimesModulus(Shift(a)) == Shift(TimesModulus(a))
  {
    var a1 := Horner(Shift(Shift(Shift(a))), a);
    var a2 := Shift(Horner(a1, a));
    ShiftPlus(Shift(Shift(Shift(Shift(a)))), a);
    ShiftPlus(Shift(a1), a);
    ShiftPlus(Shift(a2), a);
    ShiftPlus(Shift(Horner(a2, a)), a);
  }

  lemma WidenAdd(r: Byte, r': Byte)
    ensures Add(r, r') as Wide == Plus(r as Wide, r' as Wide)
  {
  }

  lemma DivisionPlus(w: Wide, q: Wide, r: Byte, w': Wide, q': Wide, r': Byte)
    requires IsDivision(w, q, r) && IsDivision(w', q', r')
    ensures IsDivision(Plus(w, w'), Plus(q, q'), Add(r, r'))
  {
    TimesModulusPlus(q, q');
    WidenAdd(r, r');
    PlusRegroup(TimesModulus(q), r as Wide, TimesModulus(q'), r' as Wide);
  }

  /** The quotient and the remainder grow by this when the dividend is doubled. */
  function DoubleQuotient(q: Wide, r: Byte): Wide {
    Plus(Shift(q), if r & 0x80 != 0 then 1 else 0)
  }

  lemma WidenDouble(r: Byte)
    ensures Shift(r as Wide) == Plus(TimesModulus(if r & 0x80 != 0 then 1 else 0), Double(r) as Wide)
  {
  }

  lemma DivisionDouble(w: Wide, q: Wide, r: Byte)
    requires IsDivision(w, q, r) && q < 0x80
    ensures IsDivision(Shift(w), DoubleQuotient(q, r), Double(r))
  {
    var carry: Wide := if r & 0x80 != 0 then 1 else 0;
    TimesModulusShift(q);
    ShiftPlus(TimesModulus(q), r as Wide);
    WidenDouble(r);
    TimesModulusPlus(Shift(q), carry);
    PlusAssociates(TimesModulus(Shift(q)), TimesModulus(carry), Double(r) as Wide);
  }

  lemma DivisionOfZero(q: Wide, r: Byte)
    requires IsDivision(0, q, r)
    ensures q == 0 && r == 0
  {
  }

  lemma SelfInverse(w: Wide, v: Wide)
    ensures Plus(w, w) == 0 && (Plus(w, v) == 0 ==> w == v)
  {
  }

  lemma SelfInverseByte(r: Byte, r': Byte)
    requires Add(r, r') == 0
    ensures r == r'
  {
  }

  /** Quotient and remainder are determined by the dividend. */
  lemma DivisionUnique(w: Wide, q: Wide, r: Byte, q': Wide, r': Byte)
    requires IsDivision(w, q, r) && IsDivision(w, q', r')
    ensures q == q' && r == r'
  {
    DivisionPlus(w, q, r, w, q', r');
    SelfInverse(w, w);
    DivisionOfZero(Plus(q, q'), Add(r, r'));
    SelfInverse(q, q');
    SelfInverseByte(r, r');
  }

  /** A quotient that is to be doubled n more times stays below this bound. */
  function Limit(n: nat): (m: Wide)
    ensures m <= 0x100
  {
    if n == 0 then 0x100 else Limit(n - 1) >> 1
  }

  lemma DoubleWithinLimit(q: Wide, r: Byte, n: nat)
    requires n > 0 && q < Limit(n)
    ensures q < 0x80 && DoubleQuotient(q, r) < Limit(n - 1)
  {
  }

  lemma AddMultiple(P: Wide, qp: Wide, p: Byte, A: Wide, qa: Wide, a: Byte, take: bool)
      returns (P': Wide, qp': Wide, p': Byte)
    requires IsDivision(P, qp, p) && IsDivision(A, qa, a)
    ensures IsDivision(P', qp', p')
    ensures P' == (if take then Plus(P, A) else P) && p' == (if take then Add(p, a) else p)
  {
    DivisionPlus(P, qp, p, A, qa, a);
    P' := if take then Plus(P, A) else P;
    qp' := if take then Plus(qp, qa) else qp;
    p' := if take then Add(p, a) else p;
  }

  lemma ReadWideBit(P: Wide, A: Wide, b: Byte, n: nat)
    requires n > 0
    ensures AddCarryLess(P, A, b, n) == AddCarryLess(if b & 1 != 0 then Plus(P, A) else P, Shift(A), b >> 1, n - 1)
  {
  }

  /** The sums after reading one bit of the factor, and the quotient that relates them. */
  lemma ReadBitOfBoth(P: Wide, qp: Wide, p: Byte, A: Wide, qa: Wide, a: Byte, b: Byte, n: nat)
      returns (P': Wide, qp': Wide, p': Byte)
    requires n > 0 && IsDivision(P, qp, p) && IsDivision(A, qa, a)
    ensures IsDivision(P', qp', p')
    ensures AddCarryLess(P, A, b, n) == AddCarryLess(P', Shift(A), b >> 1, n - 1)
    ensures AddProduct(p, a, b, n) == AddProduct(p', Double(a), b >> 1, n - 1)
  {
    P', qp', p' := AddMultiple(P, qp, p, A, qa, a, b & 1 != 0);
    ReadWideBit(P, A, b, n);
    ReadBit(p, a, b, n);
  }

  lemma NextMultiple(A: Wide, qa: Wide, a: Byte, n: nat) returns (A': Wide, qa': Wide, a': Byte)
    requires n > 0 && IsDivision(A, qa, a) && qa < Limit(n)
    ensures A' == Shift(A) && a' == Double(a)
    ensures IsDivision(A', qa', a') && qa' < Limit(n - 1)
  {
    DoubleWithinLimit(qa, a, n);
    DivisionDouble(A, qa, a);
    A', qa', a' := Shift(A), DoubleQuotient(qa, a), Double(a);
  }

  /** One bit of the factor is read on both sides. */
  lemma ProductStep(P: Wide, qp: Wide, p: Byte, A: Wide, qa: Wide, a: Byte, b: Byte, n: nat)
      returns (P': Wide, qp': Wide, p': Byte, A': Wide, qa': Wide, a': Byte)
    requires n > 0 && IsDivision(P, qp, p) && IsDivision(A, qa, a) && qa < Limit(n)
    ensures IsDivision(P', qp', p') && IsDivision(A', qa', a') && qa' < Limit(n - 1)
    ensures AddCarryLess(P, A, b, n) == AddCarryLess(P', A', b >> 1, n - 1)
    ensures AddProduct(p, a, b, n) == AddProduct(p', a', b >> 1, n - 1)
  {
    P', qp', p' := ReadBitOfBoth(P, qp, p, A, qa, a, b, n);
    A', qa', a' := NextMultiple(A, qa, a, n);
  }

  lemma {:induction false} ProductDivision(P: Wide, qp: Wide, p: Byte, A: Wide, qa: Wide, a: Byte, b: Byte, n: nat)
      returns (q: Wide)
    requires IsDivision(P, qp, p) && IsDivision(A, qa, a) && qa < Limit(n)
    ensures IsDivision(AddCarryLess(P, A, b, n), q, AddProduct(p, a, b, n))
    decreases n
  {
    if n == 0 {
      q := qp;
    } else {
      var P', qp', p', A', qa', a' := ProductStep(P, qp, p, A, qa, a, b, n);
      q := ProductDivision(P', qp', p', A', qa', a', b >> 1, n - 1);
    }
  }

  /** The product of the polynomials a and b over GF(2). */
  function CarryLess(a: Byte, b: Byte): Wide {
    AddCarryLess(0, a as Wide, b, 8)
  }

  /** Mul(a, b) is the one byte that the carry-less product of a and b leaves as a remainder. */
  lemma MulIsRemainder(a: Byte, b: Byte, r: Byte)
    ensures r == Mul(a, b) <==> exists q :: IsDivision(CarryLess(a, b), q, r)
  {
    var q := ProductDivision(0, 0, 0, a as Wide, 0, a, b, 8);
    if q' :| IsDivision(CarryLess(a, b), q', r) {
      DivisionUnique(CarryLess(a, b), q, Mul(a, b), q', r);
    }
  }
}
