/** The field GF(2^8) of section 4.2 of FIPS 197: bytes, with XOR as addition. */
module Gf256 {
  import opened BinaryFields

  type Byte = bv8

  /** The field sum, and also the difference. */
  function Add(a: Byte, b: Byte): Byte {
    a ^ b
  }

  /** Multiplication by x, reduced by x^8 + x^4 + x^3 + x + 1. */
  function Double(a: Byte): Byte {
    if a & 0x80 != 0 then Add(a << 1, 0x1b) else a << 1
  }

  /** p plus the sum of a * x^i over the bits i < n that are set in b. */
  function AddProduct(p: Byte, a: Byte, b: Byte, n: nat): Byte
    decreases n, a, b, p
  {
    if n == 0 then p
    else AddProduct(if b & 1 != 0 then Add(p, a) else p, Double(a), b >> 1, n - 1)
  }

  /** The field product. */
  function Mul(a: Byte, b: Byte): Byte {
    AddProduct(0, a, b, 8)
  }

  method GfMul(x: Byte, y: Byte) returns (p: Byte)
    ensures p == Mul(x, y)
  {
    var a, b := x, y;
    p := 0;
    for i := 0 to 8
      invariant AddProduct(p, a, b, 8 - i) == Mul(x, y)
    {
      ghost var p0, a0 := p, a;
      if b & 1 != 0 {
        p := p ^ a;
      }
      assert p == if b & 1 != 0 then p0 ^ a0 else p0;
      var hi := a & 0x80;
      a := a << 1;
      if hi != 0 {
        a := a ^ 0x1b;
      }
      assert a == Double(a0);
      b := b >> 1;
    }
  }

  lemma AddCommutes(a: Byte, b: Byte)
    ensures Add(a, b) == Add(b, a)
  {
  }

  lemma AddAssociates(a: Byte, b: Byte, c: Byte)
    ensures Add(Add(a, b), c) == Add(a, Add(b, c))
  {
  }

  lemma AddRegroup(a: Byte, b: Byte, c: Byte, d: Byte)
    ensures Add(Add(a, b), Add(c, d)) == Add(Add(a, c), Add(b, d))
  {
    AddAssociates(a, b, Add(c, d));
    AddAssociates(b, c, d);
    AddCommutes(b, c);
    AddAssociates(c, b, d);
    AddAssociates(a, c, Add(b, d));
  }

  /** What reducing a * x adds to a << 1. */
  function Carry(a: Byte): Byte {
    if a & 0x80 != 0 then 0x1b else 0
  }

  lemma DoubleIsSum(a: Byte)
    ensures Double(a) == Add(a << 1, Carry(a))
  {
  }

  lemma ShiftAdd(a: Byte, b: Byte)
    ensures Add(a, b) << 1 == Add(a << 1, b << 1)
  {
  }

  lemma CarryAdd(a: Byte, b: Byte)
    ensures Carry(Add(a, b)) == Add(Carry(a), Carry(b))
  {
  }

  lemma DoubleAdd(a: Byte, b: Byte)
    ensures Double(Add(a, b)) == Add(Double(a), Double(b))
  {
    DoubleIsSum(Add(a, b));
    DoubleIsSum(a);
    DoubleIsSum(b);
    ShiftAdd(a, b);
    CarryAdd(a, b);
    AddRegroup(a << 1, b << 1, Carry(a), Carry(b));
  }

  lemma {:induction false} AddProductAdd(p: Byte, a: Byte, q: Byte, b: Byte, c: Byte, n: nat)
    ensures AddProduct(Add(p, q), Add(a, b), c, n) == Add(AddProduct(p, a, c, n), AddProduct(q, b, c, n))
    decreases n
  {
    if n > 0 {
      DoubleAdd(a, b);
      if c & 1 != 0 {
        AddRegroup(p, q, a, b);
        AddProductAdd(Add(p, a), Double(a), Add(q, b), Double(b), c >> 1, n - 1);
      } else {
        AddProductAdd(p, Double(a), q, Double(b), c >> 1, n - 1);
      }
    }
  }

  lemma {:induction false} AddProductDouble(p: Byte, a: Byte, b: Byte, n: nat)
    ensures AddProduct(Double(p), Double(a), b, n) == Double(AddProduct(p, a, b, n))
    decreases n
  {
    if n > 0 {
      DoubleAdd(p, a);
      AddProductDouble(if b & 1 != 0 then Add(p, a) else p, Double(a), b >> 1, n - 1);
    }
  }

  lemma MulAddLeft(a: Byte, b: Byte, c: Byte)
    ensures Mul(Add(a, b), c) == Add(Mul(a, c), Mul(b, c))
  {
    AddProductAdd(0, a, 0, b, c, 8);
  }

  lemma MulDoubleLeft(a: Byte, b: Byte)
    ensures Mul(Double(a), b) == Double(Mul(a, b))
  {
    AddProductDouble(0, a, b, 8);
  }

  /** Multiplying p + a * b by c distributes, for a factor b that is read bit by bit. */
  lemma {:induction false} AddProductMul(p: Byte, a: Byte, b: Byte, n: nat, c: Byte)
    ensures Mul(AddProduct(p, a, b, n), c) == AddProduct(Mul(p, c), Mul(a, c), b, n)
    decreases n
  {
    if n > 0 {
      MulAddLeft(p, a, c);
      MulDoubleLeft(a, c);
      AddProductMul(if b & 1 != 0 then Add(p, a) else p, Double(a), b >> 1, n - 1, c);
    }
  }

  lemma MulZeroLeft(b: Byte)
    ensures Mul(0, b) == 0
  {
    MulAddLeft(0, 0, b);
  }

  /** (a b) c == (a c) b */
  lemma MulSwap(a: Byte, b: Byte, c: Byte)
    ensures Mul(Mul(a, b), c) == Mul(Mul(a, c), b)
  {
    MulZeroLeft(c);
    AddProductMul(0, a, b, 8, c);
  }

  lemma ReadBit(p: Byte, a: Byte, b: Byte, n: nat)
    requires n > 0
    ensures AddProduct(p, a, b, n) == AddProduct(if b & 1 != 0 then Add(p, a) else p, Double(a), b >> 1, n - 1)
  {
  }

  lemma MulOneReadsLow(a: Byte)
    ensures AddProduct(0, 1, a, 8) == AddProduct(a & 0x0f, 0x10, a >> 4, 4)
  {
    ReadBit(0, 0x01, a, 8);
    ReadBit(a & 0x01, 0x02, a >> 1, 7);
    ReadBit(a & 0x03, 0x04, a >> 2, 6);
    ReadBit(a & 0x07, 0x08, a >> 3, 5);
  }

  lemma MulOneReadsHigh(a: Byte)
    ensures AddProduct(a & 0x0f, 0x10, a >> 4, 4) == a
  {
    ReadBit(a & 0x0f, 0x10, a >> 4, 4);
    ReadBit(a & 0x1f, 0x20, a >> 5, 3);
    ReadBit(a & 0x3f, 0x40, a >> 6, 2);
    ReadBit(a & 0x7f, 0x80, a >> 7, 1);
  }

  lemma MulOneLeft(a: Byte)
    ensures Mul(1, a) == a
  {
    MulOneReadsLow(a);
    MulOneReadsHigh(a);
  }

  lemma MulCommutes(a: Byte, b: Byte)
    ensures Mul(a, b) == Mul(b, a)
  {
    MulSwap(1, a, b);
    MulOneLeft(a);
    MulOneLeft(b);
  }

  lemma MulAssociates(a: Byte, b: Byte, c: Byte)
    ensures Mul(Mul(a, b), c) == Mul(a, Mul(b, c))
  {
    MulSwap(b, a, c);
    MulCommutes(a, b);
    MulCommutes(a, Mul(b, c));
  }

  lemma MulAddRight(a: Byte, b: Byte, c: Byte)
    ensures Mul(a, Add(b, c)) == Add(Mul(a, b), Mul(a, c))
  {
    MulAddLeft(b, c, a);
    MulCommutes(a, Add(b, c));
    MulCommutes(a, b);
    MulCommutes(a, c);
  }

  // Squaring is linear over the bits, so facts about it are facts about a bit matrix.

  lemma AddCancels(a: Byte, b: Byte, c: Byte)
    ensures Add(Add(a, b), Add(b, c)) == Add(a, c)
  {
  }

  lemma MulSquareAdd(a: Byte, b: Byte)
    ensures Mul(Add(a, b), Add(a, b)) == Add(Mul(a, a), Mul(b, b))
  {
    MulAddLeft(a, b, Add(a, b));
    MulAddRight(a, a, b);
    MulAddRight(b, a, b);
    MulCommutes(a, b);
    AddCancels(Mul(a, a), Mul(a, b), Mul(b, b));
  }

  lemma SquareDouble(a: Byte)
    ensures Mul(Double(a), Double(a)) == Double(Double(Mul(a, a)))
  {
    MulDoubleLeft(a, Double(a));
    MulCommutes(a, Double(a));
    MulDoubleLeft(a, a);
  }

  lemma SquareBits()
    ensures Mul(0x01, 0x01) == 0x01 && Mul(0x02, 0x02) == 0x04 && Mul(0x04, 0x04) == 0x10 && Mul(0x08, 0x08) == 0x40
    ensures Mul(0x10, 0x10) == 0x1b && Mul(0x20, 0x20) == 0x6c && Mul(0x40, 0x40) == 0xab && Mul(0x80, 0x80) == 0x9a
  {
    MulOneLeft(1);
    SquareDouble(0x01);
    SquareDouble(0x02);
    SquareDouble(0x04);
    SquareDouble(0x08);
    SquareDouble(0x10);
    SquareDouble(0x20);
    SquareDouble(0x40);
  }

  function SquareUp(a: Byte): Byte {
    (a & 0xb1) ^ ((a & 0x62) << 1) ^ ((a & 0x04) << 2) ^ ((a & 0x08) << 3)
  }

  function SquareDown(a: Byte): Byte {
    ((a & 0x50) >> 1) ^ ((a & 0x20) >> 2) ^ ((a & 0xf0) >> 3)
    ^ ((a & 0x90) >> 4) ^ ((a & 0x40) >> 5) ^ ((a & 0xc0) >> 6)
  }

  /**
   * The square of a: bit i moves to position 2 * i, and x^8, x^10, x^12 and x^14 are reduced
   * to 0x1b, 0x6c, 0xab and 0x9a. The terms are grouped by the distance the bits move.
   */
  function Square(a: Byte): Byte {
    Add(SquareUp(a), SquareDown(a))
  }

  lemma SquareUpAdd(a: Byte, b: Byte)
    ensures SquareUp(Add(a, b)) == Add(SquareUp(a), SquareUp(b))
  {
  }

  lemma SquareDownAdd(a: Byte, b: Byte)
    ensures SquareDown(Add(a, b)) == Add(SquareDown(a), SquareDown(b))
  {
  }

  lemma SquareAdd(a: Byte, b: Byte)
    ensures Square(Add(a, b)) == Add(Square(a), Square(b))
  {
    SquareUpAdd(a, b);
    SquareDownAdd(a, b);
    AddRegroup(SquareUp(a), SquareUp(b), SquareDown(a), SquareDown(b));
  }

  /** Squaring agrees with Square on a if it does on a without one of its bits. */
  lemma SplitSquare(a: Byte, bit: Byte)
    requires a & bit == 0 || a & bit == bit
    requires Mul(bit, bit) == Square(bit)
    requires Mul(a & !bit, a & !bit) == Square(a & !bit)
    ensures Mul(a, a) == Square(a)
  {
    MulZeroLeft(0);
    assert a == Add(a & bit, a & !bit);
    MulSquareAdd(a & bit, a & !bit);
    SquareAdd(a & bit, a & !bit);
  }

  lemma MulIsSquare(a: Byte)
    ensures Mul(a, a) == Square(a)
  {
    SquareBits();
    MulZeroLeft(0);
    SplitSquare(a & 0x01, 0x01);
    SplitSquare(a & 0x03, 0x02);
    SplitSquare(a & 0x07, 0x04);
    SplitSquare(a & 0x0f, 0x08);
    SplitSquare(a & 0x1f, 0x10);
    SplitSquare(a & 0x3f, 0x20);
    SplitSquare(a & 0x7f, 0x40);
    SplitSquare(a, 0x80);
  }

  lemma SquareEightTimes(a: Byte)
    ensures Square(Square(Square(Square(Square(Square(Square(Square(a)))))))) == a
  {
  }

  lemma SquareFixed(e: Byte)
    requires Square(e) == e
    ensures e == 0 || e == 1
  {
  }

  // Powers.

  function Power(a: Byte, e: nat): Byte
    decreases e, a
  {
    if e == 0 then 1 else Mul(a, Power(a, e - 1))
  }

  lemma {:induction false} PowerAdd(a: Byte, d: nat, e: nat)
    ensures Power(a, d + e) == Mul(Power(a, d), Power(a, e))
    decreases d
  {
    if d == 0 {
      MulOneLeft(Power(a, e));
    } else {
      PowerAdd(a, d - 1, e);
      MulAssociates(a, Power(a, d - 1), Power(a, e));
    }
  }

  lemma {:induction false} PowerOfSquare(a: Byte, e: nat)
    ensures Power(Mul(a, a), e) == Power(a, 2 * e)
    decreases e
  {
    if e > 0 {
      PowerOfSquare(a, e - 1);
      MulAssociates(a, a, Power(a, 2 * (e - 1)));
      assert Power(a, 2 * e) == Mul(a, Power(a, 2 * e - 1));
    }
  }

  lemma SquareOfPower(a: Byte, e: nat)
    ensures Power(a, 2 * e) == Square(Power(a, e))
  {
    PowerAdd(a, e, e);
    MulIsSquare(Power(a, e));
  }

  lemma MulOneRight(a: Byte)
    ensures Mul(a, 1) == a
  {
    MulCommutes(a, 1);
    MulOneLeft(a);
  }

  lemma PowerOdd(result: Byte, base: Byte, e: nat)
    ensures Mul(result, Power(base, 2 * e + 1)) == Mul(Mul(result, base), Power(Mul(base, base), e))
  {
    PowerOfSquare(base, e);
    MulAssociates(result, base, Power(base, 2 * e));
  }

  /** The square-and-multiply loop, for any exponent. */
  method GfPower(a: Byte, exponent: nat) returns (result: Byte)
    ensures result == Power(a, exponent)
  {
    result := 1;
    var exp, base := exponent, a;
    MulOneLeft(Power(a, exponent));
    while exp > 0
      invariant Mul(result, Power(base, exp)) == Power(a, exponent)
    {
      var half := exp / 2;
      if exp % 2 == 1 {
        assert exp == 2 * half + 1;
        PowerOdd(result, base, half);
        result := GfMul(result, base);
      } else {
        assert exp == 2 * half;
        PowerOfSquare(base, half);
      }
      base := GfMul(base, base);
      exp := half;
    }
    MulOneRight(result);
  }

  lemma Power256(a: Byte)
    ensures Power(a, 256) == a
  {
    MulOneRight(a);
    assert Power(a, 1) == a;
    SquareOfPower(a, 1);
    SquareOfPower(a, 2);
    SquareOfPower(a, 4);
    SquareOfPower(a, 8);
    SquareOfPower(a, 16);
    SquareOfPower(a, 32);
    SquareOfPower(a, 64);
    SquareOfPower(a, 128);
    SquareEightTimes(a);
  }

  /** a^255 is its own square, so it is 0 or 1. */
  lemma Power255Idempotent(a: Byte)
    ensures Power(a, 255) == 0 || Power(a, 255) == 1
  {
    var e := Power(a, 255);
    Power256(a);
    PowerAdd(a, 256, 254);
    PowerAdd(a, 255, 255);
    MulIsSquare(e);
    SquareFixed(e);
  }

  /** Fermat's little theorem: a * a^255 == a, so a^255 is 1 unless a is 0. */
  lemma Power255(a: Byte)
    ensures Power(a, 255) == if a == 0 then 0 else 1
  {
    Power255Idempotent(a);
    Power256(a);
    MulZeroLeft(a);
    MulCommutes(0, a);
    MulZeroLeft(Power(a, 254));
  }

  function Inverse(a: Byte): Byte {
    if a == 0 then 0 else Power(a, 254)
  }

  method GfInv(a: Byte) returns (r: Byte)
    ensures r == Inverse(a)
  {
    if a == 0 {
      return 0;
    }
    r := GfPower(a, 254);
  }

  lemma MulInverse(a: Byte)
    requires a != 0
    ensures Mul(a, Inverse(a)) == 1
  {
    Power255(a);
  }

  /** The bytes as an instance of the theory of fields. */
  const GF256: Field<Byte> := Field(0, 1, Add, Mul, Inverse)

  lemma Gf256Unit(a: Byte)
    ensures UnitLaws(GF256, a)
  {
    MulOneRight(a);
    if a != 0 {
      MulInverse(a);
    }
  }

  lemma Gf256Commutative(a: Byte, b: Byte)
    ensures CommutativeLaws(GF256, a, b)
  {
    AddCommutes(a, b);
    MulCommutes(a, b);
  }

  lemma Gf256Ternary(a: Byte, b: Byte, c: Byte)
    ensures TernaryLaws(GF256, a, b, c)
  {
    AddAssociates(a, b, c);
    MulAssociates(a, b, c);
    MulAddRight(a, b, c);
  }

  lemma Gf256IsField()
    ensures IsField(GF256)
  {
    forall a: Byte {
      Gf256Unit(a);
    }
    forall a: Byte, b: Byte {
      Gf256Commutative(a, b);
    }
    forall a: Byte, b: Byte, c: Byte {
      Gf256Ternary(a, b, c);
    }
  }
}
