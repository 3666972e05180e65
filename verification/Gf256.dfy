/** Arithmetic in GF(2^8) modulo x^8 + x^4 + x^3 + x^2 + 1 (crypto/src/snapshot_defense.rs).  The proofs treat XOR
    and the one-bit shifts as named functions and hide their bit-level definitions wherever only laws are needed. */
module Gf256 {
  /** The low 8 bits of the modulus: x^8 reduces to x^4 + x^3 + x^2 + 1. */
  const GF_POLY: bv8 := 0x1D

  /** Addition of the field. */
  function Add(a: bv8, b: bv8): bv8 { a ^ b }

  function Half(b: bv8): bv8 { b >> 1 }

  function Carry(a: bv8): bv8 { if a & 0x80 != 0 then GF_POLY else 0 }

  /** Multiplication by x. */
  function Xtime(a: bv8): bv8 { (a << 1) ^ Carry(a) }

  /** a times the constant term of b. */
  function Gated(a: bv8, b: bv8): bv8 { if b & 1 == 1 then a else 0 }

  /** The product of a with the low n bits of b. */
  function MulBits(a: bv8, b: bv8, n: nat): (p: bv8)
    decreases n, b
  {
    if n == 0 then 0 else Add(Gated(a, b), MulBits(Xtime(a), Half(b), n - 1))
  }

  function Mul(a: bv8, b: bv8): bv8 { MulBits(a, b, 8) }

  // ----- XOR algebra

  lemma AddLaws(p: bv8, q: bv8, r: bv8)
    ensures Add(p, q) == Add(q, p)
    ensures Add(p, Add(q, r)) == Add(Add(p, q), r)
    ensures Add(p, 0) == p
    ensures Add(p, p) == 0
  {}

  lemma AddInterchange(p: bv8, q: bv8, r: bv8, s: bv8)
    ensures Add(Add(p, q), Add(r, s)) == Add(Add(p, r), Add(q, s))
  {
    hide Add;
    AddLaws(Add(p, q), r, s);
    AddLaws(p, q, r);
    AddLaws(q, r, r);
    AddLaws(p, r, q);
    AddLaws(Add(p, r), q, s);
  }

  lemma AddCancel(p: bv8, q: bv8)
    ensures Add(p, q) == 0 ==> p == q
  {}

  lemma CarryAdd(a: bv8, b: bv8)
    ensures Carry(Add(a, b)) == Add(Carry(a), Carry(b))
  {}

  lemma ShiftAdd(a: bv8, b: bv8)
    ensures Add(a, b) << 1 == Add(a << 1, b << 1)
    ensures Half(Add(a, b)) == Add(Half(a), Half(b))
  {}

  lemma XtimeSplit(a: bv8)
    ensures Xtime(a) == Add(a << 1, Carry(a))
  {}

  lemma XtimeAdd(a: bv8, b: bv8)
    ensures Xtime(Add(a, b)) == Add(Xtime(a), Xtime(b))
  {
    hide Add, Carry, Xtime;
    XtimeSplit(a); XtimeSplit(b); XtimeSplit(Add(a, b));
    ShiftAdd(a, b);
    CarryAdd(a, b);
    AddInterchange(a << 1, b << 1, Carry(a), Carry(b));
  }

  lemma GatedAdd(a: bv8, b: bv8, c: bv8)
    ensures Gated(Add(a, b), c) == Add(Gated(a, c), Gated(b, c))
    ensures Gated(a, Add(b, c)) == Add(Gated(a, b), Gated(a, c))
    ensures Xtime(Gated(a, c)) == Gated(Xtime(a), c)
  {}

  lemma {:induction false} DistributeLeftBits(a: bv8, b: bv8, c: bv8, n: nat)
    ensures MulBits(Add(a, b), c, n) == Add(MulBits(a, c, n), MulBits(b, c, n))
    decreases n
  {
    hide Add, Half, Xtime, Gated;
    AddLaws(0, 0, 0);
    if n != 0 {
      XtimeAdd(a, b);
      DistributeLeftBits(Xtime(a), Xtime(b), Half(c), n - 1);
      GatedAdd(a, b, c);
      AddInterchange(Gated(a, c), Gated(b, c), MulBits(Xtime(a), Half(c), n - 1), MulBits(Xtime(b), Half(c), n - 1));
    }
  }

  lemma {:induction false} DistributeRightBits(a: bv8, b: bv8, c: bv8, n: nat)
    ensures MulBits(a, Add(b, c), n) == Add(MulBits(a, b, n), MulBits(a, c, n))
    decreases n
  {
    hide Add, Half, Xtime, Gated;
    AddLaws(0, 0, 0);
    if n != 0 {
      ShiftAdd(b, c);
      DistributeRightBits(Xtime(a), Half(b), Half(c), n - 1);
      GatedAdd(a, b, c);
      AddInterchange(Gated(a, b), Gated(a, c), MulBits(Xtime(a), Half(b), n - 1), MulBits(Xtime(a), Half(c), n - 1));
    }
  }

  lemma {:induction false} XtimeBits(a: bv8, b: bv8, n: nat)
    ensures MulBits(Xtime(a), b, n) == Xtime(MulBits(a, b, n))
    decreases n
  {
    if n == 0 {
      assert Xtime(0) == 0;
    } else {
      hide Add, Half, Xtime, Gated;
      XtimeBits(Xtime(a), Half(b), n - 1);
      GatedAdd(a, 0, b);
      XtimeAdd(Gated(a, b), MulBits(Xtime(a), Half(b), n - 1));
    }
  }

  // ----- x * b in the second argument

  function Shr(c: bv8, n: nat): bv8
    decreases n
  {
    if n == 0 then c else Shr(Half(c), n - 1)
  }

  lemma {:induction false} DropTopBit(e: bv8, c: bv8, n: nat)
    requires Shr(c, n) == 0
    ensures MulBits(e, c, n + 1) == MulBits(e, c, n)
    decreases n
  {
    if n == 0 {
      assert MulBits(Xtime(e), Half(c), 0) == 0;
    } else {
      hide Add, Half, Xtime, Gated;
      DropTopBit(Xtime(e), Half(c), n - 1);
    }
  }

  lemma {:induction false} TimesZeroBits(e: bv8, n: nat)
    ensures MulBits(e, 0, n) == 0
    decreases n
  {
    if n != 0 { TimesZeroBits(Xtime(e), n - 1); }
  }

  lemma ClearBit(e: bv8, c: bv8, n: nat)
    requires n > 0
    ensures c & 1 == 0 ==> MulBits(e, c, n) == MulBits(Xtime(e), Half(c), n - 1)
    ensures c & 1 == 1 ==> MulBits(e, c, n) == Add(e, MulBits(Xtime(e), Half(c), n - 1))
  {
    hide Xtime, Half;
  }

  /** Multiplication by x^2, written on the bits. */
  function TimesFour(s: bv8): bv8 {
    (s << 2) ^ (if s & 0x40 != 0 then 0x1D else 0) ^ (if s & 0x80 != 0 then 0x3A else 0)
  }

  lemma TimesFourIs(s: bv8)
    ensures TimesFour(s) == Xtime(Xtime(s))
  {}

  lemma TimesFourAdd(a: bv8, b: bv8)
    ensures TimesFour(Add(a, b)) == Add(TimesFour(a), TimesFour(b))
  {
    hide Xtime, TimesFour, Add;
    TimesFourIs(a); TimesFourIs(b); TimesFourIs(Add(a, b));
    XtimeAdd(a, b);
    XtimeAdd(Xtime(a), Xtime(b));
  }

  /** x^8 times a. */
  function Eighth(a: bv8): bv8 { TimesFour(TimesFour(TimesFour(TimesFour(a)))) }

  /** x^4 + x^3 + x^2 + 1 times a. */
  function Reduced(a: bv8): bv8 {
    Add(a, Add(TimesFour(a), Add(Xtime(TimesFour(a)), TimesFour(TimesFour(a)))))
  }

  lemma EighthLow(a: bv8)
    requires a & 0xF0 == 0
    ensures Eighth(a) == Reduced(a)
  {}

  lemma EighthHigh(a: bv8)
    requires a & 0x0F == 0
    ensures Eighth(a) == Reduced(a)
  {}

  lemma EighthAdd(a: bv8, b: bv8)
    ensures Eighth(Add(a, b)) == Add(Eighth(a), Eighth(b))
  {
    hide TimesFour, Add;
    var a2, b2 := TimesFour(a), TimesFour(b);
    var a4, b4 := TimesFour(a2), TimesFour(b2);
    TimesFourAdd(a, b);
    TimesFourAdd(a2, b2);
    TimesFourAdd(a4, b4);
    TimesFourAdd(TimesFour(a4), TimesFour(b4));
  }

  lemma ReducedAdd(a: bv8, b: bv8)
    ensures Reduced(Add(a, b)) == Add(Reduced(a), Reduced(b))
  {
    hide TimesFour, Xtime, Add;
    var a2, b2 := TimesFour(a), TimesFour(b);
    var a3, b3 := Xtime(a2), Xtime(b2);
    var a4, b4 := TimesFour(a2), TimesFour(b2);
    TimesFourAdd(a, b);
    TimesFourAdd(a2, b2);
    XtimeAdd(a2, b2);
    AddInterchange(a3, b3, a4, b4);
    AddInterchange(a2, b2, Add(a3, a4), Add(b3, b4));
    AddInterchange(a, b, Add(a2, Add(a3, a4)), Add(b2, Add(b3, b4)));
  }

  lemma Nibbles(a: bv8)
    ensures a == Add(a & 0x0F, a & 0xF0)
    ensures (a & 0x0F) & 0xF0 == 0 && (a & 0xF0) & 0x0F == 0
  {}

  /** x^8 acts as the reduction constant does. */
  lemma EighthPower(a: bv8)
    ensures var x2 := Xtime(Xtime(a)); var x4 := Xtime(Xtime(x2)); var x6 := Xtime(Xtime(x4));
            Xtime(Xtime(x6)) == Add(a, Add(x2, Add(Xtime(x2), x4)))
  {
    hide Xtime, TimesFour, Add;
    var x2 := TimesFour(a);
    var x4 := TimesFour(x2);
    TimesFourIs(a);
    TimesFourIs(x2);
    TimesFourIs(x4);
    TimesFourIs(TimesFour(x4));
    assert Eighth(a) == Reduced(a) by {
      hide Eighth, Reduced;
      Nibbles(a);
      EighthLow(a & 0x0F);
      EighthHigh(a & 0xF0);
      EighthAdd(a & 0x0F, a & 0xF0);
      ReducedAdd(a & 0x0F, a & 0xF0);
    }
  }

  lemma TimesTop(e: bv8)
    ensures Mul(e, 0x80) == Xtime(Xtime(Xtime(Xtime(Xtime(Xtime(Xtime(e)))))))
  {
    hide Xtime, MulBits;
    var e1 := Xtime(e); var e2 := Xtime(e1); var e3 := Xtime(e2); var e4 := Xtime(e3);
    var e5 := Xtime(e4); var e6 := Xtime(e5); var e7 := Xtime(e6);
    ClearBit(e, 0x80, 8);
    ClearBit(e1, 0x40, 7);
    ClearBit(e2, 0x20, 6);
    ClearBit(e3, 0x10, 5);
    ClearBit(e4, 0x08, 4);
    ClearBit(e5, 0x04, 3);
    ClearBit(e6, 0x02, 2);
    ClearBit(e7, 0x01, 1);
    TimesZeroBits(Xtime(e7), 0);
  }

  lemma TimesPoly(e: bv8)
    ensures var x2 := Xtime(Xtime(e));
            Mul(e, GF_POLY) == Add(e, Add(x2, Add(Xtime(x2), Xtime(Xtime(x2)))))
  {
    hide Xtime, MulBits;
    var e1 := Xtime(e); var e2 := Xtime(e1); var e3 := Xtime(e2); var e4 := Xtime(e3);
    ClearBit(e, 0x1D, 8);
    ClearBit(e1, 0x0E, 7);
    ClearBit(e2, 0x07, 6);
    ClearBit(e3, 0x03, 5);
    ClearBit(e4, 0x01, 4);
    TimesZeroBits(Xtime(e4), 3);
  }

  lemma ShiftedRight(b: bv8)
    ensures b == Add(b & 0x7F, b & 0x80)
    ensures Half(b << 1) == b & 0x7F
    ensures (b << 1) & 1 == 0
    ensures b & 0x80 == 0 ==> Carry(b) == 0
    ensures b & 0x80 != 0 ==> Carry(b) == GF_POLY && b & 0x80 == 0x80
  {}

  lemma LowBits(b: bv8)
    ensures Shr(b & 0x7F, 7) == 0
  {}

  lemma TopCarry(a: bv8, b: bv8)
    ensures Mul(Xtime(a), b & 0x80) == Mul(a, Carry(b))
  {
    hide Xtime, Add, MulBits, Carry;
    ShiftedRight(b);
    if b & 0x80 == 0 {
      TimesZeroBits(a, 8);
      TimesZeroBits(Xtime(a), 8);
    } else {
      TimesTop(Xtime(a));
      TimesPoly(a);
      EighthPower(a);
    }
  }

  /** Multiplication by x commutes with the product, in either argument. */
  lemma MulXtime(a: bv8, b: bv8)
    ensures Mul(Xtime(a), b) == Xtime(Mul(a, b)) == Mul(a, Xtime(b))
  {
    hide Xtime, Add, MulBits, Carry, Half;
    XtimeBits(a, b, 8);
    XtimeSplit(b);
    ShiftedRight(b);
    DistributeRightBits(a, b << 1, Carry(b), 8);
    ClearBit(a, b << 1, 8);
    LowBits(b);
    DropTopBit(Xtime(a), b & 0x7F, 7);
    DistributeRightBits(Xtime(a), b & 0x7F, b & 0x80, 8);
    TopCarry(a, b);
  }

  lemma TimesZero(a: bv8)
    ensures Mul(a, 0) == 0 == Mul(0, a)
  {
    hide Xtime, Add, MulBits;
    TimesZeroBits(a, 8);
    DistributeLeftBits(0, 0, a, 8);
    AddLaws(0, 0, 0);
    AddLaws(Mul(0, a), 0, 0);
  }

  lemma GatedMul(a: bv8, b: bv8, c: bv8)
    ensures Mul(a, Gated(b, c)) == Gated(Mul(a, b), c)
    ensures Mul(Gated(b, c), a) == Gated(Mul(b, a), c)
  {
    hide Mul;
    TimesZero(a);
  }

  lemma {:induction false} AssociateBits(a: bv8, b: bv8, c: bv8, n: nat)
    ensures Mul(a, MulBits(b, c, n)) == MulBits(Mul(a, b), c, n)
    decreases n
  {
    hide Xtime, Add, Mul, Gated, Half;
    TimesZero(a);
    if n != 0 {
      var r := MulBits(Xtime(b), Half(c), n - 1);
      assert Mul(a, Add(Gated(b, c), r)) == Add(Mul(a, Gated(b, c)), Mul(a, r)) by { Distributes(a, Gated(b, c), r); }
      GatedMul(a, b, c);
      AssociateBits(a, Xtime(b), Half(c), n - 1);
      MulXtime(a, b);
    }
  }

  lemma Distributes(a: bv8, b: bv8, c: bv8)
    ensures Mul(a, Add(b, c)) == Add(Mul(a, b), Mul(a, c))
    ensures Mul(Add(b, c), a) == Add(Mul(b, a), Mul(c, a))
  {
    hide Xtime, Add, MulBits;
    DistributeRightBits(a, b, c, 8);
    DistributeLeftBits(b, c, a, 8);
  }

  lemma {:induction false} CommuteBits(e: bv8, a: bv8, b: bv8, n: nat)
    ensures MulBits(Mul(e, a), b, n) == Mul(MulBits(e, b, n), a)
    decreases n
  {
    hide Xtime, Add, Mul, Gated, Half;
    TimesZero(a);
    if n != 0 {
      var r := MulBits(Xtime(e), Half(b), n - 1);
      Distributes(a, Gated(e, b), r);
      GatedMul(a, e, b);
      CommuteBits(Xtime(e), a, Half(b), n - 1);
      MulXtime(e, a);
    }
  }

  lemma LowBit(b: bv8)
    ensures b == Add(Gated(1, b), Xtime(Half(b)))
    ensures Half(1) == 0
    ensures Shr(b, 8) == 0
  {}

  lemma TimesOne(b: bv8)
    ensures Mul(b, 1) == b
  {
    hide MulBits, Xtime, Half, Add;
    LowBit(b);
    ClearBit(b, 1, 8);
    TimesZeroBits(Xtime(b), 7);
    AddLaws(b, 0, 0);
  }

  lemma {:induction false} OneTimesUpTo(b: bv8, n: nat)
    requires Shr(b, n) == 0
    ensures Mul(1, b) == b
    decreases n
  {
    hide Mul, Xtime, Half, Gated, Add;
    if n == 0 {
      TimesZero(1);
    } else {
      OneTimesUpTo(Half(b), n - 1);
      LowBit(b);
      Distributes(1, Gated(1, b), Xtime(Half(b)));
      GatedMul(1, 1, b);
      TimesOne(1);
      MulXtime(1, Half(b));
    }
  }

  /** The field laws of GF(2^8): `Mul` is a commutative monoid with unit 1, distributes over XOR. */
  lemma MulLaws(a: bv8, b: bv8, c: bv8)
    ensures Mul(a, b) == Mul(b, a)
    ensures Mul(a, Mul(b, c)) == Mul(Mul(a, b), c)
    ensures Mul(a, Add(b, c)) == Add(Mul(a, b), Mul(a, c))
    ensures Mul(a, 1) == a
    ensures Mul(a, 0) == 0
  {
    hide Add, Xtime, Half, Gated, MulBits, Shr;
    AssociateBits(a, b, c, 8);
    CommuteBits(1, a, b, 8);
    LowBit(a); LowBit(b);
    OneTimesUpTo(a, 8); OneTimesUpTo(b, 8);
    Distributes(a, b, c);
    TimesOne(a);
    TimesZero(a);
  }

  // ----- Inverses

  /** Squaring, which is additive in characteristic 2. */
  function Square(a: bv8): bv8 { Mul(a, a) }

  lemma SquareAdd(a: bv8, b: bv8)
    ensures Square(Add(a, b)) == Add(Square(a), Square(b))
  {
    hide Add, Mul;
    var m := Mul(a, b);
    MulLaws(Add(a, b), a, b);
    MulLaws(a, a, b); MulLaws(b, a, b);
    MulLaws(a, Add(a, b), 0); MulLaws(b, Add(a, b), 0);
    MulLaws(b, a, 0);
    AddLaws(m, Square(b), 0);
    AddInterchange(Square(a), m, m, Square(b));
    AddInterchange(Square(a), m, Square(b), m);
    AddLaws(m, 0, 0);
    AddLaws(Add(Square(a), Square(b)), 0, 0);
  }

  lemma SquareMul(a: bv8, b: bv8)
    ensures Square(Mul(a, b)) == Mul(Square(a), Square(b))
  {
    hide Add, Mul;
    MulLaws(Mul(a, b), a, b);
    MulLaws(a, b, a); MulLaws(Mul(a, b), b, a); MulLaws(b, a, 0);
    MulLaws(Mul(a, a), b, b); MulLaws(a, a, b); MulLaws(a, b, 0);
    MulLaws(a, Mul(a, b), b);
  }

  /** a^(2^k). */
  function Frobenius(a: bv8, k: nat): bv8
    decreases k, a
  {
    if k == 0 then a else Frobenius(Square(a), k - 1)
  }

  /** Repeated squaring is a ring homomorphism. */
  lemma {:induction false} FrobeniusHom(a: bv8, b: bv8, k: nat)
    ensures Frobenius(Add(a, b), k) == Add(Frobenius(a, k), Frobenius(b, k))
    ensures Frobenius(Mul(a, b), k) == Mul(Frobenius(a, k), Frobenius(b, k))
    decreases k
  {
    hide Add, Mul, Square;
    if k != 0 {
      SquareAdd(a, b);
      SquareMul(a, b);
      FrobeniusHom(Square(a), Square(b), k - 1);
    }
  }

  lemma {:induction false} FrobeniusBits(a: bv8, k: nat)
    ensures Frobenius(0, k) == 0
    ensures Frobenius(1, k) == 1
    decreases k
  {
    hide Mul;
    TimesZero(0);
    TimesOne(1);
    if k != 0 { FrobeniusBits(a, k - 1); }
  }

  /** x^256 = x. */
  lemma GeneratorFixed()
    ensures Frobenius(2, 8) == 2
  {
    hide Mul, Square;
    assert Frobenius(2, 0) == 2;
    hide Frobenius;
    SquareChain();
    FrobeniusStep(0x02, 8); FrobeniusStep(0x04, 7); FrobeniusStep(0x10, 6); FrobeniusStep(0x1D, 5);
    FrobeniusStep(0x4C, 4); FrobeniusStep(0x9D, 3); FrobeniusStep(0x5F, 2); FrobeniusStep(0x85, 1);
  }

  lemma FrobeniusStep(a: bv8, k: nat)
    requires k > 0
    ensures Frobenius(a, k) == Frobenius(Square(a), k - 1)
  {}

  function SquareBit(b: bv8, s: bv8): bv8 { (b & 1) ^ TimesFour(s) }

  lemma SquareBitIs(b: bv8, s: bv8)
    ensures SquareBit(b, s) == Add(Gated(1, b), Xtime(Xtime(s)))
  {
    hide Xtime, TimesFour;
    TimesFourIs(s);
  }

  lemma SquareStep(b: bv8)
    ensures Square(b) == SquareBit(b, Square(Half(b)))
  {
    hide Mul, Xtime, Half, Gated, Add, SquareBit;
    LowBit(b);
    var h := Half(b);
    SquareBitIs(b, Square(h));
    SquareAdd(Gated(1, b), Xtime(h));
    MulXtime(h, Xtime(h));
    MulXtime(h, h);
    GatedMul(Gated(1, b), 1, b);
    GatedMul(1, 1, b);
    TimesOne(1); TimesOne(Gated(1, b)); TimesZero(0);
    GatedIdempotent(b);
  }

  lemma GatedIdempotent(b: bv8)
    ensures Gated(Gated(1, b), b) == Gated(1, b)
  {}

  lemma Halves(b: bv8)
    ensures Half(Half(Half(Half(Half(Half(Half(Half(b)))))))) == 0
  {}

  function SquareFormula(e: bv8): bv8 {
    var h1 := Half(e); var h2 := Half(h1); var h3 := Half(h2); var h4 := Half(h3);
    var h5 := Half(h4); var h6 := Half(h5); var h7 := Half(h6);
    SquareBit(e, SquareBit(h1, SquareBit(h2, SquareBit(h3,
      SquareBit(h4, SquareBit(h5, SquareBit(h6, SquareBit(h7, 0))))))))
  }

  lemma SquareIsFormula(e: bv8)
    ensures Square(e) == SquareFormula(e)
  {
    hide Mul, Square, Half, SquareBit;
    var h1 := Half(e); var h2 := Half(h1); var h3 := Half(h2); var h4 := Half(h3);
    var h5 := Half(h4); var h6 := Half(h5); var h7 := Half(h6);
    SquareStep(e); SquareStep(h1); SquareStep(h2); SquareStep(h3);
    SquareStep(h4); SquareStep(h5); SquareStep(h6); SquareStep(h7);
    Halves(e);
    SquareZero();
  }

  lemma FormulaChain()
    ensures SquareFormula(0x02) == 0x04 && SquareFormula(0x04) == 0x10
    ensures SquareFormula(0x10) == 0x1D && SquareFormula(0x1D) == 0x4C
    ensures SquareFormula(0x4C) == 0x9D && SquareFormula(0x9D) == 0x5F
    ensures SquareFormula(0x5F) == 0x85 && SquareFormula(0x85) == 0x02
  {}

  lemma SquareChain()
    ensures Square(0x02) == 0x04 && Square(0x04) == 0x10 && Square(0x10) == 0x1D && Square(0x1D) == 0x4C
    ensures Square(0x4C) == 0x9D && Square(0x9D) == 0x5F && Square(0x5F) == 0x85 && Square(0x85) == 0x02
  {
    hide Square, SquareFormula;
    FormulaChain();
    SquareIsFormula(0x02); SquareIsFormula(0x04); SquareIsFormula(0x10); SquareIsFormula(0x1D);
    SquareIsFormula(0x4C); SquareIsFormula(0x9D); SquareIsFormula(0x5F); SquareIsFormula(0x85);
  }

  lemma IdempotentBits(e: bv8)
    ensures SquareFormula(e) == e ==> e == 0 || e == 1
  {}

  lemma XtimeIsTimesTwo(a: bv8)
    ensures Xtime(a) == Mul(2, a)
  {
    hide Mul, Half, Add;
    assert Xtime(1) == 2;
    hide Xtime;
    MulXtime(1, a);
    MulLaws(a, 1, 0);
  }

  /** Every element satisfies a^256 == a. */
  lemma {:induction false} FrobeniusFixes(b: bv8, n: nat)
    requires Shr(b, n) == 0
    ensures Frobenius(b, 8) == b
    decreases n
  {
    hide Mul, Xtime, Half, Gated, Add, Square, Frobenius;
    FrobeniusBits(b, 8);
    if n != 0 {
      FrobeniusFixes(Half(b), n - 1);
      LowBit(b);
      FrobeniusHom(Gated(1, b), Xtime(Half(b)), 8);
      XtimeIsTimesTwo(Half(b));
      FrobeniusHom(2, Half(b), 8);
      GeneratorFixed();
      GatedCases(b);
    }
  }

  lemma GatedCases(b: bv8)
    ensures Gated(1, b) == 0 || Gated(1, b) == 1
  {}

  /** a^(2^k - 1): the product of a, a^2, a^4, ... with k factors. */
  function Conjugates(a: bv8, k: nat): bv8
    decreases k, a
  {
    if k == 0 then 1 else Mul(a, Conjugates(Square(a), k - 1))
  }

  lemma {:induction false} ConjugatesTimes(a: bv8, k: nat)
    ensures Mul(Conjugates(a, k), a) == Frobenius(a, k)
    decreases k
  {
    hide Mul, Add;
    if k == 0 {
      MulLaws(1, a, 0); MulLaws(a, 1, 0);
    } else {
      var r := Conjugates(Square(a), k - 1);
      ConjugatesTimes(Square(a), k - 1);
      MulLaws(Mul(a, r), a, 0);
      MulLaws(a, a, r);
      MulLaws(r, Square(a), 0);
    }
  }

  /** a^254, the inverse the doc comment of gf_inv names. */
  function Inverse(a: bv8): bv8 { Conjugates(Square(a), 7) }

  /** The field has no idempotents besides 0 and 1; this is where the modulus being irreducible enters. */
  lemma Idempotent(e: bv8)
    requires Square(e) == e
    ensures e == 0 || e == 1
  {
    hide Square, SquareFormula;
    SquareIsFormula(e);
    IdempotentBits(e);
  }

  lemma SquareZero()
    ensures Square(0) == 0
  {
    hide Mul;
    TimesZero(0);
  }

  /** Every nonzero element has an inverse, and only one. */
  lemma InverseLaw(a: bv8, b: bv8)
    requires a != 0
    ensures Mul(a, Inverse(a)) == 1
    ensures Mul(a, b) == 1 ==> b == Inverse(a)
  {
    hide Mul, Add, Square, Frobenius, Shr;
    var i := Inverse(a);
    var e := Mul(a, i);
    assert e == Conjugates(a, 8);
    assert Mul(e, a) == a by {
      ConjugatesTimes(a, 8);
      LowBit(a);
      FrobeniusFixes(a, 8);
    }
    assert Square(e) == e by {
      SquareIs(e);
      MulLaws(e, a, i);
    }
    Idempotent(e);
    TimesZero(a);
    assert e == 1;
    if Mul(a, b) == 1 {
      MulLaws(i, a, b);
      MulLaws(a, i, 0);
      MulLaws(b, 1, 0);
      MulLaws(i, 1, 0);
    }
  }

  lemma SquareIs(e: bv8) ensures Square(e) == Mul(e, e) {}

  // ----- Multiplication as remainder of the carry-less product

  /** The carry-less product of the low n bits of b with a, unreduced. */
  function Carryless(a: bv8, b: bv8, n: nat): bv16
    decreases n
  {
    if n == 0 then 0 else (Gated(a, b) as bv16) ^ (Carryless(a, Half(b), n - 1) << 1)
  }

  /** q times x^8 + x^4 + x^3 + x^2 + 1, carry-less. */
  function TimesModulus(q: bv8): bv16 {
    var w := q as bv16;
    (w << 8) ^ (w << 4) ^ (w << 3) ^ (w << 2) ^ w
  }

  ghost predicate IsRemainder(p: bv16, r: bv8) {
    exists q: bv8 :: p == TimesModulus(q) ^ (r as bv16)
  }

  lemma RemainderUnique(p: bv16, r: bv8, s: bv8)
    requires IsRemainder(p, r) && IsRemainder(p, s)
    ensures r == s
  {
    hide TimesModulus;
    var q: bv8 :| p == TimesModulus(q) ^ (r as bv16);
    var t: bv8 :| p == TimesModulus(t) ^ (s as bv16);
    QuotientUnique(q, t, r, s);
  }

  lemma QuotientUnique(q: bv8, t: bv8, r: bv8, s: bv8)
    requires TimesModulus(q) ^ (r as bv16) == TimesModulus(t) ^ (s as bv16)
    ensures r == s
  {}

  /** Bits 7 + n and above, the ones Carryless(a, b, n) leaves clear. */
  function High(n: nat): bv16 {
    if n == 0 then 0xFF80 else High(n - 1) << 1
  }

  lemma HighBits(n: nat)
    requires n <= 8
    ensures High(n) & 0x8000 == 0x8000
    ensures n > 0 ==> High(n) & 0x00FF == 0
  {
    assert High(8) == 0x8000;
    assert n == 0 || n == 1 || n == 2 || n == 3 || n == 4 || n == 5 || n == 6 || n == 7 || n == 8;
  }

  lemma ShiftHigh(g: bv8, p: bv16, h: bv16)
    requires p & h == 0 && (h << 1) & 0x00FF == 0
    ensures ((g as bv16) ^ (p << 1)) & (h << 1) == 0
  {}

  lemma {:induction false} CarrylessFits(a: bv8, b: bv8, n: nat)
    requires n <= 8
    ensures Carryless(a, b, n) & High(n) == 0
    decreases n
  {
    hide Half, Gated;
    if n != 0 {
      CarrylessFits(a, Half(b), n - 1);
      HighBits(n);
      ShiftHigh(Gated(a, b), Carryless(a, Half(b), n - 1), High(n - 1));
    }
  }

  lemma TopClear(p: bv16, h: bv16)
    requires p & h == 0 && h & 0x8000 == 0x8000
    ensures p & 0x8000 == 0
  {}

  function NextQuotient(q: bv8, r: bv8): bv8 { (q << 1) ^ (if r & 0x80 != 0 then 1 else 0) }

  lemma RemainderStep(p: bv16, q: bv8, r: bv8, g: bv8)
    requires p == TimesModulus(q) ^ (r as bv16) && p & 0x8000 == 0
    ensures (g as bv16) ^ (p << 1) == TimesModulus(NextQuotient(q, r)) ^ (Add(g, Xtime(r)) as bv16)
  {}

  lemma RemainderOfZero()
    ensures IsRemainder(0, 0)
  {
    assert TimesModulus(0) ^ (0 as bv16) == 0;
  }

  lemma RemainderNext(p: bv16, r: bv8, g: bv8)
    requires IsRemainder(p, r) && p & 0x8000 == 0
    ensures IsRemainder((g as bv16) ^ (p << 1), Add(g, Xtime(r)))
  {
    hide TimesModulus, Add, Xtime;
    var q: bv8 :| p == TimesModulus(q) ^ (r as bv16);
    RemainderStep(p, q, r, g);
  }

  /** The product with the low n bits is the remainder of the carry-less product with them. */
  lemma {:induction false} MulIsRemainderBits(a: bv8, b: bv8, n: nat)
    requires n <= 8
    ensures IsRemainder(Carryless(a, b, n), MulBits(a, b, n))
    decreases n
  {
    hide Half, Gated, Xtime, Add, High, IsRemainder;
    if n == 0 {
      RemainderOfZero();
    } else {
      var p, r := Carryless(a, Half(b), n - 1), MulBits(a, Half(b), n - 1);
      MulIsRemainderBits(a, Half(b), n - 1);
      CarrylessFits(a, Half(b), n - 1);
      HighBits(n - 1);
      TopClear(p, High(n - 1));
      RemainderNext(p, r, Gated(a, b));
      XtimeBits(a, Half(b), n - 1);
    }
  }

  // ----- The functions of the source

  /** What the source's inverse search returns, zero included. */
  function Inv(a: bv8): bv8 { if a == 0 then 0 else Inverse(a) }

  function Div(a: bv8, b: bv8): bv8 { Mul(a, Inv(b)) }

  method GfMul(x: bv8, y: bv8) returns (p: bv8)
    ensures p == Mul(x, y)
    ensures IsRemainder(Carryless(x, y, 8), p)
  {
    hide Xtime, Half, Gated, Add, Mul, MulBits, Carryless, TimesModulus;
    var a, b := x, y;
    p := 0;
    AddLaws(Mul(x, y), 0, 0);
    AddLaws(0, Mul(x, y), 0);
    MulIs(x, y);
    for i := 0 to 8
      invariant Add(p, MulBits(a, b, 8 - i)) == Mul(x, y)
    {
      MulStep(a, b, 8 - i);
      StepIs(p, a, b);
      AddLaws(p, Gated(a, b), MulBits(Xtime(a), Half(b), 7 - i));
      if b & 1 == 1 {
        p := p ^ a;
      }
      var hi := a & 0x80;
      a := a << 1;
      if hi != 0 {
        a := a ^ GF_POLY;
      }
      b := b >> 1;
    }
    MulStep(a, b, 0);
    AddLaws(p, 0, 0);
    MulIsRemainderBits(x, y, 8);
  }

  lemma MulIs(a: bv8, b: bv8) ensures Mul(a, b) == MulBits(a, b, 8) { hide MulBits; }

  lemma MulStep(a: bv8, b: bv8, n: nat)
    ensures MulBits(a, b, n) == if n == 0 then 0 else Add(Gated(a, b), MulBits(Xtime(a), Half(b), n - 1))
  {
    hide Xtime, Half, Gated, Add;
  }

  lemma StepIs(p: bv8, a: bv8, b: bv8)
    ensures b & 1 == 1 ==> p ^ a == Add(p, Gated(a, b))
    ensures b & 1 != 1 ==> p == Add(p, Gated(a, b))
    ensures a & 0x80 != 0 ==> (a << 1) ^ GF_POLY == Xtime(a)
    ensures a & 0x80 == 0 ==> a << 1 == Xtime(a)
    ensures b >> 1 == Half(b)
  {}

  method GfInv(a: bv8) returns (r: bv8)
    ensures r == Inv(a)
    ensures a != 0 ==> Mul(a, r) == 1
  {
    hide Mul, Inverse;
    if a != 0 {
      InverseLaw(a, 0);
      InverseNonzero(a);
    }
    var i: bv16 := 1;
    while i <= 255
      invariant 1 <= i <= 256
      invariant a != 0 ==> i <= Inverse(a) as bv16
      decreases 256 - i
    {
      var m := GfMul(a, i as bv8);
      TimesZero(i as bv8);
      if a != 0 {
        InverseLaw(a, i as bv8);
      }
      if m == 1 {
        return i as bv8;
      }
      i := i + 1;
    }
    return 0;
  }

  lemma InverseNonzero(a: bv8)
    requires a != 0
    ensures Inverse(a) != 0
  {
    hide Mul, Inverse;
    InverseLaw(a, 0);
    TimesZero(a);
  }

  method GfDiv(a: bv8, b: bv8) returns (q: bv8)
    ensures q == Div(a, b)
    ensures b != 0 ==> Mul(q, b) == a
  {
    hide Mul, Inverse;
    var i := GfInv(b);
    q := GfMul(a, i);
    if b != 0 {
      MulLaws(b, i, 0);
      MulLaws(a, i, b);
      MulLaws(a, 1, 0);
    }
  }
}
