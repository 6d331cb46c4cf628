/**
 The byte field GF(2^8) with the AES polynomial, as the Shamir package computes
 in it. Addition and subtraction are exclusive or; multiplication is shift and
 add; the inverse is the 254th power. A byte is its eight bits. The field laws
 are proved from the recursion of the loops, with a handful of concrete products.
 */
module GaloisField {
  import opened Numbers

  /** Eight bits, the lowest first. */
  type Byte = bits: seq<bool> | |bits| == 8 witness [false, false, false, false, false, false, false, false]

  const ZERO: Byte := [false, false, false, false, false, false, false, false]
  const ONE: Byte := [true, false, false, false, false, false, false, false]
  const TWO: Byte := [false, true, false, false, false, false, false, false]

  /** Exclusive or. */
  function Add(a: Byte, b: Byte): (c: Byte)
    ensures forall i :: 0 <= i < 8 ==> c[i] == (a[i] != b[i])
  {
    seq(8, i requires 0 <= i < 8 => a[i] != b[i])
  }

  function ShiftLeft(a: Byte): Byte {
    [false] + a[..7]
  }

  function ShiftRight(a: Byte): Byte {
    a[1..] + [false]
  }

  /** The polynomial without its highest term: 0x1b. */
  const REDUCER: Byte := [true, true, false, true, true, false, false, false]

  /** Multiplication by x: a shift, reduced by the polynomial. */
  function Double(a: Byte): Byte {
    if a[7] then Add(ShiftLeft(a), REDUCER) else ShiftLeft(a)
  }

  function Pick(bit: bool, a: Byte): Byte {
    if bit then a else ZERO
  }

  /** The sum over the low `n` bits of `b` of the doubled `a`s. */
  function MulBits(a: Byte, b: Byte, n: nat): Byte
    decreases n, a
  {
    if n == 0 then ZERO else Add(Pick(b[0], a), MulBits(Double(a), ShiftRight(b), n - 1))
  }

  function Mul(a: Byte, b: Byte): Byte {
    MulBits(a, b, 8)
  }

  function Pow(a: Byte, e: nat): Byte
    decreases e, a
  {
    if e == 0 then ONE else Mul(a, Pow(a, e - 1))
  }

  function Inv(a: Byte): Byte {
    if a == ZERO then ZERO else Pow(a, 254)
  }

  function Div(a: Byte, b: Byte): Byte {
    if b == ZERO then ZERO else Mul(a, Inv(b))
  }

  // ------------------------------------------------------------------- addition

  lemma AddCommutes(a: Byte, b: Byte)
    ensures Add(a, b) == Add(b, a)
  {
  }

  lemma AddAssociates(a: Byte, b: Byte, c: Byte)
    ensures Add(Add(a, b), c) == Add(a, Add(b, c))
  {
  }

  lemma AddZero(a: Byte)
    ensures Add(a, ZERO) == a && Add(ZERO, a) == a
  {
  }

  lemma AddSelf(a: Byte)
    ensures Add(a, a) == ZERO
  {
  }

  lemma AddTwice(a: Byte, b: Byte)
    ensures Add(a, Add(a, b)) == b && Add(Add(a, b), b) == a
  {
  }

  lemma AddCancels(a: Byte, b: Byte)
    ensures Add(a, b) == ZERO <==> a == b
  {
  }

  lemma MiddleFour(a: Byte, b: Byte, c: Byte, d: Byte)
    ensures Add(Add(a, b), Add(c, d)) == Add(Add(a, c), Add(b, d))
  {
  }

  // ----------------------------------------------------------------- linearity

  lemma ShiftLinear(a: Byte, b: Byte)
    ensures ShiftRight(Add(a, b)) == Add(ShiftRight(a), ShiftRight(b))
  {
  }

  lemma DoubleLinear(a: Byte, b: Byte)
    ensures Double(Add(a, b)) == Add(Double(a), Double(b))
  {
  }

  lemma PickLinear(bit: bool, a: Byte, b: Byte)
    ensures Pick(bit, Add(a, b)) == Add(Pick(bit, a), Pick(bit, b))
  {
  }

  lemma PickSplits(x: bool, y: bool, a: Byte)
    ensures Pick(x != y, a) == Add(Pick(x, a), Pick(y, a))
  {
  }

  lemma {:induction false} MulBitsLeftLinear(a: Byte, c: Byte, b: Byte, n: nat)
    ensures MulBits(Add(a, c), b, n) == Add(MulBits(a, b, n), MulBits(c, b, n))
    decreases n
  {
    hide Add, Double, ShiftRight, Pick;
    if n == 0 {
      AddZero(ZERO);
    } else {
      DoubleLinear(a, c);
      PickLinear(b[0], a, c);
      var d, e := MulBits(Double(a), ShiftRight(b), n - 1), MulBits(Double(c), ShiftRight(b), n - 1);
      MulBitsLeftLinear(Double(a), Double(c), ShiftRight(b), n - 1);
      MiddleFour(Pick(b[0], a), Pick(b[0], c), d, e);
    }
  }

  lemma {:induction false} MulBitsRightLinear(a: Byte, b: Byte, c: Byte, n: nat)
    ensures MulBits(a, Add(b, c), n) == Add(MulBits(a, b, n), MulBits(a, c, n))
    decreases n
  {
    hide Add, Double, ShiftRight, Pick;
    if n == 0 {
      AddZero(ZERO);
    } else {
      ShiftLinear(b, c);
      PickSplits(b[0], c[0], a);
      var d, e := MulBits(Double(a), ShiftRight(b), n - 1), MulBits(Double(a), ShiftRight(c), n - 1);
      MulBitsRightLinear(Double(a), ShiftRight(b), ShiftRight(c), n - 1);
      MiddleFour(Pick(b[0], a), Pick(c[0], a), d, e);
    }
  }

  lemma DoublePick(bit: bool, a: Byte)
    ensures Double(Pick(bit, a)) == Pick(bit, Double(a)) && Double(ZERO) == ZERO
  {
  }

  lemma {:induction false} MulBitsDouble(a: Byte, b: Byte, n: nat)
    ensures MulBits(Double(a), b, n) == Double(MulBits(a, b, n))
    decreases n
  {
    hide Add, Double, ShiftRight, Pick;
    DoublePick(b[0], a);
    if n > 0 {
      MulBitsDouble(Double(a), ShiftRight(b), n - 1);
      DoubleLinear(Pick(b[0], a), MulBits(Double(a), ShiftRight(b), n - 1));
    }
  }

  lemma {:induction false} MulBitsZero(b: Byte, n: nat)
    ensures MulBits(ZERO, b, n) == ZERO
    decreases n
  {
    hide Add, Double, ShiftRight;
    DoublePick(false, ZERO);
    AddZero(ZERO);
    if n > 0 {
      MulBitsZero(ShiftRight(b), n - 1);
    }
  }

  // --------------------------------------------------- commutative, associative

  /** The bits from `n` on are zero. */
  predicate Fits(b: Byte, n: nat) {
    forall i :: n <= i < 8 ==> !b[i]
  }

  /** A byte is its lowest bit plus twice the rest. */
  lemma LowBitAndRest(b: Byte, n: nat)
    requires Fits(b, n) && 0 < n <= 8
    ensures Fits(ShiftRight(b), n - 1)
    ensures b == Add(Pick(b[0], ONE), Double(ShiftRight(b)))
  {
  }

  /** The byte `b` times x^k, without the bits that leave it. */
  function Shifted(b: Byte, k: nat): Byte
    requires k <= 8
  {
    ZERO[..k] + b[..8 - k]
  }

  lemma ShiftedStep(b: Byte, k: nat)
    requires k < 8
    ensures Shifted(b, k) == Add(Pick(b[0], Shifted(ONE, k)), Shifted(ShiftRight(b), k + 1))
  {
  }

  lemma UnitDoubles(k: nat)
    requires k < 7
    ensures Double(Shifted(ONE, k)) == Shifted(ONE, k + 1)
  {
    hide Add, Shifted;
    UnitBits(k);
    UnitBits(k + 1);
  }

  lemma UnitBits(k: nat)
    requires k <= 8
    ensures forall i :: 0 <= i < 8 ==> Shifted(ONE, k)[i] == (i == k)
  {
  }

  lemma {:induction false} UnitTimes(b: Byte, k: nat)
    requires k <= 8
    ensures MulBits(Shifted(ONE, k), b, 8 - k) == Shifted(b, k)
    decreases 8 - k
  {
    hide Add, Double, ShiftRight, Pick, Shifted;
    if k == 8 {
      NothingShifted(b);
    } else {
      ShiftedStep(b, k);
      if k < 7 {
        UnitDoubles(k);
        UnitTimes(ShiftRight(b), k + 1);
      } else {
        NothingShifted(ShiftRight(b));
      }
    }
  }

  lemma NothingShifted(b: Byte)
    ensures Shifted(b, 8) == ZERO && Shifted(b, 0) == b
  {
  }

  lemma OneIsLeftUnit(a: Byte)
    ensures Mul(ONE, a) == a
  {
    hide MulBits, Shifted;
    NothingShifted(ONE);
    NothingShifted(a);
    UnitTimes(a, 0);
  }

  lemma PickMul(bit: bool, a: Byte)
    ensures Mul(Pick(bit, ONE), a) == Pick(bit, a)
  {
    hide MulBits;
    OneIsLeftUnit(a);
    MulBitsZero(a, 8);
  }

  lemma {:induction false} MulBitsCommutes(a: Byte, b: Byte, n: nat)
    requires Fits(b, n) && n <= 8
    ensures MulBits(a, b, n) == Mul(b, a)
    decreases n
  {
    hide Add, Double, ShiftRight, Pick;
    if n == 0 {
      assert b == ZERO;
      MulBitsZero(a, 8);
    } else {
      var rest := ShiftRight(b);
      LowBitAndRest(b, n);
      MulBitsCommutes(a, rest, n - 1);
      MulBitsDouble(a, rest, n - 1);
      MulBitsDouble(rest, a, 8);
      MulBitsLeftLinear(Pick(b[0], ONE), Double(rest), a, 8);
      PickMul(b[0], a);
    }
  }

  lemma MulCommutes(a: Byte, b: Byte)
    ensures Mul(a, b) == Mul(b, a)
  {
    hide MulBits;
    MulBitsCommutes(a, b, 8);
  }

  lemma MulDistributes(a: Byte, b: Byte, c: Byte)
    ensures Mul(a, Add(b, c)) == Add(Mul(a, b), Mul(a, c))
    ensures Mul(Add(b, c), a) == Add(Mul(b, a), Mul(c, a))
  {
    hide MulBits, Add;
    MulBitsRightLinear(a, b, c, 8);
    MulBitsLeftLinear(b, c, a, 8);
  }

  lemma MulOne(a: Byte)
    ensures Mul(a, ONE) == a && Mul(ONE, a) == a
  {
    OneIsLeftUnit(a);
    MulCommutes(a, ONE);
  }

  lemma MulZero(a: Byte)
    ensures Mul(a, ZERO) == ZERO && Mul(ZERO, a) == ZERO
  {
    hide MulBits;
    MulBitsZero(a, 8);
    MulCommutes(a, ZERO);
  }

  lemma MulDouble(a: Byte, b: Byte)
    ensures Mul(a, Double(b)) == Double(Mul(a, b))
  {
    hide MulBits, Double;
    MulCommutes(a, Double(b));
    MulCommutes(a, b);
    MulBitsDouble(b, a, 8);
  }

  lemma MulPick(bit: bool, a: Byte, b: Byte)
    ensures Mul(a, Pick(bit, b)) == Pick(bit, Mul(a, b))
  {
    MulZero(a);
    hide MulBits;
  }

  lemma {:induction false} MulBitsAssociates(a: Byte, b: Byte, c: Byte, n: nat)
    ensures MulBits(Mul(a, b), c, n) == Mul(a, MulBits(b, c, n))
    decreases n
  {
    hide Add, Double, ShiftRight, Pick, Mul;
    if n == 0 {
      MulZero(a);
    } else {
      var rest := MulBits(Double(b), ShiftRight(c), n - 1);
      MulDouble(a, b);
      MulBitsAssociates(a, Double(b), ShiftRight(c), n - 1);
      MulDistributes(a, Pick(c[0], b), rest);
      MulPick(c[0], a, b);
    }
  }

  lemma MulAssociates(a: Byte, b: Byte, c: Byte)
    ensures Mul(Mul(a, b), c) == Mul(a, Mul(b, c))
  {
    hide MulBits;
    MulBitsAssociates(a, b, c, 8);
  }

  // -------------------------------------------------------------------- squaring

  function Square(a: Byte): Byte {
    Mul(a, a)
  }

  /** Squaring written out: bit i moves to x^(2i), reduced. */
  function Frobenius(a: Byte): Byte {
    [(a[0] != a[4]) != a[6],
     (a[4] != a[6]) != a[7],
     a[1] != a[5],
     ((a[4] != a[5]) != a[6]) != a[7],
     (a[2] != a[4]) != a[7],
     a[5] != a[6],
     a[3] != a[5],
     a[6] != a[7]]
  }

  lemma SquareAdds(a: Byte, b: Byte)
    ensures Square(Add(a, b)) == Add(Square(a), Square(b))
  {
    hide MulBits, Mul, Add;
    MulDistributes(Add(a, b), a, b);
    MulDistributes(a, a, b);
    MulDistributes(b, a, b);
    MulCommutes(a, b);
    var c := Mul(a, b);
    CrossTermsCancel(Mul(a, a), c, Mul(b, b));
  }

  lemma CrossTermsCancel(x: Byte, c: Byte, y: Byte)
    ensures Add(Add(x, c), Add(c, y)) == Add(x, y)
  {
  }

  lemma SquareDouble(a: Byte)
    ensures Square(Double(a)) == Double(Double(Square(a)))
  {
    hide MulBits, Double;
    MulDouble(Double(a), a);
    MulCommutes(Double(a), a);
    MulDouble(a, a);
  }

  lemma SquareMul(a: Byte, b: Byte)
    ensures Square(Mul(a, b)) == Mul(Square(a), Square(b))
  {
    hide MulBits, Mul;
    MulAssociates(a, b, Mul(a, b));
    MulAssociates(b, a, b);
    MulCommutes(a, b);
    MulAssociates(a, b, b);
    MulAssociates(a, a, Mul(b, b));
  }

  lemma DoubleTwice(a: Byte)
    ensures Double(Double(a)) ==
            [a[6], a[6] != a[7], a[0] != a[7], a[1] != a[6], (a[2] != a[6]) != a[7], a[3] != a[7], a[4], a[5]]
  {
  }

  lemma FrobeniusShifted(a: Byte)
    ensures Frobenius(ShiftRight(a)) ==
            [(a[1] != a[5]) != a[7], a[5] != a[7], a[2] != a[6], (a[5] != a[6]) != a[7], a[3] != a[5], a[6] != a[7],
             a[4] != a[6], a[7]]
  {
  }

  lemma FrobeniusBits(a: Byte)
    ensures var f := Frobenius(a);
            && f[0] == (a[0] != (a[4] != a[6])) && f[1] == ((a[4] != a[6]) != a[7]) && f[2] == (a[1] != a[5])
            && f[3] == (((a[4] != a[5]) != a[6]) != a[7]) && f[4] == ((a[2] != a[4]) != a[7])
            && f[5] == (a[5] != a[6]) && f[6] == (a[3] != a[5]) && f[7] == (a[6] != a[7])
  {
  }

  lemma FrobeniusStep(a: Byte)
    ensures Frobenius(a) == Add(Pick(a[0], ONE), Double(Double(Frobenius(ShiftRight(a)))))
  {
    hide Double, Add, ShiftRight, Frobenius;
    FrobeniusShifted(a);
    var f := Frobenius(ShiftRight(a));
    DoubleTwice(f);
    var r := Double(Double(f));
    FrobeniusBits(a);
    assert r[1] == ((a[4] != a[6]) != a[7]) && r[2] == (a[1] != a[5]) && r[3] == (((a[4] != a[5]) != a[6]) != a[7]);
    assert r[4] == ((a[2] != a[4]) != a[7]) && r[5] == (a[5] != a[6]) && r[6] == (a[3] != a[5])
        && r[7] == (a[6] != a[7]);
    FrobeniusAdds(a, r);
  }

  lemma FrobeniusAdds(a: Byte, rest: Byte)
    requires forall i :: 1 <= i < 8 ==> rest[i] == Frobenius(a)[i]
    requires Frobenius(a)[0] == (a[0] != rest[0])
    ensures Frobenius(a) == Add(Pick(a[0], ONE), rest)
  {
  }

  lemma {:induction false} SquareIsFrobenius(a: Byte, n: nat)
    requires Fits(a, n) && n <= 8
    ensures Square(a) == Frobenius(a)
    decreases n
  {
    hide Mul, Add, Double, Pick;
    if n == 0 {
      assert a == ZERO;
      MulZero(ZERO);
    } else {
      hide Frobenius;
      LowBitAndRest(a, n);
      SquareIsFrobenius(ShiftRight(a), n - 1);
      SquareAdds(Pick(a[0], ONE), Double(ShiftRight(a)));
      SquareDouble(ShiftRight(a));
      SquarePick(a[0]);
      FrobeniusStep(a);
    }
  }

  lemma SquarePick(bit: bool)
    ensures Square(Pick(bit, ONE)) == Pick(bit, ONE)
  {
    MulOne(ONE);
    MulZero(ZERO);
    hide MulBits, Mul;
  }

  function SquareTimes(a: Byte, n: nat): Byte
    decreases n, a
  {
    if n == 0 then a else Square(SquareTimes(a, n - 1))
  }

  lemma SquareTwo(n: nat, v: Byte, v': Byte)
    requires n > 0 && Frobenius(v) == v'
    ensures n == 1 && v == TWO ==> SquareTimes(TWO, n) == v'
    ensures SquareTimes(TWO, n - 1) == v ==> SquareTimes(TWO, n) == v'
  {
    hide Square, Frobenius;
    SquareIsFrobenius(v, 8);
  }

  lemma TwoTo256()
    ensures SquareTimes(TWO, 8) == TWO
  {
    hide Square, SquareTimes;
    SquareTwo(1, [false, true, false, false, false, false, false, false],
              [false, false, true, false, false, false, false, false]);
    SquareTwo(2, [false, false, true, false, false, false, false, false],
              [false, false, false, false, true, false, false, false]);
    SquareTwo(3, [false, false, false, false, true, false, false, false],
              [true, true, false, true, true, false, false, false]);
    SquareTwo(4, [true, true, false, true, true, false, false, false],
              [false, true, true, true, true, false, true, false]);
    SquareTwo(5, [false, true, true, true, true, false, true, false],
              [false, false, true, false, false, true, true, true]);
    SquareTwo(6, [false, false, true, false, false, true, true, true],
              [true, false, true, true, false, false, true, false]);
    SquareTwo(7, [true, false, true, true, false, false, true, false],
              [false, true, false, true, true, true, true, true]);
    SquareTwo(8, [false, true, false, true, true, true, true, true],
              [false, true, false, false, false, false, false, false]);
  }

  lemma {:induction false} SquareTimesAdds(a: Byte, b: Byte, n: nat)
    ensures SquareTimes(Add(a, b), n) == Add(SquareTimes(a, n), SquareTimes(b, n))
  {
    hide Square, Add;
    if n > 0 {
      SquareTimesAdds(a, b, n - 1);
      SquareAdds(SquareTimes(a, n - 1), SquareTimes(b, n - 1));
    }
  }

  lemma {:induction false} SquareTimesMul(a: Byte, b: Byte, n: nat)
    ensures SquareTimes(Mul(a, b), n) == Mul(SquareTimes(a, n), SquareTimes(b, n))
  {
    hide Square, Mul;
    if n > 0 {
      SquareTimesMul(a, b, n - 1);
      SquareMul(SquareTimes(a, n - 1), SquareTimes(b, n - 1));
    }
  }

  lemma {:induction false} SquareTimesPick(bit: bool, n: nat)
    ensures SquareTimes(Pick(bit, ONE), n) == Pick(bit, ONE)
  {
    hide Square, Pick;
    if n > 0 {
      SquareTimesPick(bit, n - 1);
      SquarePick(bit);
    }
  }

  lemma DoubleIsTimesTwo(a: Byte)
    ensures Double(a) == Mul(TWO, a)
  {
    assert Double(ONE) == TWO;
    hide MulBits, Double;
    MulBitsDouble(ONE, a, 8);
    OneIsLeftUnit(a);
  }

  /**
   Multiplying by x moves every bit up and replaces the highest term by x^4 + x^3 + x + 1. With the laws above, no
   other product does this.
   */
  lemma TimesX(a: Byte)
    ensures Mul([false, true, false, false, false, false, false, false], a) ==
            [a[7], a[0] != a[7], a[1], a[2] != a[7], a[3] != a[7], a[4], a[5], a[6]]
  {
    hide MulBits;
    DoubleIsTimesTwo(a);
  }

  /** Every byte is its own 256th power. */
  lemma {:induction false} SquareEightTimes(a: Byte, n: nat)
    requires Fits(a, n) && n <= 8
    ensures SquareTimes(a, 8) == a
    decreases n
  {
    hide SquareTimes, Mul, Add, Double, Pick, ShiftRight;
    if n == 0 {
      assert a == Pick(false, ONE) by { PickFalse(); }
      SquareTimesPick(false, 8);
    } else {
      var rest := ShiftRight(a);
      LowBitAndRest(a, n);
      SquareEightTimes(rest, n - 1);
      SquareTimesAdds(Pick(a[0], ONE), Double(rest), 8);
      SquareTimesPick(a[0], 8);
      DoubleIsTimesTwo(rest);
      SquareTimesMul(TWO, rest, 8);
      TwoTo256();
    }
  }

  lemma PickFalse()
    ensures Pick(false, ONE) == ZERO
  {
  }

  // --------------------------------------------------------------------- powers

  lemma {:induction false} PowAdds(a: Byte, m: nat, n: nat)
    ensures Pow(a, m + n) == Mul(Pow(a, m), Pow(a, n))
    decreases m
  {
    hide Mul;
    if m == 0 {
      MulOne(Pow(a, n));
    } else {
      PowAdds(a, m - 1, n);
      MulAssociates(a, Pow(a, m - 1), Pow(a, n));
    }
  }

  lemma {:induction false} PowOfSquare(a: Byte, n: nat)
    ensures Pow(a, 2 * n) == Pow(Mul(a, a), n)
    decreases n
  {
    hide Mul;
    if n > 0 {
      PowOfSquare(a, n - 1);
      assert Pow(a, 2 * n) == Mul(a, Mul(a, Pow(a, 2 * n - 2)));
      MulAssociates(a, a, Pow(a, 2 * n - 2));
    }
  }

  lemma {:induction false} PowIsSquareTimes(a: Byte, n: nat)
    ensures Pow(a, Pow2(n)) == SquareTimes(a, n)
  {
    hide Mul;
    if n == 0 {
      MulOne(a);
      assert Pow(a, 1) == Mul(a, Pow(a, 0));
    } else {
      PowIsSquareTimes(a, n - 1);
      PowAdds(a, Pow2(n - 1), Pow2(n - 1));
    }
  }

  lemma TwoToTheEight()
    ensures Pow2(8) == 256
  {
    assert Pow2(2) == 4 && Pow2(4) == 16 && Pow2(6) == 64;
  }

  lemma Pow256(a: Byte)
    ensures Pow(a, 256) == a
  {
    hide Pow, SquareTimes, Pow2;
    TwoToTheEight();
    PowIsSquareTimes(a, 8);
    SquareEightTimes(a, 8);
  }

  /** Only 0 and 1 are their own squares: the polynomial has no proper factor. */
  lemma Idempotents(e: Byte)
    requires Square(e) == e
    ensures e == ZERO || e == ONE
  {
    hide Mul;
    SquareIsFrobenius(e, 8);
    hide Square;
  }

  lemma PowNext(a: Byte, n: nat)
    ensures Pow(a, n + 1) == Mul(a, Pow(a, n))
  {
    hide Mul;
  }

  /** Every byte but 0 has its 254th power as inverse. */
  lemma Inverse(a: Byte)
    requires a != ZERO
    ensures Mul(a, Inv(a)) == ONE && Inv(a) != ZERO
  {
    hide Mul, Pow;
    var e := Pow(a, 255);
    PowNext(a, 254);
    PowNext(a, 255);
    Pow256(a);
    PowAdds(a, 255, 255);
    PowAdds(a, 256, 254);
    Idempotents(e);
    MulZero(a);
  }

  lemma DivMul(a: Byte, b: Byte)
    requires b != ZERO
    ensures Mul(Div(a, b), b) == a
  {
    hide Mul, Inv;
    Inverse(b);
    MulAssociates(a, Inv(b), b);
    MulCommutes(Inv(b), b);
    MulOne(a);
  }

  /** Nothing but 0 is lost by multiplying. */
  lemma MulNonZero(a: Byte, b: Byte)
    requires a != ZERO && b != ZERO
    ensures Mul(a, b) != ZERO
  {
    hide Mul, Inv;
    Inverse(b);
    MulAssociates(a, b, Inv(b));
    MulOne(a);
    MulZero(Inv(b));
  }

  lemma MulCancels(a: Byte, b: Byte, c: Byte)
    requires c != ZERO && Mul(a, c) == Mul(b, c)
    ensures a == b
  {
    hide Mul, Inv;
    Inverse(c);
    MulAssociates(a, c, Inv(c));
    MulAssociates(b, c, Inv(c));
    MulOne(a);
    MulOne(b);
  }

  // ------------------------------------------------------------------- the loops

  method GfMul(a0: Byte, b0: Byte) returns (p: Byte)
    ensures p == Mul(a0, b0)
  {
    hide Add, ShiftLeft, ShiftRight;
    var a, b := a0, b0;
    p := ZERO;
    AddZero(MulBits(a, b, 8));
    for i := 0 to 8
      invariant Mul(a0, b0) == Add(p, MulBits(a, b, 8 - i))
    {
      ghost var rest := MulBits(Double(a), ShiftRight(b), 7 - i);
      AddAssociates(p, Pick(b[0], a), rest);
      AddZero(p);
      if b[0] {
        p := Add(p, a);
      }
      var hi := a[7];
      a := ShiftLeft(a);
      if hi {
        a := Add(a, REDUCER);
      }
      b := ShiftRight(b);
    }
    AddZero(p);
  }

  method GfExp(a0: Byte, e0: nat) returns (r: Byte)
    ensures r == Pow(a0, e0)
  {
    hide Mul;
    var a, e := a0, e0;
    r := ONE;
    MulOne(Pow(a, e));
    while e > 0
      invariant Mul(r, Pow(a, e)) == Pow(a0, e0)
    {
      PowOfSquare(a, e / 2);
      if e % 2 == 1 {
        MulAssociates(r, a, Pow(a, e - 1));
        r := GfMul(r, a);
      }
      a := GfMul(a, a);
      e := e / 2;
    }
    MulOne(r);
  }

  method GfInv(a: Byte) returns (r: Byte)
    ensures r == Inv(a)
    ensures if a == ZERO then r == ZERO else Mul(a, r) == ONE
  {
    hide Mul, Pow;
    if a == ZERO {
      return ZERO;
    }
    Inverse(a);
    r := GfExp(a, 254);
  }

  method GfDiv(a: Byte, b: Byte) returns (r: Byte)
    ensures r == Div(a, b)
    ensures if b == ZERO then r == ZERO else Mul(r, b) == a
  {
    hide Mul, Inv;
    if b == ZERO {
      return ZERO;
    }
    DivMul(a, b);
    var i := GfInv(b);
    r := GfMul(a, i);
  }
}
