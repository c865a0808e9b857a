/** The field GF(256) behind the QR Reed-Solomon code: the exponent and logarithm
    tables, the table-driven product, and its meaning as a carry-less product
    reduced modulo 0x11d.

    Bytes are bit-vectors. Their exclusive-or is wrapped in Xor so that lemmas can
    hide it and argue by its laws instead of bit by bit. */
module Gf256 {

  // ---------------------------------------------------------------------------
  // Exclusive-or

  function Xor(a: bv8, b: bv8): bv8 {
    a ^ b
  }

  lemma XorAssociatesRaw(a: bv8, b: bv8, c: bv8)
    ensures (a ^ b) ^ c == a ^ (b ^ c)
  {}

  lemma XorAssociates(a: bv8, b: bv8, c: bv8)
    ensures Xor(Xor(a, b), c) == Xor(a, Xor(b, c))
  {
    XorAssociatesRaw(a, b, c);
  }

  lemma XorCommutes(a: bv8, b: bv8)
    ensures Xor(a, b) == Xor(b, a)
  {}

  lemma XorUnit(a: bv8)
    ensures Xor(a, 0) == a && Xor(0, a) == a && Xor(a, a) == 0
  {}

  lemma XorIsZero(a: bv8, b: bv8)
    ensures Xor(a, b) == 0 <==> a == b
  {}

  lemma XorSwap(a: bv8, b: bv8, c: bv8, d: bv8)
    ensures Xor(Xor(a, b), Xor(c, d)) == Xor(Xor(a, c), Xor(b, d))
  {
    hide Xor;
    XorAssociates(a, b, Xor(c, d));
    XorAssociates(b, c, d);
    XorCommutes(b, c);
    XorAssociates(c, b, d);
    XorAssociates(a, c, Xor(b, d));
  }

  // ---------------------------------------------------------------------------
  // Multiplication by x and by an arbitrary element

  /** Multiplication by x modulo x^8 + x^4 + x^3 + x^2 + 1. */
  function Xtime(a: bv8): bv8 {
    if a & 0x80 != 0 then (a << 1) ^ 0x1d else a << 1
  }

  /** x to the power i. */
  function Exp(i: nat): bv8 {
    if i == 0 then 1 else Xtime(Exp(i - 1))
  }

  predicate Odd(b: bv8) {
    b & 1 != 0
  }

  function Half(b: bv8): bv8 {
    b >> 1
  }

  function Select(chosen: bool, a: bv8): bv8 {
    if chosen then a else 0
  }

  /** The low n bits of b select which of a, x*a, x^2*a, ... are summed. */
  function MulBits(a: bv8, b: bv8, n: nat): bv8
    decreases n
  {
    if n == 0 then 0 else Xor(Select(Odd(b), a), MulBits(Xtime(a), Half(b), n - 1))
  }

  function Mul(a: bv8, b: bv8): bv8 {
    MulBits(a, b, 8)
  }

  // Xtime without a conditional: an XOR of shifts, so linearity is immediate.
  function XtimeByShifts(a: bv8): bv8 {
    (a << 1) ^ (a >> 7) ^ ((a >> 7) << 2) ^ ((a >> 7) << 3) ^ ((a >> 7) << 4)
  }

  lemma XtimeIsShifts(a: bv8)
    ensures Xtime(a) == XtimeByShifts(a)
  {}

  lemma ShiftsAreLinear(a: bv8, b: bv8)
    ensures XtimeByShifts(a ^ b) == XtimeByShifts(a) ^ XtimeByShifts(b)
  {}

  lemma XtimeXor(a: bv8, b: bv8)
    ensures Xtime(Xor(a, b)) == Xor(Xtime(a), Xtime(b))
  {
    hide Xtime, XtimeByShifts;
    XtimeIsShifts(a);
    XtimeIsShifts(b);
    XtimeIsShifts(a ^ b);
    ShiftsAreLinear(a, b);
  }

  lemma XtimeIsZero(a: bv8)
    ensures Xtime(a) == 0 <==> a == 0
  {}

  lemma XtimeInjective(a: bv8, b: bv8)
    requires Xtime(a) == Xtime(b)
    ensures a == b
  {
    hide Xtime, Xor;
    XtimeXor(a, b);
    XorIsZero(Xtime(a), Xtime(b));
    XtimeIsZero(Xor(a, b));
    XorIsZero(a, b);
  }

  lemma BitsOfXor(b: bv8, d: bv8, a: bv8)
    ensures Half(Xor(b, d)) == Xor(Half(b), Half(d))
    ensures Select(Odd(Xor(b, d)), a) == Xor(Select(Odd(b), a), Select(Odd(d), a))
  {
    assert (b ^ d) >> 1 == (b >> 1) ^ (d >> 1);
    assert (b ^ d) & 1 == (b & 1) ^ (d & 1);
    XorUnit(a);
  }

  lemma {:induction false} MulBitsZero(b: bv8, n: nat)
    ensures MulBits(0, b, n) == 0
    decreases n
  {
    XtimeIsZero(0);
    XorUnit(0);
    if n != 0 { MulBitsZero(Half(b), n - 1); }
  }

  lemma {:induction false} MulBitsByZero(a: bv8, n: nat)
    ensures MulBits(a, 0, n) == 0
    decreases n
  {
    XorUnit(0);
    if n != 0 { MulBitsByZero(Xtime(a), n - 1); }
  }

  lemma {:induction false} MulBitsXorLeft(a: bv8, c: bv8, b: bv8, n: nat)
    ensures MulBits(Xor(a, c), b, n) == Xor(MulBits(a, b, n), MulBits(c, b, n))
    decreases n
  {
    hide Xor, Xtime, Odd, Half;
    XorUnit(0);
    if n != 0 {
      XtimeXor(a, c);
      MulBitsXorLeft(Xtime(a), Xtime(c), Half(b), n - 1);
      XorSwap(Select(Odd(b), a), MulBits(Xtime(a), Half(b), n - 1),
              Select(Odd(b), c), MulBits(Xtime(c), Half(b), n - 1));
    }
  }

  lemma {:induction false} MulBitsXorRight(a: bv8, b: bv8, d: bv8, n: nat)
    ensures MulBits(a, Xor(b, d), n) == Xor(MulBits(a, b, n), MulBits(a, d, n))
    decreases n
  {
    hide Xor, Xtime, Odd, Half, Select;
    XorUnit(0);
    if n != 0 {
      BitsOfXor(b, d, a);
      MulBitsXorRight(Xtime(a), Half(b), Half(d), n - 1);
      XorSwap(Select(Odd(b), a), MulBits(Xtime(a), Half(b), n - 1),
              Select(Odd(d), a), MulBits(Xtime(a), Half(d), n - 1));
    }
  }

  lemma {:induction false} MulBitsXtime(a: bv8, b: bv8, n: nat)
    ensures MulBits(Xtime(a), b, n) == Xtime(MulBits(a, b, n))
    decreases n
  {
    hide Xor, Xtime, Odd, Half;
    XtimeIsZero(0);
    if n != 0 {
      MulBitsXtime(Xtime(a), Half(b), n - 1);
      XtimeXor(Select(Odd(b), a), MulBits(Xtime(a), Half(b), n - 1));
    }
  }

  lemma MulZero(a: bv8)
    ensures Mul(0, a) == 0 && Mul(a, 0) == 0
  {
    hide MulBits;
    MulBitsZero(a, 8);
    MulBitsByZero(a, 8);
  }

  lemma PowersBelowEight()
    ensures Xtime(0x01) == 0x02 && Xtime(0x02) == 0x04 && Xtime(0x04) == 0x08 && Xtime(0x08) == 0x10
    ensures Xtime(0x10) == 0x20 && Xtime(0x20) == 0x40 && Xtime(0x40) == 0x80
  {}

  lemma HalfSteps(b: bv8)
    ensures Half(b) == b >> 1 && Half(b >> 1) == b >> 2 && Half(b >> 2) == b >> 3 && Half(b >> 3) == b >> 4
    ensures Half(b >> 4) == b >> 5 && Half(b >> 5) == b >> 6 && Half(b >> 6) == b >> 7
  {}

  // Adding the bit selected at one position extends a suffix of the byte by that bit.
  lemma SuffixesOfByte(b: bv8)
    ensures Xor(Select(Odd(b >> 7), 0x80), 0) == b & 0x80
    ensures Xor(Select(Odd(b >> 6), 0x40), b & 0x80) == b & 0xc0
    ensures Xor(Select(Odd(b >> 5), 0x20), b & 0xc0) == b & 0xe0
    ensures Xor(Select(Odd(b >> 4), 0x10), b & 0xe0) == b & 0xf0
    ensures Xor(Select(Odd(b >> 3), 0x08), b & 0xf0) == b & 0xf8
    ensures Xor(Select(Odd(b >> 2), 0x04), b & 0xf8) == b & 0xfc
    ensures Xor(Select(Odd(b >> 1), 0x02), b & 0xfc) == b & 0xfe
    ensures Xor(Select(Odd(b), 0x01), b & 0xfe) == b
  {}

  lemma {:induction false} MulOneLeft(b: bv8)
    ensures Mul(1, b) == b
  {
    hide Xtime, Xor, Odd, Half, Select;
    PowersBelowEight();
    HalfSteps(b);
    SuffixesOfByte(b);
    assert MulBits(0x80, b >> 7, 1) == b & 0x80;
    assert MulBits(0x40, b >> 6, 2) == b & 0xc0;
    assert MulBits(0x20, b >> 5, 3) == b & 0xe0;
    assert MulBits(0x10, b >> 4, 4) == b & 0xf0;
    assert MulBits(0x08, b >> 3, 5) == b & 0xf8;
    assert MulBits(0x04, b >> 2, 6) == b & 0xfc;
    assert MulBits(0x02, b >> 1, 7) == b & 0xfe;
  }

  lemma MulOne(b: bv8)
    ensures Mul(1, b) == b && Mul(b, 1) == b
  {
    MulOneLeft(b);
    MulBitsByZero(Xtime(b), 7);
    XorUnit(b);
    assert Odd(1) && Half(1) == 0;
  }

  lemma MulXorLeft(a: bv8, b: bv8, c: bv8)
    ensures Mul(Xor(a, b), c) == Xor(Mul(a, c), Mul(b, c))
  {
    hide MulBits, Xor;
    MulBitsXorLeft(a, b, c, 8);
  }

  lemma MulXorRight(a: bv8, b: bv8, c: bv8)
    ensures Mul(a, Xor(b, c)) == Xor(Mul(a, b), Mul(a, c))
  {
    hide MulBits, Xor;
    MulBitsXorRight(a, b, c, 8);
  }

  lemma MulSelect(chosen: bool, p: bv8, c: bv8)
    ensures Mul(Select(chosen, p), c) == Select(chosen, Mul(p, c))
  {
    hide MulBits;
    MulBitsZero(c, 8);
  }

  // Multiplying a selected sum by c is the same selection of multiples of c.
  lemma {:induction false} MulOfSelection(p: bv8, b: bv8, c: bv8, n: nat)
    ensures Mul(MulBits(p, b, n), c) == MulBits(Mul(p, c), b, n)
    decreases n
  {
    hide Xor, Xtime, Odd, Half, Select, Mul;
    if n == 0 {
      MulZero(c);
    } else {
      var rest := MulBits(Xtime(p), Half(b), n - 1);
      MulXorLeft(Select(Odd(b), p), rest, c);
      MulSelect(Odd(b), p, c);
      MulOfSelection(Xtime(p), Half(b), c, n - 1);
      MulXtime(p, c);
    }
  }

  lemma MulXtime(p: bv8, c: bv8)
    ensures Mul(Xtime(p), c) == Xtime(Mul(p, c))
  {
    hide MulBits, Xtime;
    MulBitsXtime(p, c, 8);
  }

  lemma MulCommutes(a: bv8, b: bv8)
    ensures Mul(a, b) == Mul(b, a)
  {
    hide MulBits;
    MulOfSelection(1, a, b, 8);
    MulOne(a);
    MulOne(b);
  }

  lemma MulAssociates(a: bv8, b: bv8, c: bv8)
    ensures Mul(Mul(a, b), c) == Mul(a, Mul(b, c))
  {
    hide MulBits;
    MulCommutes(a, b);
    MulOfSelection(b, a, c, 8);
    MulCommutes(Mul(b, c), a);
  }

  // ---------------------------------------------------------------------------
  // The same product as a carry-less product of polynomials and its remainder

  function WideXor(a: bv16, b: bv16): bv16 {
    a ^ b
  }

  function Double(a: bv16): bv16 {
    a << 1
  }

  /** Carry-less product of a with the low n bits of b. */
  function CarrylessProduct(a: bv16, b: bv8, n: nat): bv16
    decreases n
  {
    if n == 0 then 0
    else WideXor(if Odd(b) then a else 0, CarrylessProduct(Double(a), Half(b), n - 1))
  }

  /** Carry-less product of q with 0x11d, the sum of x^8, x^4, x^3, x^2 and 1. */
  function TimesModulus(q: bv16): bv16 {
    WideXor(WideXor(WideXor(q << 8, q << 4), WideXor(q << 3, q << 2)), q)
  }

  function Widen(r: bv8): bv16 {
    r as bv16
  }

  /** r is what is left of u after subtracting q times the modulus. */
  predicate Leaves(u: bv16, q: bv16, r: bv8) {
    u == WideXor(TimesModulus(q), Widen(r))
  }

  // The bits that a polynomial of degree less than i does not use.
  function FromDegree(i: nat): bv16 {
    if i == 0 then 0xffff else Double(FromDegree(i - 1))
  }

  predicate Below(q: bv16, mask: bv16) {
    q & mask == 0
  }

  function TopBit(r: bv8): bv16 {
    (r >> 7) as bv16
  }

  lemma WideXorAssociatesRaw(a: bv16, b: bv16, c: bv16)
    ensures (a ^ b) ^ c == a ^ (b ^ c)
  {}

  lemma WideXorAssociates(a: bv16, b: bv16, c: bv16)
    ensures WideXor(WideXor(a, b), c) == WideXor(a, WideXor(b, c))
  {
    WideXorAssociatesRaw(a, b, c);
  }

  lemma WideXorCommutes(a: bv16, b: bv16)
    ensures WideXor(a, b) == WideXor(b, a)
  {}

  lemma WideXorUnit(a: bv16)
    ensures WideXor(a, 0) == a && WideXor(0, a) == a && WideXor(a, a) == 0
  {}

  lemma WideXorSwap(a: bv16, b: bv16, c: bv16, d: bv16)
    ensures WideXor(WideXor(a, b), WideXor(c, d)) == WideXor(WideXor(a, c), WideXor(b, d))
  {
    hide WideXor;
    WideXorAssociates(a, b, WideXor(c, d));
    WideXorAssociates(b, c, d);
    WideXorCommutes(b, c);
    WideXorAssociates(c, b, d);
    WideXorAssociates(a, c, WideXor(b, d));
  }

  lemma WideXorIs(a: bv16, b: bv16)
    ensures WideXor(a, b) == a ^ b
  {}

  lemma ShiftRaw(p: bv16, q: bv16, w: bv16)
    requires w == p ^ q
    ensures w << 1 == (p << 1) ^ (q << 1) && w << 2 == (p << 2) ^ (q << 2)
    ensures w << 3 == (p << 3) ^ (q << 3) && w << 4 == (p << 4) ^ (q << 4)
    ensures w << 8 == (p << 8) ^ (q << 8)
  {}

  lemma DoubleOfWideXor(p: bv16, q: bv16)
    ensures Double(WideXor(p, q)) == WideXor(Double(p), Double(q))
  {
    hide WideXor;
    WideXorIs(p, q);
    ShiftRaw(p, q, WideXor(p, q));
    WideXorIs(p << 1, q << 1);
  }

  lemma Shift2OfWideXor(p: bv16, q: bv16)
    ensures WideXor(p, q) << 2 == WideXor(p << 2, q << 2)
  {
    hide WideXor;
    WideXorIs(p, q);
    ShiftRaw(p, q, WideXor(p, q));
    WideXorIs(p << 2, q << 2);
  }

  lemma Shift3OfWideXor(p: bv16, q: bv16)
    ensures WideXor(p, q) << 3 == WideXor(p << 3, q << 3)
  {
    hide WideXor;
    WideXorIs(p, q);
    ShiftRaw(p, q, WideXor(p, q));
    WideXorIs(p << 3, q << 3);
  }

  lemma Shift4OfWideXor(p: bv16, q: bv16)
    ensures WideXor(p, q) << 4 == WideXor(p << 4, q << 4)
  {
    hide WideXor;
    WideXorIs(p, q);
    ShiftRaw(p, q, WideXor(p, q));
    WideXorIs(p << 4, q << 4);
  }

  lemma Shift8OfWideXor(p: bv16, q: bv16)
    ensures WideXor(p, q) << 8 == WideXor(p << 8, q << 8)
  {
    hide WideXor;
    WideXorIs(p, q);
    ShiftRaw(p, q, WideXor(p, q));
    WideXorIs(p << 8, q << 8);
  }

  lemma TimesModulusXor(p: bv16, q: bv16)
    ensures TimesModulus(WideXor(p, q)) == WideXor(TimesModulus(p), TimesModulus(q))
  {
    hide WideXor;
    Shift2OfWideXor(p, q);
    Shift3OfWideXor(p, q);
    Shift4OfWideXor(p, q);
    Shift8OfWideXor(p, q);
    WideXorSwap(p << 8, q << 8, p << 4, q << 4);
    WideXorSwap(p << 3, q << 3, p << 2, q << 2);
    WideXorSwap(WideXor(p << 8, p << 4), WideXor(q << 8, q << 4), WideXor(p << 3, p << 2), WideXor(q << 3, q << 2));
    WideXorSwap(WideXor(WideXor(p << 8, p << 4), WideXor(p << 3, p << 2)),
                WideXor(WideXor(q << 8, q << 4), WideXor(q << 3, q << 2)), p, q);
  }

  lemma DoubleModulus(q: bv16)
    ensures TimesModulus(Double(q)) == Double(TimesModulus(q))
  {}

  lemma DoubleRemainder(r: bv8)
    ensures Double(Widen(r)) == WideXor(TimesModulus(TopBit(r)), Widen(Xtime(r)))
  {}

  // Doubling a dividend doubles its quotient and brings down one more digit.
  lemma DoubleLeaves(u: bv16, q: bv16, r: bv8)
    requires Leaves(u, q, r)
    ensures Leaves(Double(u), WideXor(Double(q), TopBit(r)), Xtime(r))
  {
    hide WideXor, TimesModulus, Xtime, Widen, TopBit, Double;
    DoubleOfWideXor(TimesModulus(q), Widen(r));
    DoubleModulus(q);
    DoubleRemainder(r);
    TimesModulusXor(Double(q), TopBit(r));
    WideXorAssociates(TimesModulus(Double(q)), TimesModulus(TopBit(r)), Widen(Xtime(r)));
  }

  lemma DoubleBelow(q: bv16, r: bv8, mask: bv16)
    requires Below(q, mask)
    ensures Below(WideXor(Double(q), TopBit(r)), Double(mask))
  {
    assert (q << 1) & (mask << 1) == (q & mask) << 1;
    TopBitBelow(r, mask);
    BelowXor(Double(q), TopBit(r), Double(mask));
  }

  lemma TopBitBelow(r: bv8, mask: bv16)
    ensures Below(TopBit(r), Double(mask))
  {}

  lemma BelowXor(p: bv16, q: bv16, mask: bv16)
    requires Below(p, mask) && Below(q, mask)
    ensures Below(WideXor(p, q), mask)
  {
    assert (p ^ q) & mask == (p & mask) ^ (q & mask);
  }

  lemma BelowNext(q: bv16, mask: bv16)
    requires Below(q, mask) && Below(Double(mask), !mask)
    ensures Below(q, Double(mask))
  {}

  lemma {:induction false} FromDegreeShrinks(i: nat)
    ensures Below(Double(FromDegree(i)), !FromDegree(i))
  {
    if i != 0 { FromDegreeShrinks(i - 1); ShrinksAgain(FromDegree(i - 1)); }
  }

  lemma ShrinksAgain(mask: bv16)
    requires Below(Double(mask), !mask)
    ensures Below(Double(Double(mask)), !Double(mask))
  {}

  lemma WidenXor(a: bv8, b: bv8)
    ensures Widen(Xor(a, b)) == WideXor(Widen(a), Widen(b))
  {}

  lemma LeavesXor(u: bv16, q: bv16, r: bv8, u': bv16, q': bv16, r': bv8)
    requires Leaves(u, q, r) && Leaves(u', q', r')
    ensures Leaves(WideXor(u, u'), WideXor(q, q'), Xor(r, r'))
  {
    hide WideXor, TimesModulus, Widen, Xor;
    TimesModulusXor(q, q');
    WidenXor(r, r');
    WideXorSwap(TimesModulus(q), Widen(r), TimesModulus(q'), Widen(r'));
  }

  lemma LeavesNothing()
    ensures Leaves(0, 0, 0)
  {}

  lemma FromDegreeStep(i: nat)
    ensures FromDegree(i + 1) == Double(FromDegree(i))
  {}

  lemma BelowNothing()
    ensures forall mask :: Below(0, mask)
  {}

  lemma SelectIs(chosen: bool, a: bv8)
    ensures Select(chosen, a) == if chosen then a else 0
  {}

  // Selecting from multiples of u leaves the same selection of multiples of r.
  lemma {:induction false} SelectionLeaves(u: bv16, q: bv16, r: bv8, b: bv8, i: nat, n: nat) returns (p: bv16)
    requires Leaves(u, q, r) && Below(q, FromDegree(i)) && n >= 1
    ensures Leaves(CarrylessProduct(u, b, n), p, MulBits(r, b, n)) && Below(p, FromDegree(i + n - 1))
    decreases n
  {
    hide WideXor, TimesModulus, Widen, Xor, Xtime, Leaves, Odd, Half, TopBit, Double, Below, Select, FromDegree;
    LeavesNothing();
    BelowNothing();
    SelectIs(Odd(b), r);
    var rest: bv16 := 0;
    if n > 1 {
      DoubleLeaves(u, q, r);
      DoubleBelow(q, r, FromDegree(i));
      FromDegreeStep(i);
      rest := SelectionLeaves(Double(u), WideXor(Double(q), TopBit(r)), Xtime(r), Half(b), i + 1, n - 1);
    }
    p := WideXor(if Odd(b) then q else 0, rest);
    LeavesXor(if Odd(b) then u else 0, if Odd(b) then q else 0, Select(Odd(b), r),
              CarrylessProduct(Double(u), Half(b), n - 1), rest, MulBits(Xtime(r), Half(b), n - 1));
    BelowLater(q, i, n - 1);
    BelowXor(if Odd(b) then q else 0, rest, FromDegree(i + n - 1));
  }

  lemma {:induction false} BelowLater(q: bv16, i: nat, k: nat)
    requires Below(q, FromDegree(i))
    ensures Below(q, FromDegree(i + k))
  {
    hide Below, Double;
    if k != 0 {
      BelowLater(q, i, k - 1);
      FromDegreeShrinks(i + k - 1);
      BelowNext(q, FromDegree(i + k - 1));
    }
  }

  lemma FromDegreeSeven()
    ensures FromDegree(7) == 0xff80
  {
    assert FromDegree(1) == 0xfffe && FromDegree(2) == 0xfffc && FromDegree(3) == 0xfff8;
    assert FromDegree(4) == 0xfff0 && FromDegree(5) == 0xffe0 && FromDegree(6) == 0xffc0;
  }

  /** The field product is the remainder of the carry-less product by 0x11d: adding
      a multiple of the modulus by a polynomial of degree below seven gives it back,
      and no other byte has that property. */
  lemma MulIsCarrylessRemainder(a: bv8, b: bv8)
    ensures exists q: bv16 :: q < 0x80 && Leaves(CarrylessProduct(Widen(a), b, 8), q, Mul(a, b))
    ensures forall q: bv16, r: bv8 ::
      q < 0x80 && Leaves(CarrylessProduct(Widen(a), b, 8), q, r) ==> r == Mul(a, b)
  {
    hide MulBits, CarrylessProduct, Leaves, Widen;
    BelowDegreeZero();
    LeavesSelf(a);
    var p := SelectionLeaves(Widen(a), 0, a, b, 0, 8);
    FromDegreeSeven();
    BelowSeven(p);
    forall q: bv16, r: bv8 | q < 0x80 && Leaves(CarrylessProduct(Widen(a), b, 8), q, r)
      ensures r == Mul(a, b)
    {
      RemainderUnique(CarrylessProduct(Widen(a), b, 8), p, Mul(a, b), q, r);
    }
  }

  lemma BelowDegreeZero()
    ensures Below(0, FromDegree(0))
  {}

  lemma LeavesSelf(a: bv8)
    ensures Leaves(Widen(a), 0, a)
  {}

  lemma BelowSeven(p: bv16)
    ensures Below(p, 0xff80) <==> p < 0x80
  {}

  lemma RemainderUnique(u: bv16, q: bv16, r: bv8, q': bv16, r': bv8)
    requires q < 0x80 && q' < 0x80 && Leaves(u, q, r) && Leaves(u, q', r')
    ensures r == r'
  {
    hide TimesModulus, Widen, WideXor, Xor;
    LeavesXor(u, q, r, u, q', r');
    WideXorUnit(u);
    SmallQuotientXor(q, q');
    NoSmallMultiple(WideXor(q, q'), Xor(r, r'));
    XorIsZero(r, r');
  }

  lemma SmallQuotientXor(q: bv16, q': bv16)
    requires q < 0x80 && q' < 0x80
    ensures WideXor(q, q') < 0x80
  {
    BelowSeven(q);
    BelowSeven(q');
    BelowXor(q, q', 0xff80);
    BelowSeven(WideXor(q, q'));
  }

  lemma NoSmallMultiple(q: bv16, r: bv8)
    requires q < 0x80 && 0 == WideXor(TimesModulus(q), Widen(r))
    ensures q == 0 && r == 0
  {}

  // ---------------------------------------------------------------------------
  // The powers of x run through every non-zero element exactly once

  lemma {:induction false} ExpNonZero(i: nat)
    ensures Exp(i) != 0
  {
    if i != 0 {
      ExpNonZero(i - 1);
      XtimeIsZero(Exp(i - 1));
    }
  }

  lemma {:induction false} ExpAdd(i: nat, j: nat)
    ensures Exp(i + j) == Mul(Exp(i), Exp(j))
  {
    hide Mul, Xtime;
    if i == 0 {
      MulOne(Exp(j));
    } else {
      ExpAdd(i - 1, j);
      MulXtime(Exp(i - 1), Exp(j));
    }
  }

  function FiveTimes(v: bv8): bv8 {
    Xtime(Xtime(Xtime(Xtime(Xtime(v)))))
  }

  lemma ExpPlusFive(i: nat)
    ensures Exp(i + 5) == FiveTimes(Exp(i))
  {
    hide Xtime;
    assert Exp(i + 1) == Xtime(Exp(i));
    assert Exp(i + 2) == Xtime(Exp(i + 1));
    assert Exp(i + 3) == Xtime(Exp(i + 2));
    assert Exp(i + 4) == Xtime(Exp(i + 3));
  }

  lemma ExpPlusFifteen(i: nat, v: bv8)
    requires Exp(i) == v
    ensures Exp(i + 15) == FiveTimes(FiveTimes(FiveTimes(v)))
  {
    hide Xtime;
    ExpPlusFive(i);
    ExpPlusFive(i + 5);
    ExpPlusFive(i + 10);
  }

  // 255 = 3 * 5 * 17: the powers whose exponent is a largest proper divisor.
  lemma LargestProperPowers()
    ensures Exp(15) == 0x26 && Exp(51) == 0x0a && Exp(85) == 0xd6 && Exp(255) == 0x01
  {
    hide Exp;
    assert Exp(0) == 1 by { ExpZero(); }
    ExpPlusFifteen(0, 1);
    ExpPlusFifteen(15, 0x26);
    ExpPlusFifteen(30, Exp(30));
    ExpPlusFifteen(45, Exp(45));
    ExpPlusFifteen(60, Exp(60));
    ExpPlusFive(45);
    assert Exp(51) == Xtime(Exp(50)) by { ExpStep(50); }
    ExpPlusFive(75);
    ExpPlusFive(80);
    ExpPlusFifteen(85, 0xd6);
    ExpPlusFifteen(100, Exp(100));
    ExpPlusFifteen(115, Exp(115));
    ExpPlusFifteen(130, Exp(130));
    ExpPlusFifteen(145, Exp(145));
    ExpPlusFifteen(160, Exp(160));
    ExpPlusFifteen(175, Exp(175));
    ExpPlusFifteen(190, Exp(190));
    ExpPlusFifteen(205, Exp(205));
    ExpPlusFifteen(220, Exp(220));
    ExpPlusFifteen(235, Exp(235));
    ExpPlusFive(250);
  }

  lemma ExpZero()
    ensures Exp(0) == 1
  {}

  lemma ExpStep(i: nat)
    ensures Exp(i + 1) == Xtime(Exp(i))
  {}

  lemma {:induction false} ExpOfPeriod(d: nat, k: nat)
    requires Exp(d) == 1
    ensures Exp(d * k) == 1
  {
    hide Mul, Xtime;
    if k == 0 {
      assert d * k == 0;
      ExpZero();
    } else {
      ExpOfPeriod(d, k - 1);
      assert d * k == d + d * (k - 1);
      ExpAdd(d, d * (k - 1));
      MulOne(1);
    }
  }

  lemma ProductOfLarge(d: nat, q: nat)
    requires d >= 16 && q >= 16
    ensures d * q >= 256
  {
    assert d * q >= 16 * q;
  }

  lemma ProperDivisorOf255(d: nat, q: nat)
    requires d * q == 255 && d < 255
    ensures 0 < d && (15 % d == 0 || 51 % d == 0 || 85 % d == 0)
  {
    if d <= 15 {
      assert d == 1 || d == 2 || d == 3 || d == 4 || d == 5 || d == 6 || d == 7 || d == 8 || d == 9
          || d == 10 || d == 11 || d == 12 || d == 13 || d == 14 || d == 15;
    } else {
      if q >= 16 { ProductOfLarge(d, q); assert false; }
      assert q == 2 || q == 3 || q == 4 || q == 5 || q == 6 || q == 7 || q == 8 || q == 9
          || q == 10 || q == 11 || q == 12 || q == 13 || q == 14 || q == 15;
    }
  }

  // x has multiplicative order 255: no smaller positive power of x is one.
  lemma {:induction false} NoShortPeriod(d: nat)
    requires 0 < d < 255
    ensures Exp(d) != 1
  {
    hide Mul, Xtime, Exp;
    if Exp(d) == 1 {
      LargestProperPowers();
      var q, r := 255 / d, 255 % d;
      assert d * q + r == 255;
      ExpOfPeriod(d, q);
      if r != 0 {
        ExpAdd(d * q, r);
        MulOne(Exp(r));
        NoShortPeriod(r);
      } else {
        ProperDivisorOf255(d, q);
        if 15 % d == 0 {
          ExpOfPeriod(d, 15 / d);
        } else if 51 % d == 0 {
          ExpOfPeriod(d, 51 / d);
        } else {
          ExpOfPeriod(d, 85 / d);
        }
      }
    }
  }

  lemma {:induction false} ExpInjective(i: nat, j: nat)
    requires i < 255 && j < 255 && Exp(i) == Exp(j)
    ensures i == j
  {
    hide Xtime;
    if i > 0 && j > 0 {
      XtimeInjective(Exp(i - 1), Exp(j - 1));
      ExpInjective(i - 1, j - 1);
    } else if i > 0 {
      NoShortPeriod(i);
    } else if j > 0 {
      NoShortPeriod(j);
    }
  }

  function Value(v: bv8): int {
    v as int
  }

  lemma ValueIsByte(v: bv8, w: bv8)
    ensures 0 <= Value(v) < 256 && (Value(v) == 0 <==> v == 0)
    ensures Value(v) == Value(w) <==> v == w
  {}

  ghost function PowerValues(n: nat): set<int> {
    if n == 0 then {} else PowerValues(n - 1) + {Value(Exp(n - 1))}
  }

  lemma {:induction false} InPowerValues(n: nat, x: int) returns (i: nat)
    requires x in PowerValues(n)
    ensures i < n && x == Value(Exp(i))
  {
    hide Value, Exp;
    if x == Value(Exp(n - 1)) {
      i := n - 1;
    } else {
      i := InPowerValues(n - 1, x);
    }
  }

  lemma {:induction false} PowerValuesCount(n: nat)
    requires n <= 255
    ensures |PowerValues(n)| == n
  {
    hide Value, Exp;
    if n > 0 {
      PowerValuesCount(n - 1);
      if Value(Exp(n - 1)) in PowerValues(n - 1) {
        var i := InPowerValues(n - 1, Value(Exp(n - 1)));
        ValueIsByte(Exp(i), Exp(n - 1));
        ExpInjective(i, n - 1);
      }
    }
  }

  ghost function NonZeroValues(n: nat): (values: set<int>)
    ensures forall v: int :: v in values <==> 1 <= v <= n
    ensures |values| == n
  {
    if n == 0 then {} else NonZeroValues(n - 1) + {n}
  }

  lemma SubsetOfEqualSize<T>(a: set<T>, b: set<T>)
    requires a <= b && |a| == |b|
    ensures a == b
  {
    assert b == a + (b - a);
  }

  /** Every non-zero byte is a power of x. */
  lemma EveryByteIsAPower(v: bv8)
    requires v != 0
    ensures exists i: nat :: i < 255 && Exp(i) == v
  {
    hide Exp, Value, PowerValues, NonZeroValues;
    PowerValuesCount(255);
    forall x | x in PowerValues(255)
      ensures x in NonZeroValues(255)
    {
      var i := InPowerValues(255, x);
      ExpNonZero(i);
      ValueIsByte(Exp(i), 0);
    }
    SubsetOfEqualSize(PowerValues(255), NonZeroValues(255));
    ValueIsByte(v, 0);
    var i := InPowerValues(255, Value(v));
    ValueIsByte(Exp(i), v);
  }

  /** The exponent below 255 at which the power of x is v. */
  ghost function Log(v: bv8): (i: nat)
    requires v != 0
    ensures i < 255 && Exp(i) == v
  {
    EveryByteIsAPower(v);
    var i: nat :| i < 255 && Exp(i) == v;
    i
  }

  lemma LogOfExp(i: nat)
    requires i < 255
    ensures Exp(i) != 0 && Log(Exp(i)) == i
  {
    ExpNonZero(i);
    ExpInjective(i, Log(Exp(i)));
  }

  lemma ExpPeriod(i: nat)
    ensures Exp(i + 255) == Exp(i)
  {
    hide Mul, Exp;
    LargestProperPowers();
    ExpAdd(i, 255);
    MulOne(Exp(i));
  }

  lemma NoZeroDivisors(a: bv8, b: bv8)
    requires Mul(a, b) == 0
    ensures a == 0 || b == 0
  {
    hide Mul;
    if a != 0 && b != 0 {
      ExpAdd(Log(a), Log(b));
      ExpNonZero(Log(a) + Log(b));
    }
  }

  // ---------------------------------------------------------------------------
  // The tables

  /** The two lookup tables of the encoder. */
  datatype Tables = Tables(exp: seq<bv8>, log: seq<nat>)

  ghost predicate IsFieldTables(t: Tables) {
    && |t.exp| == 512
    && |t.log| == 256
    && t.log[0] == 0
    && (forall i :: 0 <= i < 512 ==> t.exp[i] == Exp(i))
    && (forall v: bv8 :: v != 0 ==> t.log[v as int] == Log(v))
  }

  /** One doubling as the table builder does it, on a number of nine bits. */
  function DoubleModulo(value: bv16): bv16 {
    var doubled := value << 1;
    if doubled & 0x100 != 0 then doubled ^ 0x11d else doubled
  }

  function Narrow(value: bv16): bv8
    requires value < 0x100
  {
    value as bv8
  }

  lemma DoubleModuloIsXtime(a: bv8)
    ensures DoubleModulo(Widen(a)) == Widen(Xtime(a))
  {}

  lemma NarrowWiden(a: bv8)
    ensures Widen(a) < 0x100 && Narrow(Widen(a)) == a
    ensures Widen(a) as int == a as int
  {}

  ghost predicate PowersBelow(exp: seq<bv8>, count: nat) {
    count <= |exp| && forall i :: 0 <= i < count ==> exp[i] == Exp(i)
  }

  ghost predicate LogsBelow(log: seq<nat>, count: nat) {
    |log| == 256 && log[0] == 0 && forall i :: 0 <= i < count ==> log[Exp(i) as int] == i
  }

  lemma RecordLog(log: seq<nat>, count: nat)
    requires count < 255 && LogsBelow(log, count)
    ensures LogsBelow(log[Exp(count) as int := count], count + 1)
  {
    hide Exp;
    ExpNonZero(count);
    forall i: nat | i < count
      ensures Exp(i) as int != Exp(count) as int
    {
      if Exp(i) == Exp(count) { ExpInjective(i, count); }
    }
  }

  lemma LogsComplete(log: seq<nat>)
    requires LogsBelow(log, 255)
    ensures forall v: bv8 :: v != 0 ==> log[v as int] == Log(v)
  {
    hide Exp;
    forall v: bv8 | v != 0
      ensures log[v as int] == Log(v)
    {
      assert Exp(Log(v)) == v;
    }
  }

  /** Fills the exponent table with the powers of x, twice over, and the logarithm
      table with their exponents. */
  method BuildTables() returns (t: Tables)
    ensures IsFieldTables(t)
  {
    hide Exp, Xtime, DoubleModulo, Widen, Narrow;
    var exp := new bv8[512](_ => 0);
    var log := new nat[256](_ => 0);
    var value: bv16 := 1;
    ExpZero();
    WidenOne();
    for index := 0 to 255
      invariant value == Widen(Exp(index))
      invariant PowersBelow(exp[..], index)
      invariant LogsBelow(log[..], index)
    {
      NarrowWiden(Exp(index));
      exp[index] := Narrow(value);
      RecordLog(log[..], index);
      log[value as int] := index;
      DoubleModuloIsXtime(Exp(index));
      ExpStep(index);
      value := DoubleModulo(value);
    }
    for index := 255 to 512
      invariant PowersBelow(exp[..], index)
      invariant LogsBelow(log[..], 255)
    {
      ExpPeriod(index - 255);
      exp[index] := exp[index - 255];
    }
    t := Tables(exp[..], log[..]);
    LogsComplete(t.log);
  }

  lemma WidenOne()
    ensures Widen(1) == 1
  {}

  /** The table-driven product is the field product. */
  function GfMul(t: Tables, left: bv8, right: bv8): (product: bv8)
    requires IsFieldTables(t)
    ensures product == Mul(left, right)
  {
    if left == 0 || right == 0 then
      MulZero(left);
      MulZero(right);
      0
    else
      ExpAdd(Log(left), Log(right));
      t.exp[t.log[left as int] + t.log[right as int]]
  }
}
