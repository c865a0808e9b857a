/** Polynomials over GF(256), the generator polynomial and the Reed-Solomon check
    bytes of the pairing QR encoder. */
module ReedSolomon {
  import opened Gf256

  // ---------------------------------------------------------------------------
  // Polynomials as coefficient vectors, highest degree first

  function Zeros(n: nat): (p: seq<bv8>)
    ensures |p| == n
  {
    seq(n, _ => 0)
  }

  function XorSeq(a: seq<bv8>, b: seq<bv8>): (p: seq<bv8>)
    requires |a| == |b|
    ensures |p| == |a| && forall i :: 0 <= i < |p| ==> p[i] == Xor(a[i], b[i])
  {
    seq(|a|, i requires 0 <= i < |a| => Xor(a[i], b[i]))
  }

  function Scale(p: seq<bv8>, c: bv8): (s: seq<bv8>)
    ensures |s| == |p| && forall i :: 0 <= i < |s| ==> s[i] == Mul(p[i], c)
  {
    seq(|p|, i requires 0 <= i < |p| => Mul(p[i], c))
  }

  /** Schoolbook product: each further digit of q shifts what is there and adds a
      multiple of h. */
  function Product(q: seq<bv8>, h: seq<bv8>): (p: seq<bv8>)
    requires |h| > 0
    ensures |p| == |q| + |h| - 1
  {
    if q == [] then Zeros(|h| - 1)
    else
      var front := q[..|q| - 1];
      XorSeq(Product(front, h) + [0], Zeros(|front|) + Scale(h, q[|q| - 1]))
  }

  /** Horner's rule. */
  function Eval(p: seq<bv8>, x: bv8): bv8 {
    if p == [] then 0 else Xor(Mul(Eval(p[..|p| - 1], x), x), p[|p| - 1])
  }

  lemma EvalSnoc(p: seq<bv8>, c: bv8, x: bv8)
    ensures Eval(p + [c], x) == Xor(Mul(Eval(p, x), x), c)
  {
    hide Xor, Mul;
    assert (p + [c])[..|p|] == p;
  }

  lemma {:induction false} EvalZeros(n: nat, x: bv8)
    ensures Eval(Zeros(n), x) == 0
  {
    hide Xor, Mul;
    if n > 0 {
      assert Zeros(n) == Zeros(n - 1) + [0];
      EvalSnoc(Zeros(n - 1), 0, x);
      EvalZeros(n - 1, x);
      MulZero(x);
      XorUnit(0);
    }
  }

  lemma {:induction false} EvalXor(a: seq<bv8>, b: seq<bv8>, x: bv8)
    requires |a| == |b|
    ensures Eval(XorSeq(a, b), x) == Xor(Eval(a, x), Eval(b, x))
  {
    hide Xor, Mul;
    XorUnit(0);
    if a != [] {
      var n := |a| - 1;
      assert XorSeq(a, b)[..n] == XorSeq(a[..n], b[..n]);
      EvalXor(a[..n], b[..n], x);
      MulXorLeft(Eval(a[..n], x), Eval(b[..n], x), x);
      XorSwap(Mul(Eval(a[..n], x), x), Mul(Eval(b[..n], x), x), a[n], b[n]);
    }
  }

  lemma {:induction false} EvalScale(p: seq<bv8>, c: bv8, x: bv8)
    ensures Eval(Scale(p, c), x) == Mul(Eval(p, x), c)
  {
    hide Xor, Mul;
    if p == [] {
      MulZero(c);
    } else {
      var n := |p| - 1;
      assert Scale(p, c)[..n] == Scale(p[..n], c);
      EvalScale(p[..n], c, x);
      var e := Eval(p[..n], x);
      MulAssociates(e, c, x);
      MulCommutes(c, x);
      MulAssociates(e, x, c);
      MulXorLeft(Mul(e, x), p[n], c);
    }
  }

  lemma {:induction false} EvalPadded(n: nat, p: seq<bv8>, x: bv8)
    ensures Eval(Zeros(n) + p, x) == Eval(p, x)
  {
    hide Xor, Mul;
    if p == [] {
      assert Zeros(n) + p == Zeros(n);
      EvalZeros(n, x);
    } else {
      var k := |p| - 1;
      assert Zeros(n) + p == (Zeros(n) + p[..k]) + [p[k]];
      EvalSnoc(Zeros(n) + p[..k], p[k], x);
      EvalPadded(n, p[..k], x);
    }
  }

  lemma {:induction false} EvalProduct(q: seq<bv8>, h: seq<bv8>, x: bv8)
    requires |h| > 0
    ensures Eval(Product(q, h), x) == Mul(Eval(q, x), Eval(h, x))
  {
    hide Xor, Mul;
    if q == [] {
      EvalZeros(|h| - 1, x);
      MulZero(Eval(h, x));
    } else {
      var front, c := q[..|q| - 1], q[|q| - 1];
      EvalProduct(front, h, x);
      EvalXor(Product(front, h) + [0], Zeros(|front|) + Scale(h, c), x);
      EvalSnoc(Product(front, h), 0, x);
      XorUnit(Mul(Eval(Product(front, h), x), x));
      EvalPadded(|front|, Scale(h, c), x);
      EvalScale(h, c, x);
      var e, eh := Eval(front, x), Eval(h, x);
      MulAssociates(e, eh, x);
      MulCommutes(eh, x);
      MulAssociates(e, x, eh);
      MulCommutes(eh, c);
      MulXorLeft(Mul(e, x), c, eh);
    }
  }

  // ---------------------------------------------------------------------------
  // The check bytes

  /** One byte of the shift register: divisor holds the coefficients below the
      leading one. */
  function Shift(ecc: seq<bv8>, byte: bv8, divisor: seq<bv8>): (next: seq<bv8>)
    requires |ecc| == |divisor| >= 1
    ensures |next| == |ecc|
  {
    XorSeq(ecc[1..] + [0], Scale(divisor, Xor(byte, ecc[0])))
  }

  function CheckBytes(data: seq<bv8>, divisor: seq<bv8>): (ecc: seq<bv8>)
    requires |divisor| >= 1
    ensures |ecc| == |divisor|
  {
    if data == [] then Zeros(|divisor|)
    else Shift(CheckBytes(data[..|data| - 1], divisor), data[|data| - 1], divisor)
  }

  /** The factors the register is reduced by, in order. */
  function Quotient(data: seq<bv8>, divisor: seq<bv8>): (q: seq<bv8>)
    requires |divisor| >= 1
    ensures |q| == |data|
  {
    if data == [] then []
    else
      var front := data[..|data| - 1];
      Quotient(front, divisor) + [Xor(data[|data| - 1], CheckBytes(front, divisor)[0])]
  }

  function Monic(divisor: seq<bv8>): seq<bv8> {
    [1] + divisor
  }

  lemma CancelMiddle(a: bv8, b: bv8)
    ensures Xor(a, Xor(b, a)) == b
  {
    hide Xor;
    XorCommutes(b, a);
    XorAssociates(a, a, b);
    XorUnit(a);
    XorUnit(b);
  }

  // Reducing by one more digit turns the register into its next state.
  lemma ReduceOnce(front: seq<bv8>, ecc: seq<bv8>, byte: bv8, divisor: seq<bv8>)
    requires |ecc| == |divisor| >= 1
    ensures XorSeq(front + ecc + [0], Zeros(|front|) + Scale(Monic(divisor), Xor(byte, ecc[0])))
         == front + [byte] + Shift(ecc, byte, divisor)
  {
    hide Xor, Mul;
    var m, f := |front|, Xor(byte, ecc[0]);
    var scaled := Zeros(m) + Scale(Monic(divisor), f);
    var before := front + ecc + [0];
    var after := front + [byte] + Shift(ecc, byte, divisor);
    forall i | 0 <= i < m
      ensures Xor(before[i], scaled[i]) == after[i]
    {
      XorUnit(front[i]);
    }
    MulOne(f);
    CancelMiddle(ecc[0], byte);
    assert scaled[m] == f;
    forall i | m < i <= m + |divisor|
      ensures Xor(before[i], scaled[i]) == after[i]
    {
      var k := i - m - 1;
      assert scaled[i] == Mul(divisor[k], f);
      assert before[i] == (ecc[1..] + [0])[k];
    }
  }

  /** Appending the check bytes to the data gives a multiple of the monic divisor:
      in other words, data(x) x^n is the quotient times the divisor plus the check
      bytes, for every data length and every number n of check bytes. */
  lemma {:induction false} CodewordIsMultiple(data: seq<bv8>, divisor: seq<bv8>)
    requires |divisor| >= 1
    ensures data + CheckBytes(data, divisor) == Product(Quotient(data, divisor), Monic(divisor))
  {
    hide Xor, Mul, Shift, Monic, XorSeq, Scale;
    MonicLength(divisor);
    if data == [] {
      assert data + Zeros(|divisor|) == Zeros(|divisor|);
    } else {
      var m := |data| - 1;
      var front, byte := data[..m], data[m];
      var ecc := CheckBytes(front, divisor);
      CodewordIsMultiple(front, divisor);
      ReduceOnce(front, ecc, byte, divisor);
      var q := Quotient(front, divisor);
      assert (q + [Xor(byte, ecc[0])])[..m] == q;
      assert data == front + [byte];
    }
  }

  lemma MonicLength(divisor: seq<bv8>)
    ensures |Monic(divisor)| == |divisor| + 1
  {}

  /** Division in the usual form: data times x^n leaves the check bytes. */
  lemma DivisionWithRemainder(data: seq<bv8>, divisor: seq<bv8>)
    requires |divisor| >= 1
    ensures data + Zeros(|divisor|)
         == XorSeq(Product(Quotient(data, divisor), Monic(divisor)), Zeros(|data|) + CheckBytes(data, divisor))
  {
    hide Xor, Mul, Product, Quotient, CheckBytes;
    CodewordIsMultiple(data, divisor);
    var ecc := CheckBytes(data, divisor);
    forall i | 0 <= i < |data| + |divisor|
      ensures (data + Zeros(|divisor|))[i] == Xor((data + ecc)[i], (Zeros(|data|) + ecc)[i])
    {
      XorUnit((data + ecc)[i]);
    }
  }

  // Read backwards: the digit and the next register state are forced.
  lemma DigitIsForced(lower: seq<bv8>, front: seq<bv8>, byte: bv8, c: bv8, r: seq<bv8>, divisor: seq<bv8>)
    requires |r| == |divisor| >= 1 && |lower| == |front| + |divisor|
    requires XorSeq(lower + [0], Zeros(|front|) + Scale(Monic(divisor), c)) == front + [byte] + r
    ensures lower[..|front|] == front
    ensures c == Xor(byte, lower[|front|])
    ensures r == Shift(lower[|front|..], byte, divisor)
  {
    hide Xor, Mul;
    var m := |front|;
    var scaled := Zeros(m) + Scale(Monic(divisor), c);
    var all := front + [byte] + r;
    forall i | 0 <= i < m
      ensures lower[i] == front[i]
    {
      assert all[i] == Xor((lower + [0])[i], scaled[i]);
      XorUnit(lower[i]);
    }
    MulOne(c);
    assert scaled[m] == c;
    assert byte == all[m] == Xor(lower[m], c);
    XorCommutes(byte, lower[m]);
    XorCommutes(lower[m], c);
    CancelMiddle(lower[m], c);
    var rf := lower[m..];
    forall k | 0 <= k < |divisor|
      ensures r[k] == Shift(rf, byte, divisor)[k]
    {
      assert scaled[m + 1 + k] == Mul(divisor[k], c);
      assert r[k] == all[m + 1 + k];
      assert (lower + [0])[m + 1 + k] == (rf[1..] + [0])[k];
    }
  }

  /** No other quotient and remainder divide data(x) x^n, so the check bytes are the
      remainder. */
  lemma {:induction false} RemainderIsUnique(data: seq<bv8>, divisor: seq<bv8>, q: seq<bv8>, r: seq<bv8>)
    requires |divisor| >= 1 && |q| == |data| && |r| == |divisor|
    requires data + r == Product(q, Monic(divisor))
    ensures q == Quotient(data, divisor) && r == CheckBytes(data, divisor)
  {
    hide Xor, Mul, Shift, Monic, XorSeq, Scale;
    MonicLength(divisor);
    if data == [] {
      assert data + r == r;
    } else {
      var m := |data| - 1;
      var front, byte := data[..m], data[m];
      var lower := Product(q[..m], Monic(divisor));
      assert data + r == front + [byte] + r;
      DigitIsForced(lower, front, byte, q[m], r, divisor);
      assert front + lower[m..] == lower;
      RemainderIsUnique(front, divisor, q[..m], lower[m..]);
      assert q == q[..m] + [q[m]];
    }
  }

  lemma ShiftIsLinear(ecc: seq<bv8>, ecc': seq<bv8>, byte: bv8, byte': bv8, divisor: seq<bv8>)
    requires |ecc| == |ecc'| == |divisor| >= 1
    ensures Shift(XorSeq(ecc, ecc'), Xor(byte, byte'), divisor)
         == XorSeq(Shift(ecc, byte, divisor), Shift(ecc', byte', divisor))
  {
    hide Xor, Mul;
    var f, f' := Xor(byte, ecc[0]), Xor(byte', ecc'[0]);
    XorSwap(byte, byte', ecc[0], ecc'[0]);
    XorUnit(0);
    forall i | 0 <= i < |ecc|
      ensures Shift(XorSeq(ecc, ecc'), Xor(byte, byte'), divisor)[i]
           == Xor(Shift(ecc, byte, divisor)[i], Shift(ecc', byte', divisor)[i])
    {
      MulXorRight(divisor[i], f, f');
      XorSwap((ecc[1..] + [0])[i], (ecc'[1..] + [0])[i], Mul(divisor[i], f), Mul(divisor[i], f'));
    }
  }

  /** The check bytes of an XOR are the XOR of the check bytes. */
  lemma {:induction false} CheckBytesAreLinear(a: seq<bv8>, b: seq<bv8>, divisor: seq<bv8>)
    requires |a| == |b| && |divisor| >= 1
    ensures CheckBytes(XorSeq(a, b), divisor) == XorSeq(CheckBytes(a, divisor), CheckBytes(b, divisor))
  {
    hide Xor, Mul, Shift;
    if a == [] {
      XorUnit(0);
    } else {
      var m := |a| - 1;
      assert XorSeq(a, b)[..m] == XorSeq(a[..m], b[..m]);
      CheckBytesAreLinear(a[..m], b[..m], divisor);
      ShiftIsLinear(CheckBytes(a[..m], divisor), CheckBytes(b[..m], divisor), a[m], b[m], divisor);
    }
  }

  // ---------------------------------------------------------------------------
  // The generator polynomial, lowest degree first as the encoder stores it

  function Reverse(p: seq<bv8>): (r: seq<bv8>)
    ensures |r| == |p| && forall i :: 0 <= i < |p| ==> r[i] == p[|p| - 1 - i]
  {
    seq(|p|, i requires 0 <= i < |p| => p[|p| - 1 - i])
  }

  /** The product with (x + r). */
  function TimesRoot(p: seq<bv8>, r: bv8): (next: seq<bv8>)
    ensures |next| == |p| + 1
  {
    XorSeq(Scale(p, r) + [0], [0] + p)
  }

  function Generator(degree: nat): (p: seq<bv8>)
    ensures |p| == degree + 1
  {
    if degree == 0 then [1] else TimesRoot(Generator(degree - 1), Exp(degree - 1))
  }

  /** The product of the factors (x + x^i), i < degree, highest degree first. */
  function FactorProduct(degree: nat): (p: seq<bv8>)
    ensures |p| == degree + 1
  {
    if degree == 0 then [1] else Product(FactorProduct(degree - 1), [1, Exp(degree - 1)])
  }

  // Adding one more digit c keeps the shape of a product with a linear factor.
  lemma LinearDigit(front: seq<bv8>, c: bv8, r: bv8)
    requires front != []
    ensures XorSeq(XorSeq(front + [0], [0] + Scale(front, r)) + [0], Zeros(|front|) + [c, Mul(c, r)])
         == XorSeq(front + [c] + [0], [0] + Scale(front + [c], r))
  {
    hide Xor, Mul, XorSeq, Scale;
    var m := |front|;
    var padded := Zeros(m) + [c, Mul(c, r)];
    var lower := XorSeq(front + [0], [0] + Scale(front, r)) + [0];
    var high, low := front + [c] + [0], [0] + Scale(front + [c], r);
    forall i | 0 <= i < m + 2
      ensures Xor(lower[i], padded[i]) == Xor(high[i], low[i])
    {
      if i < m {
        XorUnit(lower[i]);
      } else if i == m {
        XorUnit(low[m]);
        XorCommutes(low[m], c);
      } else {
        XorUnit(Mul(c, r));
      }
    }
  }

  lemma {:induction false} ProductByLinear(q: seq<bv8>, r: bv8)
    requires q != []
    ensures Product(q, [1, r]) == XorSeq(q + [0], [0] + Scale(q, r))
  {
    hide Xor, Mul, Exp, Scale, XorSeq;
    var m := |q| - 1;
    var front, c := q[..m], q[m];
    ScaleLinear(c, r);
    var lower := Product(front, [1, r]);
    assert Product(q, [1, r]) == XorSeq(lower + [0], Zeros(m) + [c, Mul(c, r)]);
    if m > 0 {
      ProductByLinear(front, r);
      LinearDigit(front, c, r);
      assert q == front + [c];
    } else {
      ConstantByLinear(c, r);
      assert q == [c] && lower == [0] && Zeros(0) + [c, Mul(c, r)] == [c, Mul(c, r)];
    }
  }

  lemma ScaleLinear(c: bv8, r: bv8)
    ensures Scale([1, r], c) == [c, Mul(c, r)]
  {
    hide Mul;
    MulOne(c);
    MulCommutes(r, c);
  }

  lemma ConstantByLinear(c: bv8, r: bv8)
    ensures XorSeq([0] + [0], [c, Mul(c, r)]) == XorSeq([c] + [0], [0] + Scale([c], r))
  {
    hide Mul, Xor;
    XorUnit(c);
    XorUnit(Mul(c, r));
  }

  lemma ReverseXor(a: seq<bv8>, b: seq<bv8>)
    requires |a| == |b|
    ensures Reverse(XorSeq(a, b)) == XorSeq(Reverse(a), Reverse(b))
  {
    hide Xor;
  }

  lemma XorSeqCommutes(a: seq<bv8>, b: seq<bv8>)
    requires |a| == |b|
    ensures XorSeq(a, b) == XorSeq(b, a)
  {
    hide Xor;
    forall i | 0 <= i < |a|
      ensures XorSeq(a, b)[i] == XorSeq(b, a)[i]
    {
      XorCommutes(a[i], b[i]);
    }
  }

  lemma ReverseScale(p: seq<bv8>, r: bv8)
    ensures Reverse(Scale(p, r)) == Scale(Reverse(p), r)
  {
    hide Mul;
  }

  lemma ReverseEnds(p: seq<bv8>)
    ensures Reverse(p + [0]) == [0] + Reverse(p)
    ensures Reverse([0] + p) == Reverse(p) + [0]
  {}

  lemma ReverseTimesRoot(p: seq<bv8>, r: bv8)
    ensures Reverse(TimesRoot(p, r)) == XorSeq(Reverse(p) + [0], [0] + Scale(Reverse(p), r))
  {
    hide Xor, Mul, Reverse, XorSeq, Scale;
    ScaleLength(p, r);
    ReverseXor(Scale(p, r) + [0], [0] + p);
    ReverseEnds(Scale(p, r));
    ReverseEnds(p);
    ReverseScale(p, r);
    XorSeqCommutes([0] + Scale(Reverse(p), r), Reverse(p) + [0]);
  }

  lemma ScaleLength(p: seq<bv8>, r: bv8)
    ensures |Scale(p, r)| == |p| && |Reverse(p)| == |p|
  {}

  /** The stored coefficients, reversed, are the product of the factors. */
  lemma {:induction false} GeneratorIsFactorProduct(degree: nat)
    ensures Reverse(Generator(degree)) == FactorProduct(degree)
  {
    hide Xor, Mul, Exp, Product, TimesRoot, XorSeq, Scale;
    if degree > 0 {
      var p, r := Generator(degree - 1), Exp(degree - 1);
      GeneratorIsFactorProduct(degree - 1);
      ProductByLinear(Reverse(p), r);
      ReverseTimesRoot(p, r);
    }
  }

  ghost function RootProduct(x: bv8, degree: nat): bv8 {
    if degree == 0 then 1 else Mul(RootProduct(x, degree - 1), Xor(x, Exp(degree - 1)))
  }

  /** The generator evaluates to the product of the (x + x^i). */
  lemma {:induction false} GeneratorEvaluates(degree: nat, x: bv8)
    ensures Eval(Reverse(Generator(degree)), x) == RootProduct(x, degree)
  {
    hide Xor, Mul, Exp, Eval, Product, FactorProduct, Generator;
    GeneratorIsFactorProduct(degree);
    if degree == 0 {
      EvalConstant(x);
    } else {
      GeneratorEvaluates(degree - 1, x);
      GeneratorIsFactorProduct(degree - 1);
      var r := Exp(degree - 1);
      FactorStep(degree);
      EvalProduct(FactorProduct(degree - 1), [1, r], x);
      EvalLinear(r, x);
    }
  }

  lemma EvalConstant(x: bv8)
    ensures FactorProduct(0) == [1] && Eval([1], x) == 1
  {
    hide Xor, Mul;
    assert [1] == [] + [1 as bv8];
    EvalSnoc([], 1, x);
    MulZero(x);
    XorUnit(1);
  }

  lemma GeneratorIsMonic(degree: nat)
    ensures Generator(degree)[degree] == 1
  {
    hide Xor, Mul, Exp;
    if degree > 0 {
      GeneratorIsMonic(degree - 1);
      XorUnit(1);
    }
  }

  lemma FactorStep(degree: nat)
    requires degree > 0
    ensures FactorProduct(degree) == Product(FactorProduct(degree - 1), [1, Exp(degree - 1)])
  {}

  lemma EvalLinear(r: bv8, x: bv8)
    ensures Eval([1, r], x) == Xor(x, r)
  {
    hide Xor, Mul, Eval;
    assert [1, r] == ([] + [1]) + [r];
    EvalSnoc([] + [1], r, x);
    EvalSnoc([], 1, x);
    EvalZeros(0, x);
    assert Zeros(0) == [];
    MulZero(x);
    XorUnit(1);
    MulOne(x);
  }

  ghost predicate IsEarlyPower(x: bv8, degree: nat) {
    exists i: nat :: i < degree && x == Exp(i)
  }

  lemma {:induction false} RootProductVanishes(x: bv8, degree: nat)
    ensures RootProduct(x, degree) == 0 <==> IsEarlyPower(x, degree)
  {
    hide Xor, Mul, Exp;
    if degree > 0 {
      RootProductVanishes(x, degree - 1);
      var rest, last := RootProduct(x, degree - 1), Xor(x, Exp(degree - 1));
      XorIsZero(x, Exp(degree - 1));
      MulZero(last);
      MulZero(rest);
      if Mul(rest, last) == 0 { NoZeroDivisors(rest, last); }
      assert IsEarlyPower(x, degree) <==> IsEarlyPower(x, degree - 1) || x == Exp(degree - 1);
    }
  }

  /** The generator of degree d vanishes at x^0 .. x^(d-1) and nowhere else. */
  lemma GeneratorRoots(degree: nat, x: bv8)
    ensures Eval(Reverse(Generator(degree)), x) == 0 <==> IsEarlyPower(x, degree)
  {
    hide Eval, Generator, RootProduct, Exp, Reverse;
    GeneratorEvaluates(degree, x);
    RootProductVanishes(x, degree);
  }

  // ---------------------------------------------------------------------------
  // The loops of the encoder

  // What the inner loop has left in the array before offset.
  ghost predicate MultipliedBelow(next: seq<bv8>, poly: seq<bv8>, r: bv8, offset: nat)
    requires |next| == |poly| + 1 && offset <= |poly|
  {
    && (forall k :: 0 <= k < offset ==> next[k] == TimesRoot(poly, r)[k])
    && next[offset] == (if offset > 0 then poly[offset - 1] else 0)
    && (forall k :: offset < k <= |poly| ==> next[k] == 0)
  }

  lemma MultiplyNext(next: seq<bv8>, poly: seq<bv8>, r: bv8, offset: nat)
    requires |next| == |poly| + 1 && offset < |poly| && MultipliedBelow(next, poly, r, offset)
    ensures MultipliedBelow(
      next[offset := Xor(next[offset], Mul(poly[offset], r))][offset + 1 := Xor(next[offset + 1], poly[offset])],
      poly, r, offset + 1)
  {
    hide Xor, Mul;
    XorCommutes(([0] + poly)[offset], Mul(poly[offset], r));
    XorUnit(poly[offset]);
    assert (Scale(poly, r) + [0])[offset] == Mul(poly[offset], r);
  }

  lemma MultiplyDone(next: seq<bv8>, poly: seq<bv8>, r: bv8)
    requires |next| == |poly| + 1 && poly != [] && MultipliedBelow(next, poly, r, |poly|)
    ensures next == TimesRoot(poly, r)
  {
    hide Xor, Mul;
    XorUnit(poly[|poly| - 1]);
  }

  method GeneratorPoly(t: Tables, degree: nat) returns (poly: seq<bv8>)
    requires IsFieldTables(t) && degree <= 512
    ensures poly == Generator(degree)
  {
    hide Xor, Mul, Exp, TimesRoot, MultipliedBelow;
    poly := [1];
    for index := 0 to degree
      invariant poly == Generator(index)
    {
      var next := new bv8[|poly| + 1](_ => 0);
      var r := t.exp[index];
      StartMultiply(next[..], poly, r);
      for offset := 0 to |poly|
        invariant MultipliedBelow(next[..], poly, r, offset)
      {
        MultiplyNext(next[..], poly, r, offset);
        next[offset] := Xor(next[offset], GfMul(t, poly[offset], r));
        next[offset + 1] := Xor(next[offset + 1], poly[offset]);
      }
      MultiplyDone(next[..], poly, r);
      poly := next[..];
    }
  }

  lemma StartMultiply(next: seq<bv8>, poly: seq<bv8>, r: bv8)
    requires |next| == |poly| + 1 && forall k :: 0 <= k < |next| ==> next[k] == 0
    ensures MultipliedBelow(next, poly, r, 0)
  {}

  /** The shift register of the encoder. It reads the coefficients that follow the
      first stored one, so its divisor is the monic polynomial whose lower
      coefficients are those, in storage order. */
  method CheckBytesOf(t: Tables, data: seq<bv8>, ecCount: nat) returns (ecc: seq<bv8>)
    requires IsFieldTables(t) && 1 <= ecCount <= 512
    ensures ecc == CheckBytes(data, Generator(ecCount)[1..])
  {
    hide Xor, Mul, Exp, Generator;
    var generator := GeneratorPoly(t, ecCount);
    ghost var divisor := generator[1..];
    ecc := seq(ecCount, _ => 0);
    for done := 0 to |data|
      invariant |ecc| == ecCount
      invariant ecc == CheckBytes(data[..done], divisor)
    {
      var byte := data[done];
      var factor := Xor(byte, ecc[0]);
      ghost var before := ecc;
      ghost var target := Shift(before, byte, divisor);
      ecc := ecc[1..] + [0];
      assert data[..done + 1][..done] == data[..done];
      if factor == 0 {
        SkipZeroFactor(before, byte, divisor);
        continue;
      }
      ghost var moved := ecc;
      for index := 0 to ecCount
        invariant |ecc| == ecCount
        invariant forall k :: 0 <= k < index ==> ecc[k] == target[k]
        invariant forall k :: index <= k < ecCount ==> ecc[k] == moved[k]
      {
        ecc := ecc[index := Xor(ecc[index], GfMul(t, generator[index + 1], factor))];
      }
      assert ecc == target;
    }
    assert data[..|data|] == data;
  }

  lemma SkipZeroFactor(ecc: seq<bv8>, byte: bv8, divisor: seq<bv8>)
    requires |ecc| == |divisor| >= 1 && Xor(byte, ecc[0]) == 0
    ensures Shift(ecc, byte, divisor) == ecc[1..] + [0]
  {
    hide Xor, Mul;
    forall i | 0 <= i < |ecc|
      ensures Shift(ecc, byte, divisor)[i] == (ecc[1..] + [0])[i]
    {
      MulZero(divisor[i]);
      XorUnit((ecc[1..] + [0])[i]);
    }
  }

  // ---------------------------------------------------------------------------
  // What the storage order means for the roots of a codeword

  lemma {:induction false} CodewordEvaluates(data: seq<bv8>, divisor: seq<bv8>, x: bv8)
    requires |divisor| >= 1
    ensures Eval(data + CheckBytes(data, divisor), x)
         == Mul(Eval(Quotient(data, divisor), x), Eval(Monic(divisor), x))
  {
    CodewordIsMultiple(data, divisor);
    EvalProduct(Quotient(data, divisor), Monic(divisor), x);
  }

  /** A register fed with the generator highest degree first would give codewords
      that vanish at every root of the generator. */
  lemma ReversedGeneratorHasRoots(data: seq<bv8>, n: nat, i: nat)
    requires 1 <= n && i < n
    ensures Eval(data + CheckBytes(data, Reverse(Generator(n))[1..]), Exp(i)) == 0
  {
    hide Eval, Exp, Mul, CheckBytes, Generator;
    var g := Reverse(Generator(n));
    GeneratorIsMonic(n);
    assert Monic(g[1..]) == g;
    CodewordEvaluates(data, g[1..], Exp(i));
    GeneratorRoots(n, Exp(i));
    MulZero(Eval(Quotient(data, g[1..]), Exp(i)));
  }

  /** For the divisor the encoder uses, a codeword vanishes at a given point exactly
      if the quotient or the divisor does. */
  lemma CodewordVanishesAt(data: seq<bv8>, divisor: seq<bv8>, x: bv8)
    requires |divisor| >= 1
    ensures Eval(data + CheckBytes(data, divisor), x) == 0
       <==> Eval(Quotient(data, divisor), x) == 0 || Eval(Monic(divisor), x) == 0
  {
    hide Eval, Mul, CheckBytes, Quotient;
    CodewordEvaluates(data, divisor, x);
    var a, b := Eval(Quotient(data, divisor), x), Eval(Monic(divisor), x);
    MulZero(a);
    MulZero(b);
    if Mul(a, b) == 0 { NoZeroDivisors(a, b); }
  }

  lemma {:induction false} EvalAtOneCons(c: bv8, p: seq<bv8>)
    ensures Eval([c] + p, 1) == Xor(c, Eval(p, 1))
  {
    hide Xor, Mul, Eval;
    if p == [] {
      assert [c] + p == [] + [c];
      EvalSnoc([], c, 1);
      EvalEmpty(1);
      MulZero(1);
      XorCommutes(0, c);
    } else {
      var k := |p| - 1;
      assert [c] + p == ([c] + p[..k]) + [p[k]] && p == p[..k] + [p[k]];
      EvalSnoc([c] + p[..k], p[k], 1);
      EvalSnoc(p[..k], p[k], 1);
      EvalAtOneCons(c, p[..k]);
      MulOne(Eval([c] + p[..k], 1));
      MulOne(Eval(p[..k], 1));
      XorAssociates(c, Eval(p[..k], 1), p[k]);
    }
  }

  lemma EvalEmpty(x: bv8)
    ensures Eval([], x) == 0
  {}

  lemma {:induction false} EvalAtOneReverse(p: seq<bv8>)
    ensures Eval(Reverse(p), 1) == Eval(p, 1)
  {
    hide Xor, Mul, Eval;
    if p == [] {
      assert Reverse(p) == p;
    } else {
      var rest := p[1..];
      assert Reverse(p) == Reverse(rest) + [p[0]] && p == [p[0]] + rest;
      EvalSnoc(Reverse(rest), p[0], 1);
      MulOne(Eval(Reverse(rest), 1));
      EvalAtOneReverse(rest);
      EvalAtOneCons(p[0], rest);
      XorCommutes(p[0], Eval(rest, 1));
    }
  }

  lemma TriangularStep(n: nat)
    requires n >= 2
    ensures n * (n - 1) / 2 == (n - 1) * (n - 2) / 2 + (n - 1)
    ensures (n - 1) * ((n - 1) - 1) / 2 == (n - 1) * (n - 2) / 2 >= 0
  {
    assert n * (n - 1) == (n - 1) * (n - 2) + 2 * (n - 1);
  }

  lemma {:induction false} GeneratorConstantTerm(n: nat)
    requires n >= 1
    ensures Generator(n)[0] == Exp(n * (n - 1) / 2)
  {
    hide Xor, Mul, Exp;
    if n == 1 {
      ExpZero();
      MulOne(1);
      XorUnit(1);
      assert Generator(0) == [1];
    } else {
      TriangularStep(n);
      GeneratorConstantTerm(n - 1);
      var p, r := Generator(n - 1), Exp(n - 1);
      XorUnit(Mul(p[0], r));
      assert Generator(n)[0] == Xor(Mul(p[0], r), 0);
      ExpAdd((n - 1) * (n - 2) / 2, n - 1);
    }
  }

  lemma ExpIsOne(k: nat)
    ensures Exp(k) == 1 <==> k % 255 == 0
  {
    hide Exp, Mul;
    var q, r := k / 255, k % 255;
    LargestProperPowers();
    ExpOfPeriod(255, q);
    ExpAdd(255 * q, r);
    MulOne(Exp(r));
    if r != 0 { NoShortPeriod(r); } else { ExpZero(); }
  }

  /** At the first root the encoder's divisor is one plus the constant term of the
      generator, the coefficient it leaves out. A codeword vanishes there exactly if
      its quotient digits cancel or n (n - 1) / 2 is a multiple of 255. */
  lemma VanishesAtFirstRoot(data: seq<bv8>, n: nat)
    requires n >= 1
    ensures Eval(data + CheckBytes(data, Generator(n)[1..]), 1) == 0
       <==> Eval(Quotient(data, Generator(n)[1..]), 1) == 0 || (n * (n - 1) / 2) % 255 == 0
  {
    hide Eval, Mul, Xor, Exp, CheckBytes, Quotient, Generator;
    var g := Generator(n);
    CodewordVanishesAt(data, g[1..], 1);
    EvalAtOneCons(1, g[1..]);
    EvalAtOneReverse(g);
    assert g == [g[0]] + g[1..];
    EvalAtOneCons(g[0], g[1..]);
    ExpZero();
    GeneratorRoots(n, Exp(0));
    XorIsZero(g[0], Eval(g[1..], 1));
    XorIsZero(1, Eval(g[1..], 1));
    GeneratorConstantTerm(n);
    ExpIsOne(n * (n - 1) / 2);
  }

  /** All codewords with n check bytes vanish at the n roots of the generator, as
      section 7.5.2 of ISO/IEC 18004:2015 asks of a Reed-Solomon code. */
  ghost predicate CodewordsHaveRoots(n: nat)
    requires n >= 1
  {
    forall data: seq<bv8>, i: nat :: i < n ==> Eval(data + CheckBytes(data, Generator(n)[1..]), Exp(i)) == 0
  }

  lemma GeneratorOfTwo()
    ensures Generator(2) == [2, 3, 1]
  {
    hide Mul;
    assert Exp(0) == 1 && Exp(1) == 2;
    MulOne(1);
    MulOne(2);
    assert Generator(1) == [1, 1];
  }

  /** The data block [1] with two check bytes gives the codeword [1, 3, 1], whose
      value at 1 is 3. */
  lemma CodewordWithoutRoot()
    ensures CheckBytes([1], Generator(2)[1..]) == [3, 1]
    ensures Eval([1, 3, 1], 1) == 3
  {
    hide Mul, Eval, Generator;
    GeneratorOfTwo();
    MulOne(3);
    MulOne(1);
    assert CheckBytes([], [3, 1]) == [0, 0];
    assert CheckBytes([1], [3, 1]) == Shift([0, 0], 1, [3, 1]);
    EvalConstant(1);
    EvalAtOneCons(3, [1]);
    EvalAtOneCons(1, [3] + [1]);
    var codeword: seq<bv8> := [1, 3, 1];
    assert codeword == [1] + ([3] + [1]);
  }

  // ----- the divisor at the powers of x

  function Pow(x: bv8, k: nat): bv8 {
    if k == 0 then 1 else Mul(Pow(x, k - 1), x)
  }

  lemma {:induction false} PowInverse(x: bv8, y: bv8, k: nat)
    requires Mul(x, y) == 1
    ensures Mul(Pow(x, k), Pow(y, k)) == 1 && Pow(x, k) != 0
  {
    hide Mul;
    MulOne(1);
    if k > 0 {
      PowInverse(x, y, k - 1);
      var p, q := Pow(x, k - 1), Pow(y, k - 1);
      MulCommutes(q, y);
      MulAssociates(p, x, Mul(y, q));
      MulAssociates(x, y, q);
      MulOne(q);
    }
    MulZero(Pow(y, k));
  }

  lemma {:induction false} EvalCons(c: bv8, p: seq<bv8>, x: bv8)
    ensures Eval([c] + p, x) == Xor(Mul(c, Pow(x, |p|)), Eval(p, x))
  {
    hide Xor, Mul, Eval;
    if p == [] {
      assert [c] + p == [] + [c];
      EvalSnoc([], c, x);
      EvalEmpty(x);
      MulZero(x);
      MulOne(c);
      XorCommutes(0, c);
    } else {
      var k := |p| - 1;
      var front, last := p[..k], p[k];
      assert [c] + p == ([c] + front) + [last] && p == front + [last];
      EvalSnoc([c] + front, last, x);
      EvalSnoc(front, last, x);
      EvalCons(c, front, x);
      MulXorLeft(Mul(c, Pow(x, k)), Eval(front, x), x);
      MulAssociates(c, Pow(x, k), x);
      XorAssociates(Mul(c, Pow(x, k + 1)), Mul(Eval(front, x), x), last);
    }
  }

  // h + x^k e is x^k (h y^k + e) when y is the inverse of x.
  lemma FactorPower(h: bv8, e: bv8, px: bv8, py: bv8)
    requires Mul(px, py) == 1
    ensures Mul(px, Xor(Mul(h, py), e)) == Xor(Mul(px, e), h)
  {
    hide Xor, Mul;
    MulXorRight(px, Mul(h, py), e);
    MulCommutes(h, py);
    MulAssociates(px, py, h);
    MulOne(h);
    XorCommutes(h, Mul(px, e));
  }

  /** The reversed polynomial at x is the polynomial at the inverse of x, up to a power
      of x. */
  lemma {:induction false} EvalReverse(p: seq<bv8>, x: bv8, y: bv8)
    requires p != [] && Mul(x, y) == 1
    ensures Eval(Reverse(p), x) == Mul(Pow(x, |p| - 1), Eval(p, y))
  {
    hide Xor, Mul, Eval;
    var h, rest, k := p[0], p[1..], |p| - 1;
    assert p == [h] + rest && Reverse(p) == Reverse(rest) + [h];
    EvalSnoc(Reverse(rest), h, x);
    EvalCons(h, rest, y);
    PowInverse(x, y, k);
    FactorPower(h, Eval(rest, y), Pow(x, k), Pow(y, k));
    if rest == [] {
      assert Reverse(rest) == [];
      EvalEmpty(x);
      EvalEmpty(y);
      MulZero(x);
      MulZero(Pow(x, k));
    } else {
      EvalReverse(rest, x, y);
      var e, px := Eval(rest, y), Pow(x, k - 1);
      MulCommutes(e, x);
      MulAssociates(px, e, x);
      MulAssociates(px, x, e);
    }
  }

  /** The exponent of the inverse. */
  function Opposite(i: nat): (j: nat)
    ensures j < 255
  {
    (255 - i % 255) % 255
  }

  lemma ExpReduced(i: nat)
    ensures Exp(i) == Exp(i % 255)
  {
    hide Exp, Mul;
    var q, r := i / 255, i % 255;
    LargestProperPowers();
    ExpOfPeriod(255, q);
    ExpAdd(255 * q, r);
    MulOne(Exp(r));
  }

  lemma OppositeIsInverse(i: nat)
    ensures Mul(Exp(i), Exp(Opposite(i))) == 1
  {
    hide Exp, Mul;
    ExpAdd(i, Opposite(i));
    ExpIsOne(i + Opposite(i));
  }

  /** Read highest degree first, the stored generator has the inverse powers as roots. */
  lemma ForwardRoots(n: nat, i: nat)
    ensures Eval(Generator(n), Exp(i)) == 0 <==> Opposite(i) < n
  {
    hide Eval, Mul, Exp, Generator, Opposite;
    var g, x, j := Generator(n), Exp(i), Opposite(i);
    var y := Exp(j);
    OppositeIsInverse(i);
    assert Reverse(Reverse(g)) == g;
    EvalReverse(Reverse(g), x, y);
    PowInverse(x, y, n);
    var value := Eval(Reverse(g), y);
    MulZero(Pow(x, n));
    if Mul(Pow(x, n), value) == 0 { NoZeroDivisors(Pow(x, n), value); }
    GeneratorRoots(n, y);
    EarlyIffBelow(n, j);
  }

  lemma EarlyIffBelow(n: nat, j: nat)
    requires j < 255
    ensures IsEarlyPower(Exp(j), n) <==> j < n
  {
    hide Exp;
    if IsEarlyPower(Exp(j), n) {
      var i: nat :| i < n && Exp(j) == Exp(i);
      ExpReduced(i);
      ExpInjective(i % 255, j);
    }
  }

  // When the constant term is one, leaving it out makes no difference.
  lemma DivisorIsGenerator(n: nat)
    requires n >= 1 && (n * (n - 1) / 2) % 255 == 0
    ensures Monic(Generator(n)[1..]) == Generator(n)
  {
    hide Generator, Exp;
    GeneratorConstantTerm(n);
    ExpIsOne(n * (n - 1) / 2);
  }

  // ----- blocks of any length

  /** A block whose only non-zero byte is a one at its end. */
  function UnitBlock(length: nat): (data: seq<bv8>)
    requires length >= 1
    ensures |data| == length
  {
    Zeros(length - 1) + [1]
  }

  /** Leading zeros leave the register empty. */
  lemma {:induction false} ZerosLeaveNothing(k: nat, divisor: seq<bv8>)
    requires |divisor| >= 1
    ensures CheckBytes(Zeros(k), divisor) == Zeros(|divisor|) && Quotient(Zeros(k), divisor) == Zeros(k)
  {
    hide Xor, Mul;
    if k == 0 {
      assert Zeros(0) == [];
    } else {
      ZerosLeaveNothing(k - 1, divisor);
      assert Zeros(k)[..k - 1] == Zeros(k - 1) && Zeros(k) == Zeros(k - 1) + [0];
      XorUnit(0);
      assert Xor(0, Zeros(|divisor|)[0]) == 0;
      forall i | 0 <= i < |divisor|
        ensures Shift(Zeros(|divisor|), 0, divisor)[i] == 0
      {
        MulZero(divisor[i]);
      }
    }
  }

  lemma QuotientOfUnit(length: nat, divisor: seq<bv8>, x: bv8)
    requires length >= 1 && |divisor| >= 1
    ensures Eval(Quotient(UnitBlock(length), divisor), x) == 1
  {
    hide Xor, Mul, Eval, CheckBytes;
    var front, data := Zeros(length - 1), UnitBlock(length);
    ZerosLeaveNothing(length - 1, divisor);
    assert data[..|data| - 1] == front && data[|data| - 1] == 1;
    XorUnit(1);
    assert Quotient(data, divisor) == front + [1];
    EvalSnoc(front, 1, x);
    EvalZeros(length - 1, x);
    MulZero(x);
  }

  /** All codewords of blocks of one length vanish at the n roots. */
  ghost predicate BlocksHaveRoots(n: nat, length: nat)
    requires n >= 1
  {
    forall data: seq<bv8>, i: nat :: |data| == length && i < n ==> Eval(data + CheckBytes(data, Generator(n)[1..]), Exp(i)) == 0
  }

  /** When the divisor has the roots: with one check byte, or with at least 255 and a
      constant term of one. */
  predicate HasRootsAt(n: nat) {
    n == 1 || (n >= 255 && (n * (n - 1) / 2) % 255 == 0)
  }

  lemma UnitMissesRoot(n: nat, length: nat) returns (i: nat)
    requires n >= 1 && length >= 1 && !HasRootsAt(n)
    ensures i < n && Eval(UnitBlock(length) + CheckBytes(UnitBlock(length), Generator(n)[1..]), Exp(i)) != 0
  {
    hide Eval, Exp, CheckBytes, Generator, Quotient, UnitBlock;
    var data, divisor := UnitBlock(length), Generator(n)[1..];
    if (n * (n - 1) / 2) % 255 != 0 {
      i := 0;
      ExpZero();
      VanishesAtFirstRoot(data, n);
      QuotientOfUnit(length, divisor, 1);
    } else {
      i := 1;
      CodewordVanishesAt(data, divisor, Exp(1));
      QuotientOfUnit(length, divisor, Exp(1));
      DivisorIsGenerator(n);
      ForwardRoots(n, 1);
    }
  }

  lemma AllBlocksHaveRoots(data: seq<bv8>, n: nat, i: nat)
    requires n >= 1 && HasRootsAt(n) && i < n
    ensures Eval(data + CheckBytes(data, Generator(n)[1..]), Exp(i)) == 0
  {
    hide Eval, Exp, CheckBytes, Generator, Quotient;
    if n == 1 {
      ExpZero();
      VanishesAtFirstRoot(data, 1);
    } else {
      CodewordVanishesAt(data, Generator(n)[1..], Exp(i));
      DivisorIsGenerator(n);
      ForwardRoots(n, i);
    }
  }

  /** The codewords have the roots exactly when there is one check byte, or at least 255
      with the constant term of the generator one; and when they do not, blocks of every
      length have codewords without them. */
  lemma CodewordsHaveRootsExactly(n: nat, length: nat)
    requires n >= 1 && length >= 1
    ensures CodewordsHaveRoots(n) <==> HasRootsAt(n)
    ensures BlocksHaveRoots(n, length) <==> HasRootsAt(n)
  {
    hide Eval, Exp, CheckBytes, Generator, UnitBlock;
    if HasRootsAt(n) {
      forall data: seq<bv8>, i: nat | i < n
        ensures Eval(data + CheckBytes(data, Generator(n)[1..]), Exp(i)) == 0
      {
        AllBlocksHaveRoots(data, n, i);
      }
    } else {
      var i := UnitMissesRoot(n, length);
      var data := UnitBlock(length);
      assert |data| == length && Eval(data + CheckBytes(data, Generator(n)[1..]), Exp(i)) != 0;
    }
  }
}
