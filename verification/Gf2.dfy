/** Arithmetic of polynomials over GF(2) modulo a generator of degree 32.

    A word holds a polynomial in reflected order: bit 31 is the coefficient of
    x^0 and bit 0 that of x^31. The generator is given by its low coefficients
    in the same order. All results hold for every generator, so they serve both
    the CRC32C polynomial and the alternate one that undoes zero extension. */
module Gf2 {
  import opened Bits

  /** Multiplication by x, reduced by one step of long division. */
  function Step(p: Bits, r: Bits): (s: Bits)
    requires |p| == |r| > 0
    ensures |s| == |r|
  {
    if r[0] then Xor(ShiftRight(r, 1), p) else ShiftRight(r, 1)
  }

  /** Multiplication by x^n. */
  function Shift(p: Bits, r: Bits, n: nat): (s: Bits)
    requires |p| == |r| > 0
    ensures |s| == |r|
    decreases n
  {
    if n == 0 then r else Shift(p, Step(p, r), n - 1)
  }

  /** The `n` terms of the product `l * m` that come from the lowest powers in `l`. */
  function Terms(p: Word, l: Word, m: Word, n: nat): Word
    requires n <= 32
  {
    if n == 0 then Zeros(32)
    else Xor(Terms(p, l, m, n - 1), Select(l[32 - n], Shift(p, m, n - 1)))
  }

  /** The product of two polynomials, reduced. */
  function Mul(p: Word, l: Word, m: Word): Word {
    Terms(p, l, m, |p|)
  }

  /** The polynomial x^n, for n below 32. */
  function Unit(n: nat): Word
    requires n < 32
  {
    Zeros(32)[31 - n := true]
  }

  /** The polynomial x^n, reduced. */
  function Power(p: Word, n: nat): Word {
    Shift(p, Unit(0), n)
  }

  // ------------------------------------------------------------------------
  // Linearity
  // ------------------------------------------------------------------------

  lemma StepXor(p: Bits, a: Bits, b: Bits)
    requires |p| == |a| == |b| > 0
    ensures Step(p, Xor(a, b)) == Xor(Step(p, a), Step(p, b))
  {
  }

  lemma {:induction false} ShiftXor(p: Bits, a: Bits, b: Bits, n: nat)
    requires |p| == |a| == |b| > 0
    ensures Shift(p, Xor(a, b), n) == Xor(Shift(p, a, n), Shift(p, b, n))
    decreases n
  {
    if n > 0 {
      StepXor(p, a, b);
      ShiftXor(p, Step(p, a), Step(p, b), n - 1);
    }
  }

  lemma {:induction false} ShiftAdd(p: Bits, r: Bits, m: nat, n: nat)
    requires |p| == |r| > 0
    ensures Shift(p, r, m + n) == Shift(p, Shift(p, r, m), n)
    decreases m
  {
    if m > 0 {
      ShiftAdd(p, Step(p, r), m - 1, n);
    }
  }

  /** Steps commute with shifts. */
  lemma StepShift(p: Bits, r: Bits, n: nat)
    requires |p| == |r| > 0
    ensures Shift(p, Step(p, r), n) == Step(p, Shift(p, r, n)) == Shift(p, r, n + 1)
  {
    ShiftAdd(p, r, n, 1);
    assert Shift(p, Shift(p, r, n), 1) == Shift(p, Step(p, Shift(p, r, n)), 0);
  }

  lemma {:induction false} ShiftZero(p: Bits, n: nat)
    requires |p| > 0
    ensures Shift(p, Zeros(|p|), n) == Zeros(|p|)
    decreases n
  {
    if n > 0 {
      assert Step(p, Zeros(|p|)) == Zeros(|p|);
      ShiftZero(p, n - 1);
    }
  }

  lemma {:induction false} TermsXorLeft(p: Word, a: Word, b: Word, m: Word, n: nat)
    requires n <= 32
    ensures Terms(p, Xor(a, b), m, n) == Xor(Terms(p, a, m, n), Terms(p, b, m, n))
    decreases n
  {
    if n > 0 {
      TermsXorLeft(p, a, b, m, n - 1);
    }
  }

  lemma StepSelect(p: Word, flag: bool, r: Word)
    ensures Step(p, Select(flag, r)) == Select(flag, Step(p, r))
  {
    assert Step(p, Zeros(32)) == Zeros(32);
  }

  /** Multiplication by x moves out of the right factor. */
  lemma {:induction false} TermsStepRight(p: Word, l: Word, m: Word, n: nat)
    requires n <= 32
    ensures Terms(p, l, Step(p, m), n) == Step(p, Terms(p, l, m, n))
    decreases n
  {
    if n == 0 {
      StepSelect(p, false, m);
    } else {
      var last := Shift(p, m, n - 1);
      TermsStepRight(p, l, m, n - 1);
      StepShift(p, m, n - 1);
      StepSelect(p, l[32 - n], last);
      StepXor(p, Terms(p, l, m, n - 1), Select(l[32 - n], last));
    }
  }

  // ------------------------------------------------------------------------
  // Multiplication by powers of x
  // ------------------------------------------------------------------------

  /** Powers below 32 need no reduction. */
  lemma {:induction false} PowerUnit(p: Word, n: nat)
    requires n < 32
    ensures Power(p, n) == Unit(n)
    decreases n
  {
    if n > 0 {
      PowerUnit(p, n - 1);
      StepShift(p, Unit(0), n - 1);
      assert Step(p, Unit(n - 1)) == Unit(n);
    }
  }

  /** A polynomial is the sum of its own terms. */
  lemma {:induction false} TermsOne(p: Word, l: Word, n: nat)
    requires n <= 32
    ensures Terms(p, l, Unit(0), n) == Zeros(32 - n) + l[32 - n..]
    decreases n
  {
    if n > 0 {
      TermsOne(p, l, n - 1);
      PowerUnit(p, n - 1);
    }
  }

  lemma MulUnit(p: Word, l: Word)
    ensures Mul(p, l, Unit(0)) == l
  {
    TermsOne(p, l, |p|);
  }

  lemma MulStep(p: Word, l: Word, m: Word)
    ensures Mul(p, l, Step(p, m)) == Step(p, Mul(p, l, m))
  {
    TermsStepRight(p, l, m, |p|);
  }

  /** Multiplying by x^n is shifting by n, however large n is. */
  lemma {:induction false} MulPower(p: Word, l: Word, n: nat)
    ensures Mul(p, l, Power(p, n)) == Shift(p, l, n)
  {
    MulUnit(p, l);
    MulShift(p, l, Unit(0), n);
  }

  lemma {:induction false} MulShift(p: Word, l: Word, m: Word, n: nat)
    ensures Mul(p, l, Shift(p, m, n)) == Shift(p, Mul(p, l, m), n)
    decreases n
  {
    if n > 0 {
      MulStep(p, l, m);
      MulShift(p, l, Step(p, m), n - 1);
    }
  }

  lemma PowerAdd(p: Word, m: nat, n: nat)
    ensures Mul(p, Power(p, m), Power(p, n)) == Power(p, m + n)
  {
    MulPower(p, Power(p, m), n);
    ShiftAdd(p, Unit(0), m, n);
  }

  // ------------------------------------------------------------------------
  // Products by Horner's rule
  // ------------------------------------------------------------------------

  /** Consumes bits of the left factor from its highest power down. */
  function Horner(p: Word, acc: Word, bits: Bits, m: Word): Word
    decreases |bits|
  {
    if bits == [] then acc else Horner(p, Xor(Step(p, acc), Select(bits[0], m)), bits[1..], m)
  }

  lemma {:induction false} TermsHalf(p: Word, l: Word, m: Word, n: nat)
    requires 1 <= n <= 32
    ensures Terms(p, ShiftRight(l, 1), m, n) == Terms(p, l, Step(p, m), n - 1)
    decreases n
  {
    if n > 1 {
      TermsHalf(p, l, m, n - 1);
      assert ShiftRight(l, 1)[32 - n] == l[33 - n];
    } else {
      assert !ShiftRight(l, 1)[31];
      assert Terms(p, ShiftRight(l, 1), m, 0) == Zeros(32);
    }
  }

  lemma {:induction false} MulOne(p: Word, flag: bool, m: Word, n: nat)
    requires 1 <= n <= 32
    ensures Terms(p, Select(flag, Unit(0)), m, n) == Select(flag, m)
    decreases n
  {
    if n > 1 {
      MulOne(p, flag, m, n - 1);
    }
  }

  /** The product by the `n` lowest bits of `l`, moved to the top. */
  function Partial(p: Word, l: Word, m: Word, n: nat): Word
    requires n <= 32
  {
    Mul(p, ShiftLeft(l, 32 - n), m)
  }

  lemma PartialStep(p: Word, l: Word, m: Word, n: nat)
    requires n < 32
    ensures Partial(p, l, m, n + 1) == Xor(Step(p, Partial(p, l, m, n)), Select(l[n], m))
  {
    var low := ShiftLeft(l, 32 - n);
    ShiftLeftNext(l, n);
    MulXor(p, ShiftRight(low, 1), Select(l[n], Unit(0)), m);
    MulSelect(p, l[n], m);
    MulHalf(p, low, m);
  }

  lemma ShiftLeftNext(l: Word, n: nat)
    requires n < 32
    ensures ShiftLeft(l, 31 - n) == Xor(ShiftRight(ShiftLeft(l, 32 - n), 1), Select(l[n], Unit(0)))
  {
  }

  lemma MulXor(p: Word, a: Word, b: Word, m: Word)
    ensures Mul(p, Xor(a, b), m) == Xor(Mul(p, a, m), Mul(p, b, m))
  {
    TermsXorLeft(p, a, b, m, |p|);
  }

  lemma MulSelect(p: Word, flag: bool, m: Word)
    ensures Mul(p, Select(flag, Unit(0)), m) == Select(flag, m)
  {
    MulOne(p, flag, m, |p|);
  }

  lemma MulHalf(p: Word, l: Word, m: Word)
    requires !l[0]
    ensures Mul(p, ShiftRight(l, 1), m) == Step(p, Mul(p, l, m))
  {
    TermsHalf(p, l, m, |p|);
    LowBitClear(p, l, Step(p, m));
    MulStep(p, l, m);
  }

  lemma LowBitClear(p: Word, l: Word, m: Word)
    requires !l[0]
    ensures Terms(p, l, m, |p| - 1) == Mul(p, l, m)
  {
    var t := Terms(p, l, m, |p| - 1);
    assert Mul(p, l, m) == Xor(t, Select(l[0], Shift(p, m, 31)));
    assert Xor(t, Zeros(32)) == t;
  }

  lemma {:induction false} PartialHorner(p: Word, l: Word, m: Word, n: nat, k: nat)
    requires n + k <= 32
    ensures Horner(p, Partial(p, l, m, n), l[n..n + k], m) == Partial(p, l, m, n + k)
    decreases k
  {
    if k > 0 {
      PartialStep(p, l, m, n);
      assert l[n..n + k][1..] == l[n + 1..n + k];
      PartialHorner(p, l, m, n + 1, k - 1);
    }
  }
}
