/** The table-driven CRC32C engine: the four-register `Extend` loop and zero
    extension by polynomial products. */
module CrcEngine {
  import opened Bits
  import opened Gf2
  import opened Crc
  import opened CrcTables
  import opened BitReverse

  // ------------------------------------------------------------------------
  // Table lookups
  // ------------------------------------------------------------------------

  lemma Lookup(p: Word, n: nat, b: Byte)
    ensures Value(b) < 256 && ByteTable(p, n)[Value(b)] == Shift(p, Widen(b, |p|), n)
  {
    ValueBound(b);
    assert Pow2(8) == 256 by { Pow2Order8(7); }
    UnpackValue(b, |p|);
  }

  /** While the low bits are clear no reduction happens. */
  lemma {:induction false} ShiftClear(p: Bits, r: Bits, n: nat)
    requires |p| == |r| && n <= |r| && 0 < |r|
    requires forall i :: 0 <= i < n ==> !r[i]
    ensures Shift(p, r, n) == ShiftRight(r, n)
    decreases n
  {
    if n > 0 {
      ShiftClear(p, Step(p, r), n - 1);
      assert ShiftRight(ShiftRight(r, 1), n - 1) == ShiftRight(r, n);
    }
  }

  /** Only the low bits need reducing when a register advances by `k` places. */
  lemma ReduceLow(p: Bits, r: Bits, k: nat)
    requires |p| == |r| >= k && 0 < |p|
    ensures Shift(p, r, k) == Xor(Shift(p, Widen(r[..k], |r|), k), ShiftRight(r, k))
  {
    var low, high := Widen(r[..k], |r|), Zeros(k) + r[k..];
    assert r == Xor(low, high);
    ShiftXor(p, low, high, k);
    ShiftClear(p, high, k);
    assert ShiftRight(high, k) == ShiftRight(r, k);
  }

  // ------------------------------------------------------------------------
  // Carry-less multiplication in a 64-bit register
  // ------------------------------------------------------------------------

  /** The carry-less product of a few bits with `m`, low bit first. */
  ghost function ClMul(bits: Bits, m: Bits): (c: Bits)
    requires |m| > 0
    ensures |c| == |m|
    decreases |bits|
  {
    if bits == [] then Zeros(|m|) else Xor(Select(bits[0], m), ShiftLeft(ClMul(bits[1..], m), 1))
  }

  /** Entry of the four-element table that multiplies two bits at a time. */
  function TwoBits(b0: bool, b1: bool, m: Bits): (c: Bits)
    requires |m| > 0
    ensures |c| == |m|
  {
    Xor(Select(b0, m), Select(b1, ShiftLeft(m, 1)))
  }

  lemma ShiftLeftXor(a: Bits, b: Bits, n: nat)
    requires |a| == |b| >= n
    ensures ShiftLeft(Xor(a, b), n) == Xor(ShiftLeft(a, n), ShiftLeft(b, n))
  {
  }

  lemma ShiftLeftTwice(a: Bits)
    requires |a| >= 2
    ensures ShiftLeft(ShiftLeft(a, 1), 1) == ShiftLeft(a, 2)
  {
  }

  lemma XorAssoc(a: Bits, b: Bits, c: Bits)
    requires |a| == |b| == |c|
    ensures Xor(a, Xor(b, c)) == Xor(Xor(a, b), c)
  {
  }

  lemma TwoBitsShift(b0: bool, b1: bool, m: Bits, rest: Bits)
    requires |m| == |rest| >= 2
    ensures Xor(Select(b0, m), ShiftLeft(Xor(Select(b1, m), ShiftLeft(rest, 1)), 1))
         == Xor(TwoBits(b0, b1, m), ShiftLeft(rest, 2))
  {
    ShiftLeftXor(Select(b1, m), ShiftLeft(rest, 1), 1);
    ShiftLeftTwice(rest);
    assert ShiftLeft(Zeros(|m|), 1) == Zeros(|m|);
    XorAssoc(Select(b0, m), Select(b1, ShiftLeft(m, 1)), ShiftLeft(rest, 2));
  }

  lemma ClMulOneBit(b: bool, bits: Bits, m: Bits)
    requires |m| > 0
    ensures ClMul([b] + bits, m) == Xor(Select(b, m), ShiftLeft(ClMul(bits, m), 1))
  {
    hide ShiftLeft, Select, Xor;
    assert ([b] + bits)[1..] == bits;
  }

  lemma ClMulTwoBits(b0: bool, b1: bool, bits: Bits, m: Bits)
    requires |m| >= 2
    ensures ClMul([b0, b1] + bits, m) == Xor(TwoBits(b0, b1, m), ShiftLeft(ClMul(bits, m), 2))
  {
    hide ClMul, ShiftLeft, Select, TwoBits, Xor;
    assert [b0, b1] + bits == [b0] + ([b1] + bits);
    ClMulOneBit(b0, [b1] + bits, m);
    ClMulOneBit(b1, bits, m);
    TwoBitsShift(b0, b1, m, ClMul(bits, m));
  }

  /** Multiplication by a byte, two bits at a time. */
  function ByteProduct(b: Byte, m: Bits): (c: Bits)
    requires |m| >= 8
    ensures |c| == |m|
  {
    Xor(Xor(Xor(TwoBits(b[0], b[1], m), ShiftLeft(TwoBits(b[2], b[3], m), 2)),
            ShiftLeft(TwoBits(b[4], b[5], m), 4)),
        ShiftLeft(TwoBits(b[6], b[7], m), 6))
  }

  lemma Nest(t0: Bits, t1: Bits, t2: Bits, t3: Bits)
    requires |t0| == |t1| == |t2| == |t3| >= 8
    ensures Xor(t0, ShiftLeft(Xor(t1, ShiftLeft(Xor(t2, ShiftLeft(Xor(t3, ShiftLeft(Zeros(|t0|), 2)), 2)), 2)), 2))
         == Xor(Xor(Xor(t0, ShiftLeft(t1, 2)), ShiftLeft(t2, 4)), ShiftLeft(t3, 6))
  {
    var u3 := Xor(t3, ShiftLeft(Zeros(|t0|), 2));
    var u2 := Xor(t2, ShiftLeft(u3, 2));
    var u1 := Xor(t1, ShiftLeft(u2, 2));
    forall i | 0 <= i < |t0|
      ensures Xor(t0, ShiftLeft(u1, 2))[i]
           == Xor(Xor(Xor(t0, ShiftLeft(t1, 2)), ShiftLeft(t2, 4)), ShiftLeft(t3, 6))[i]
    {
      if i >= 2 {
        assert ShiftLeft(u1, 2)[i] == u1[i - 2];
      }
      if i >= 4 {
        assert ShiftLeft(u2, 2)[i - 2] == u2[i - 4];
      }
      if i >= 6 {
        assert ShiftLeft(u3, 2)[i - 4] == u3[i - 6] == t3[i - 6];
      }
    }
  }

  lemma ByteProductIsClMul(b: Byte, m: Bits)
    requires |m| >= 8
    ensures ByteProduct(b, m) == ClMul(b, m)
  {
    assert b == [b[0], b[1]] + ([b[2], b[3]] + ([b[4], b[5]] + ([b[6], b[7]] + [])));
    ClMulTwoBits(b[0], b[1], [b[2], b[3]] + ([b[4], b[5]] + ([b[6], b[7]] + [])), m);
    ClMulTwoBits(b[2], b[3], [b[4], b[5]] + ([b[6], b[7]] + []), m);
    ClMulTwoBits(b[4], b[5], [b[6], b[7]] + [], m);
    ClMulTwoBits(b[6], b[7], [], m);
    Nest(TwoBits(b[0], b[1], m), TwoBits(b[2], b[3], m), TwoBits(b[4], b[5], m), TwoBits(b[6], b[7], m));
  }

  /** A product of few bits does not reach the top of the register. */
  lemma {:induction false} ClMulBound(bits: Bits, m: Bits, top: nat)
    requires |m| > 0 && top + |bits| <= |m|
    requires forall i :: top <= i < |m| ==> !m[i]
    ensures forall i :: top + |bits| <= i < |m| ==> !ClMul(bits, m)[i]
    decreases |bits|
  {
    if bits != [] {
      ClMulBound(bits[1..], m, top);
    }
  }

  lemma {:induction false} WidenShift(p: Word, r: Word, n: nat)
    ensures Shift(Widen(p, 64), Widen(r, 64), n) == Widen(Shift(p, r, n), 64)
    decreases n
  {
    if n > 0 {
      assert Step(Widen(p, 64), Widen(r, 64)) == Widen(Step(p, r), 64);
      WidenShift(p, Step(p, r), n - 1);
    }
  }

  /** Adding a carry-less product and reducing it is Horner's rule. */
  lemma {:induction false} ReduceProduct(p: Word, acc: Word, bits: Bits, m: Word)
    requires |bits| <= 8
    ensures Shift(Widen(p, 64), Xor(Widen(acc, 64), ClMul(bits, ShiftLeft(Widen(m, 64), 1))), |bits|)
         == Widen(Horner(p, acc, bits, m), 64)
    decreases |bits|
  {
    var m1 := ShiftLeft(Widen(m, 64), 1);
    if bits == [] {
      assert Xor(Widen(acc, 64), Zeros(64)) == Widen(acc, 64);
    } else {
      var next := Xor(Step(p, acc), Select(bits[0], m));
      ReduceOneBit(p, acc, bits, m);
      ReduceProduct(p, next, bits[1..], m);
    }
  }

  lemma ReduceOneBit(p: Word, acc: Word, bits: Bits, m: Word)
    requires 0 < |bits| <= 8
    ensures Step(Widen(p, 64), Xor(Widen(acc, 64), ClMul(bits, ShiftLeft(Widen(m, 64), 1))))
         == Xor(Widen(Xor(Step(p, acc), Select(bits[0], m)), 64), ClMul(bits[1..], ShiftLeft(Widen(m, 64), 1)))
  {
    var m1 := ShiftLeft(Widen(m, 64), 1);
    ClMulBound(bits[1..], m1, 33);
    ReduceOne(p, acc, bits[0], m, ClMul(bits[1..], m1));
  }

  lemma ReduceOne(p: Word, acc: Word, flag: bool, m: Word, rest: Bits)
    requires |rest| == 64 && !rest[63]
    ensures Step(Widen(p, 64), Xor(Widen(acc, 64), Xor(Select(flag, ShiftLeft(Widen(m, 64), 1)), ShiftLeft(rest, 1))))
         == Xor(Widen(Xor(Step(p, acc), Select(flag, m)), 64), rest)
  {
    var p64, m1 := Widen(p, 64), ShiftLeft(Widen(m, 64), 1);
    StepXor(p64, Widen(acc, 64), Xor(Select(flag, m1), ShiftLeft(rest, 1)));
    StepXor(p64, Select(flag, m1), ShiftLeft(rest, 1));
    assert Step(p64, ShiftLeft(rest, 1)) == rest;
    assert Step(p64, Select(flag, m1)) == Widen(Select(flag, m), 64);
    WidenShift(p, acc, 1);
    assert Step(p64, Widen(acc, 64)) == Widen(Step(p, acc), 64);
    XorAssoc(Widen(Step(p, acc), 64), Widen(Select(flag, m), 64), rest);
    assert Xor(Widen(Step(p, acc), 64), Widen(Select(flag, m), 64)) == Widen(Xor(Step(p, acc), Select(flag, m)), 64);
  }

  /** One round: multiply by a byte of the register, then reduce by a byte. */
  method MultiplyRound(result0: Bits, b: Byte, m: Bits, polyTable: seq<Word>, ghost p: Word, ghost entry: Word, ghost acc: Word)
    returns (result: Bits)
    requires polyTable == ByteTable(p, 8) && m == ShiftLeft(Widen(entry, 64), 1)
    requires result0 == Widen(acc, 64)
    ensures result == Widen(Horner(p, acc, b, entry), 64)
  {
    var sum := Xor(result0, ByteProduct(b, m));
    ByteProductIsClMul(b, m);
    Lookup(p, 8, sum[..8]);
    RoundReduces(p, acc, b, entry, sum);
    result := Xor(ShiftRight(sum, 8), Widen(polyTable[Value(sum[..8])], 64));
  }

  lemma RoundReduces(p: Word, acc: Word, b: Byte, entry: Word, sum: Bits)
    requires sum == Xor(Widen(acc, 64), ClMul(b, ShiftLeft(Widen(entry, 64), 1)))
    ensures Xor(ShiftRight(sum, 8), Widen(Shift(p, Widen(sum[..8], |p|), 8), 64))
         == Widen(Horner(p, acc, b, entry), 64)
  {
    var reduced := Shift(p, Widen(sum[..8], |p|), 8);
    ReduceProduct(p, acc, b, entry);
    ReduceLow(Widen(p, 64), sum, 8);
    WidenShift(p, Widen(sum[..8], |p|), 8);
    assert Widen(Widen(sum[..8], |p|), 64) == Widen(sum[..8], 64);
    XorComm(ShiftRight(sum, 8), Widen(reduced, 64));
  }

  lemma XorComm(a: Bits, b: Bits)
    requires |a| == |b|
    ensures Xor(a, b) == Xor(b, a)
  {
  }

  /** The product of a register and a table entry, one byte at a time. */
  method Multiply(crc: Word, entry: Word, polyTable: seq<Word>, ghost p: Word) returns (l: Word)
    requires polyTable == ByteTable(p, 8)
    ensures l == Mul(p, crc, entry)
  {
    hide Partial, Horner, Mul;
    var m := ShiftLeft(Widen(entry, 64), 1);
    var result := Zeros(64);
    l := crc;
    PartialEnds(p, crc, entry);
    for x := 0 to 4
      invariant l == ShiftRight(crc, 8 * x)
      invariant result == Widen(Partial(p, crc, entry, 8 * x), 64)
    {
      var b: Byte := l[..8];
      assert b == crc[8 * x..8 * x + 8];
      result := MultiplyRound(result, b, m, polyTable, p, entry, Partial(p, crc, entry, 8 * x));
      PartialHorner(p, crc, entry, 8 * x, 8);
      l := ShiftRight(l, 8);
    }
    l := result[..32];
  }

  lemma PartialEnds(p: Word, l: Word, m: Word)
    ensures Partial(p, l, m, 0) == Zeros(32) && Partial(p, l, m, 32) == Mul(p, l, m)
  {
    assert ShiftLeft(l, 32) == Select(false, Unit(0)) && ShiftLeft(l, 0) == l;
    MulSelect(p, false, m);
  }

  // ------------------------------------------------------------------------
  // Four interleaved registers
  // ------------------------------------------------------------------------

  /** The register that four interleaved ones stand for. */
  ghost function Combined(p: Word, b0: Word, b1: Word, b2: Word, b3: Word): Word {
    Shift(p, Xor(CombinedThree(p, b0, b1, b2), b3), |p|)
  }

  ghost function CombinedThree(p: Word, b0: Word, b1: Word, b2: Word): Word {
    Shift(p, Xor(Shift(p, Xor(Shift(p, b0, |p|), b1), |p|), b2), |p|)
  }

  lemma ShiftSum(p: Word, a: Word, b: Word, c: Word, m: nat, n: nat)
    ensures Shift(p, Xor(Xor(Shift(p, a, m), b), c), n) == Xor(Shift(p, a, m + n), Shift(p, Xor(b, c), n))
  {
    assert Xor(Xor(Shift(p, a, m), b), c) == Xor(Shift(p, a, m), Xor(b, c));
    ShiftXor(p, Shift(p, a, m), Xor(b, c), n);
    ShiftAdd(p, a, m, n);
  }

  lemma CombinedThreeSplit(p: Word, b0: Word, b1: Word, b2: Word)
    ensures CombinedThree(p, b0, b1, b2)
         == Xor(Shift(p, b0, 3 * |p|), Shift(p, Xor(Shift(p, b1, |p|), b2), |p|))
  {
    var n := |p|;
    ShiftXor(p, Shift(p, b0, n), b1, n);
    ShiftAdd(p, b0, n, n);
    ShiftSum(p, b0, Shift(p, b1, n), b2, 2 * n, n);
  }

  /** Taking the oldest register out leaves it shifted by four words. */
  lemma CombinedSplit(p: Word, b0: Word, b1: Word, b2: Word, b3: Word)
    ensures Combined(p, b0, b1, b2, b3) == Xor(Shift(p, b0, 4 * |p|), CombinedThree(p, b1, b2, b3))
  {
    CombinedThreeSplit(p, b0, b1, b2);
    ShiftSum(p, b0, Shift(p, Xor(Shift(p, b1, |p|), b2), |p|), b3, 3 * |p|, |p|);
  }

  lemma XorRotate(a: Bits, b: Bits, c: Bits)
    requires |a| == |b| == |c|
    ensures Xor(b, Xor(c, a)) == Xor(Xor(a, b), c)
  {
  }

  /** Advancing the oldest register by a word and making it the newest one
      advances the register they stand for by that word. */
  lemma CombinedRotate(p: Word, b0: Word, b1: Word, b2: Word, b3: Word, w: Word)
    ensures Combined(p, b1, b2, b3, Xor(w, Shift(p, b0, 4 * |p|)))
         == Shift(p, Xor(Combined(p, b0, b1, b2, b3), w), |p|)
  {
    CombinedSplit(p, b0, b1, b2, b3);
    XorRotate(Shift(p, b0, 4 * |p|), CombinedThree(p, b1, b2, b3), w);
  }

  /** Peeling the low bits off a register that is about to be shifted. */
  lemma PeelLow(p: Word, r: Word, k: nat, n: nat)
    requires k <= n && k <= |r|
    ensures Shift(p, r, n) == Xor(Shift(p, Widen(r[..k], |p|), n), Shift(p, ShiftRight(r, k), n - k))
  {
    hide Shift;
    ReduceLow(p, r, k);
    ShiftAdd(p, r, k, n - k);
    ShiftAdd(p, Widen(r[..k], |p|), k, n - k);
    ShiftXor(p, Shift(p, Widen(r[..k], |p|), k), ShiftRight(r, k), n - k);
  }

  lemma PeelTwo(p: Word, r: Word, n: nat)
    requires n >= 16
    ensures Shift(p, r, n)
         == Xor(Shift(p, Widen(r[..8], |p|), n),
            Xor(Shift(p, Widen(r[8..16], |p|), n - 8), Shift(p, ShiftRight(r, 16), n - 16)))
  {
    hide Shift;
    var r1 := ShiftRight(r, 8);
    assert r1[..8] == r[8..16] && ShiftRight(r1, 8) == ShiftRight(r, 16);
    PeelLow(p, r, 8, n);
    PeelLow(p, r1, 8, n - 8);
  }

  /** A shift of a whole register is the sum of four byte lookups. */
  lemma FourLookups(p: Word, r: Word, n: nat)
    requires n >= 32
    ensures Shift(p, r, n)
         == Xor(Shift(p, Widen(r[..8], |p|), n),
            Xor(Shift(p, Widen(r[8..16], |p|), n - 8),
            Xor(Shift(p, Widen(r[16..24], |p|), n - 16), Shift(p, Widen(r[24..], |p|), n - 24))))
  {
    hide Shift;
    var r2 := ShiftRight(r, 16);
    PeelTwo(p, r, n);
    PeelTwo(p, r2, n - 16);
    ShiftZero(p, n - 32);
    UpperBytes(r);
    XorZero(Shift(p, Widen(r[24..], |p|), n - 24));
  }

  lemma UpperBytes(r: Word)
    ensures ShiftRight(r, 16)[..8] == r[16..24] && ShiftRight(r, 16)[8..16] == r[24..]
    ensures ShiftRight(ShiftRight(r, 16), 16) == Zeros(32)
  {
  }

  lemma XorZero(a: Bits)
    ensures Xor(a, Zeros(|a|)) == a
  {
  }

  // ------------------------------------------------------------------------
  // The engine
  // ------------------------------------------------------------------------

  /** The number of base-16 digits of `n`. */
  function Digits16(n: nat): nat {
    if n == 0 then 0 else 1 + Digits16(n / 16)
  }

  /** Extends a register by `length` zero bytes with one product per base-16 digit. */
  method ExtendByZeroesImpl(crc: Word, length: Size, zeroesTable: seq<Word>, polyTable: seq<Word>, ghost p: Word)
    returns (l: Word, ghost rounds: nat)
    requires ZeroTable(p, zeroesTable) && polyTable == ByteTable(p, 8)
    ensures l == Shift(p, crc, 8 * length)
    ensures rounds == Digits16(length)
  {
    hide Shift, Power, ZeroCount, Mul;
    l := crc;
    rounds := 0;
    var rest: nat := length;
    var i := 0;
    ghost var done: nat := 0;
    ShiftNothing(p, crc);
    Pow16Bound(16);
    DigitsBound(length, 16);
    while rest != 0
      invariant i == 15 * rounds && done + rest * Pow16(rounds) == length
      invariant l == Shift(p, crc, 8 * done)
      invariant rounds + Digits16(rest) == Digits16(length)
      decreases rest
    {
      var c := rest % ZEROES_BASE;
      if c != 0 {
        var entry := zeroesTable[c + i - 1];
        ZeroCountAt(rounds, c - 1);
        l := Multiply(l, entry, polyTable, p);
        MulPower(p, Shift(p, crc, 8 * done), 8 * (c * Pow16(rounds)));
        ShiftAdd(p, crc, 8 * done, 8 * (c * Pow16(rounds)));
      }
      SplitDigit(rest, rounds);
      done := done + c * Pow16(rounds);
      i := i + (ZEROES_BASE - 1);
      rest := rest / 16;
      rounds := rounds + 1;
    }
  }

  lemma ShiftNothing(p: Word, r: Word)
    ensures Shift(p, r, 0) == r
  {
  }

  lemma SplitDigit(rest: nat, b: nat)
    ensures rest * Pow16(b) == rest % 16 * Pow16(b) + rest / 16 * Pow16(b + 1)
  {
    var q, c := rest / 16, rest % 16;
    assert rest == 16 * q + c;
    assert rest * Pow16(b) == (16 * q + c) * Pow16(b) == q * (16 * Pow16(b)) + c * Pow16(b);
  }

  lemma {:induction false} DigitsBound(n: nat, k: nat)
    requires n < Pow16(k)
    ensures Digits16(n) <= k
    decreases k
  {
    if n > 0 {
      DigitsBound(n / 16, k - 1);
    }
  }

  lemma TableStep(p: Word, l: Word, b: Byte)
    ensures Value(Xor(l[..8], b)) < 256
    ensures Xor(ByteTable(p, 8)[Value(Xor(l[..8], b))], ShiftRight(l, 8)) == Shift(p, Xor(l, Widen(b, |p|)), 8)
  {
    hide Shift, ByteTable, Value;
    var c, sum := Xor(l[..8], b), Xor(l, Widen(b, |p|));
    SumLow(l, b);
    Lookup(p, 8, c);
    ReduceLow(p, sum, 8);
  }

  lemma SumLow(l: Word, b: Byte)
    ensures Xor(l, Widen(b, |l|))[..8] == Xor(l[..8], b)
    ensures ShiftRight(Xor(l, Widen(b, |l|)), 8) == ShiftRight(l, 8)
  {
  }

  lemma SwathStep(p: Word, crc: Word)
    ensures Value(crc[..8]) < 256 && Value(crc[8..16]) < 256 && Value(crc[16..24]) < 256 && Value(crc[24..]) < 256
    ensures Xor(ByteTable(p, 4 * |p|)[Value(crc[..8])],
            Xor(ByteTable(p, 4 * |p| - 8)[Value(crc[8..16])],
            Xor(ByteTable(p, 4 * |p| - 16)[Value(crc[16..24])],
                ByteTable(p, 4 * |p| - 24)[Value(crc[24..])]))) == Shift(p, crc, 4 * |p|)
  {
    hide Shift, ByteTable, Xor, Value;
    Lookup(p, 4 * |p|, crc[..8]);
    Lookup(p, 4 * |p| - 8, crc[8..16]);
    Lookup(p, 4 * |p| - 16, crc[16..24]);
    Lookup(p, 4 * |p| - 24, crc[24..]);
    FourLookups(p, crc, 4 * |p|);
  }

  lemma TopBitEntry(p: Word)
    ensures Entry(p, 8, 128) == p
  {
    Pow2Order8(7);
    UnpackTop(0, 7, |p|);
    PowerUnit(p, 24);
    assert Unpack(128, |p|) == Unit(24);
    ShiftAdd(p, Unit(0), 24, 8);
    PowerUnit(p, 31);
    StepShift(p, Unit(0), 31);
    assert Step(p, Unit(31)) == p;
  }

  /** The top bit of a byte followed by `n` zero bytes, by table lookups. */
  method AdvanceBytes(byteTable: seq<Word>, first: Word, n: nat, ghost p: Word) returns (last: Word)
    requires byteTable == ByteTable(p, 8)
    ensures last == Shift(p, first, 8 * n)
  {
    hide Shift, ByteTable;
    last := first;
    ShiftNothing(p, first);
    for i := 0 to n
      invariant last == Shift(p, first, 8 * i)
    {
      TableStep(p, last, Zeros(8));
      ShiftAdd(p, first, 8 * i, 8);
      assert Xor(last[..8], Zeros(8)) == last[..8] && Xor(last, Widen(Zeros(8), |p|)) == last;
      last := Xor(byteTable[Value(last[..8])], ShiftRight(last, 8));
    }
  }

  /** The lookup tables of the 32-bit implementation, for a generator that has
      a constant term. */
  class CRC32 {
    const poly: Word
    var table0: seq<Word>
    var zeroes: seq<Word>
    var table: seq<seq<Word>>
    var reverseTable0: seq<Word>
    var reverseZeroes: seq<Word>

    ghost predicate Valid()
      reads this
    {
      && poly[31]
      && table0 == ByteTable(poly, 8)
      && ZeroTable(poly, zeroes)
      && |table| == 4
      && (forall j :: 0 <= j < 4 ==> table[j] == ByteTable(poly, 3 * |poly| + 8 + 8 * j))
      && reverseTable0 == ByteTable(Dual(poly), 8)
      && ZeroTable(Dual(poly), reverseZeroes)
    }

    constructor InitTables(poly: Word)
      requires poly[31]
      ensures this.poly == poly && Valid()
    {
      hide Shift, Entry, Power, ByteTable, Dual;
      TopBitEntry(poly);
      var t := FillWordTable(poly, poly, 1, 8);
      var byteTable := t[0];
      var last := AdvanceBytes(byteTable, poly, 12, poly);
      LastEntry(poly);
      t := FillWordTable(poly, last, 4, 3 * |poly| + 8);
      var z := FillZeroesTable(poly);
      var unextendPoly := ReverseBits(Xor(ShiftLeft(poly, 1), Unit(31)));
      DualByReverseBits(poly);
      TopBitEntry(unextendPoly);
      var rt := FillWordTable(unextendPoly, unextendPoly, 1, 8);
      var rz := FillZeroesTable(unextendPoly);
      this.poly := poly;
      table0, zeroes, table, reverseTable0, reverseZeroes := byteTable, z, t, rt[0], rz;
    }

    /** What is still to be computed from register `r` at position `i`. */
    ghost function Rest(r: Word, data: seq<Byte>, i: nat): Word
      requires i <= |data|
    {
      Absorb(poly, r, data[i..])
    }

    /** Consumes the bytes from `i` up to `end` one at a time. */
    method StepBytes(l0: Word, data: seq<Byte>, i0: nat, end: nat) returns (l: Word)
      requires Valid() && i0 <= end <= |data|
      ensures Rest(l, data, end) == Rest(l0, data, i0)
    {
      hide Absorb, Shift, ByteTable, Value;
      l := l0;
      var i := i0;
      while i != end
        invariant i0 <= i <= end && Rest(l, data, i) == Rest(l0, data, i0)
        decreases end - i
      {
        TableStep(poly, l, data[i]);
        AbsorbByte(poly, l, data[i..]);
        assert data[i..][1..] == data[i + 1..];
        l := Xor(table0[Value(Xor(l[..8], data[i]))], ShiftRight(l, 8));
        i := i + 1;
      }
    }

    /** Reads four bytes as a little-endian word. */
    function Load32(data: seq<Byte>, i: nat): Word
      requires i + 4 <= |data|
    {
      Flatten(data[i..i + 4])
    }

    /** Four data bytes followed by twelve zero bytes. */
    method StepSwath(crc: Word, data: seq<Byte>, i: nat) returns (r: Word)
      requires Valid() && i + 4 <= |data|
      ensures r == Xor(Load32(data, i), Shift(poly, crc, 4 * |poly|))
    {
      hide Shift, ByteTable, Value, Flatten;
      SwathStep(poly, crc);
      r := Xor(Load32(data, i),
               Xor(table[3][Value(crc[..8])], Xor(table[2][Value(crc[8..16])],
               Xor(table[1][Value(crc[16..24])], table[0][Value(crc[24..])]))));
    }

    /** Making an advanced oldest register the newest one consumes a word. */
    lemma RotateConsumes(s: Swath, data: seq<Byte>, i: nat, b: Word)
      requires i + 4 <= |data|
      requires b == Xor(Load32(data, i), Shift(poly, s.b0, 4 * |poly|))
      ensures Rest(Swath(s.b1, s.b2, s.b3, b).Whole(poly), data, i + 4) == Rest(s.Whole(poly), data, i)
    {
      hide Shift, Absorb, Flatten, Combined;
      CombinedRotate(poly, s.b0, s.b1, s.b2, s.b3, Load32(data, i));
      AbsorbWord(poly, s.Whole(poly), data[i..]);
      assert data[i..][..4] == data[i..i + 4] && data[i..][4..] == data[i + 4..];
    }

    /** Advances every register by its own word. */
    method StepStride(s: Swath, data: seq<Byte>, i: nat) returns (s': Swath)
      requires Valid() && i + 16 <= |data|
      ensures Rest(s'.Whole(poly), data, i + 16) == Rest(s.Whole(poly), data, i)
    {
      hide Rest, Shift, Load32;
      var b0 := StepSwath(s.b0, data, i);
      var b1 := StepSwath(s.b1, data, i + 4);
      var b2 := StepSwath(s.b2, data, i + 8);
      var b3 := StepSwath(s.b3, data, i + 12);
      RotateConsumes(s, data, i, b0);
      RotateConsumes(Swath(s.b1, s.b2, s.b3, b0), data, i + 4, b1);
      RotateConsumes(Swath(s.b2, s.b3, b0, b1), data, i + 8, b2);
      RotateConsumes(Swath(s.b3, b0, b1, b2), data, i + 12, b3);
      s' := Swath(b0, b1, b2, b3);
    }

    /** Loads the first sixteen bytes, with `l` folded into the first word. */
    method LoadSwath(l: Word, data: seq<Byte>, i: nat) returns (s: Swath)
      requires Valid() && i + 16 <= |data|
      ensures Rest(s.Whole(poly), data, i + 16) == Rest(l, data, i)
    {
      hide Shift, Absorb, Flatten;
      s := Swath(Xor(Load32(data, i), l), Load32(data, i + 4), Load32(data, i + 8), Load32(data, i + 12));
      var r0 := l;
      var r1 := Shift(poly, Xor(r0, Load32(data, i)), |poly|);
      var r2 := Shift(poly, Xor(r1, s.b1), |poly|);
      var r3 := Shift(poly, Xor(r2, s.b2), |poly|);
      ConsumeWord(r0, data, i);
      ConsumeWord(r1, data, i + 4);
      ConsumeWord(r2, data, i + 8);
      ConsumeWord(r3, data, i + 12);
      XorComm(Load32(data, i), l);
    }

    lemma ConsumeWord(r: Word, data: seq<Byte>, i: nat)
      requires i + 4 <= |data|
      ensures Rest(Shift(poly, Xor(r, Load32(data, i)), |poly|), data, i + 4) == Rest(r, data, i)
    {
      hide Shift, Absorb, Flatten;
      AbsorbWord(poly, r, data[i..]);
      assert data[i..][..4] == data[i..i + 4] && data[i..][4..] == data[i + 4..];
    }

    /** One data word folded into a register and advanced by its four bytes. */
    method CombineOneWord(crc: Word, w: Word) returns (r: Word)
      requires Valid()
      ensures r == Shift(poly, Xor(crc, w), |poly|)
    {
      hide Shift;
      r := AdvanceBytes(table0, Xor(w, crc), 4, poly);
      XorComm(crc, w);
    }

    /** The register that the four interleaved ones stand for. */
    method CombineSwath(s: Swath) returns (l: Word)
      requires Valid()
      ensures l == s.Whole(poly)
    {
      hide Shift;
      l := CombineOneWord(Zeros(32), s.b0);
      assert Xor(Zeros(32), s.b0) == s.b0;
      l := CombineOneWord(l, s.b1);
      l := CombineOneWord(l, s.b2);
      l := CombineOneWord(l, s.b3);
    }

    /** The interleaved part: as many strides, then words, as fit. */
    method ExtendSwath(l0: Word, data: seq<Byte>, i0: nat, horizon: nat) returns (l: Word, i: nat)
      requires Valid() && i0 + 16 <= |data| && horizon >= 64
      ensures i0 <= i <= |data| && Rest(l, data, i) == Rest(l0, data, i0)
    {
      hide Rest, Combined;
      var s := LoadSwath(l0, data, i0);
      i := i0 + 16;
      while |data| - i > horizon
        invariant i0 <= i <= |data| && Rest(s.Whole(poly), data, i) == Rest(l0, data, i0)
      {
        s := StepStride(s, data, i);
        s := StepStride(s, data, i + 16);
        s := StepStride(s, data, i + 32);
        s := StepStride(s, data, i + 48);
        i := i + 64;
      }
      while |data| - i >= 16
        invariant i0 <= i <= |data| && Rest(s.Whole(poly), data, i) == Rest(l0, data, i0)
      {
        s := StepStride(s, data, i);
        i := i + 16;
      }
      while |data| - i >= 4
        invariant i0 <= i <= |data| && Rest(s.Whole(poly), data, i) == Rest(l0, data, i0)
      {
        var b := StepSwath(s.b0, data, i);
        RotateConsumes(s, data, i, b);
        s := Swath(s.b1, s.b2, s.b3, b);
        i := i + 4;
      }
      l := CombineSwath(s);
    }

    /** Extends a register by a buffer that starts at `address`. */
    method Extend(crc: Word, data: seq<Byte>, address: nat, needAlignedLoads: bool, horizon: nat) returns (l: Word)
      requires Valid() && horizon >= 64
      ensures l == Absorb(poly, crc, data)
    {
      hide Absorb;
      l := crc;
      var i := 0;
      assert data[0..] == data;
      if needAlignedLoads {
        var x := (address + 3) / 4 * 4 - address;
        if x <= |data| {
          l := StepBytes(l, data, 0, x);
          i := x;
        }
      }
      if |data| - i >= 16 {
        l, i := ExtendSwath(l, data, i, horizon);
      }
      l := StepBytes(l, data, i, |data|);
      assert data[|data|..] == [];
      AbsorbNothing(poly, l);
    }

    method ExtendByZeroes(crc: Word, length: Size) returns (l: Word, ghost rounds: nat)
      requires Valid()
      ensures l == Shift(poly, crc, 8 * length)
      ensures rounds == Digits16(length)
    {
      l, rounds := ExtendByZeroesImpl(crc, length, zeroes, table0, poly);
    }

    method UnextendByZeroes(crc: Word, length: Size) returns (l: Word, ghost rounds: nat)
      requires Valid()
      ensures l == Unshift(poly, crc, 8 * length)
      ensures rounds == Digits16(length)
    {
      hide Shift, Unshift, ReverseBits;
      l := ReverseBits(crc);
      ReverseBitsIsReverse(crc);
      l, rounds := ExtendByZeroesImpl(l, length, reverseZeroes, reverseTable0, Dual(poly));
      UnshiftIsReversedShift(poly, crc, 8 * length);
      ReverseBitsIsReverse(l);
      l := ReverseBits(l);
      ReverseTwice(Unshift(poly, crc, 8 * length));
    }
  }

  lemma ReverseTwice(b: Bits)
    ensures Reverse(Reverse(b)) == b
  {
  }

  /** Four interleaved registers, oldest first. */
  datatype Swath = Swath(b0: Word, b1: Word, b2: Word, b3: Word)
  {
    ghost function Whole(p: Word): Word {
      Combined(p, b0, b1, b2, b3)
    }
  }

  lemma LastEntry(p: Word)
    ensures Shift(p, p, 8 * 12) == Entry(p, 3 * |p| + 8, 128)
  {
    TopBitEntry(p);
    ShiftAdd(p, Unpack(128, |p|), 8, 8 * 12);
  }

  lemma DualByReverseBits(p: Word)
    ensures ReverseBits(Xor(ShiftLeft(p, 1), Unit(31))) == Dual(p)
  {
    ReverseBitsIsReverse(Xor(ShiftLeft(p, 1), Unit(31)));
  }
}
