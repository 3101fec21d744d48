/** Machine words as sequences of bits, least significant bit first. */
module Bits {

  type Bits = seq<bool>

  /** A `uint32_t`. */
  type Word = w: Bits | |w| == 32 witness Unpack(0, 32)

  /** A 64-bit `size_t`. */
  type Size = n: nat | n < 0x1_0000_0000_0000_0000

  /** One character of a buffer. */
  type Byte = b: Bits | |b| == 8 witness Unpack(0, 8)

  /** The low `width` bits of `v`. */
  function Unpack(v: nat, width: nat): (b: Bits)
    ensures |b| == width
    decreases width
  {
    if width == 0 then [] else [v % 2 == 1] + Unpack(v / 2, width - 1)
  }

  /** The number a bit pattern stands for. */
  function Value(b: Bits): nat {
    if b == [] then 0 else (if b[0] then 1 else 0) + 2 * Value(b[1..])
  }

  function Zeros(n: nat): (b: Bits)
    ensures |b| == n && forall i :: 0 <= i < n ==> !b[i]
  {
    seq(n, i => false)
  }

  function Ones(n: nat): (b: Bits)
    ensures |b| == n && forall i :: 0 <= i < n ==> b[i]
  {
    seq(n, i => true)
  }

  function Xor(a: Bits, b: Bits): (c: Bits)
    requires |a| == |b|
    ensures |c| == |a| && forall i :: 0 <= i < |a| ==> c[i] == (a[i] != b[i])
  {
    seq(|a|, i requires 0 <= i < |a| => a[i] != b[i])
  }

  /** `b` where the flag is set, zero elsewhere. */
  function Select(flag: bool, b: Bits): (c: Bits)
    ensures |c| == |b|
  {
    if flag then b else Zeros(|b|)
  }

  /** Shift toward the low end, filling with zeros. */
  function ShiftRight(b: Bits, n: nat): (c: Bits)
    requires n <= |b|
    ensures |c| == |b|
  {
    b[n..] + Zeros(n)
  }

  /** Shift toward the high end, dropping what leaves the word. */
  function ShiftLeft(b: Bits, n: nat): (c: Bits)
    requires n <= |b|
    ensures |c| == |b|
  {
    Zeros(n) + b[..|b| - n]
  }

  /** Zero extension to a wider word. */
  function Widen(b: Bits, width: nat): (c: Bits)
    requires |b| <= width
    ensures |c| == width
  {
    b + Zeros(width - |b|)
  }

  function Pow2(n: nat): (v: nat)
    ensures v > 0
  {
    if n == 0 then 1 else 2 * Pow2(n - 1)
  }

  lemma {:induction false} ValueBound(b: Bits)
    ensures Value(b) < Pow2(|b|)
    decreases |b|
  {
    if b != [] {
      ValueBound(b[1..]);
    }
  }

  /** Reading a pattern as a number and back is zero extension. */
  lemma {:induction false} UnpackValue(b: Bits, width: nat)
    requires |b| <= width
    ensures Unpack(Value(b), width) == Widen(b, width)
    decreases |b|
  {
    if b == [] {
      UnpackZero(width);
    } else {
      UnpackValue(b[1..], width - 1);
      assert Value(b) / 2 == Value(b[1..]) && (Value(b) % 2 == 1) == b[0];
    }
  }

  /** Adding a power of two above every set bit sets exactly that bit. */
  lemma {:induction false} UnpackTop(v: nat, e: nat, width: nat)
    requires e < width && v < Pow2(e)
    ensures Unpack(Pow2(e) + v, width) == Xor(Unpack(Pow2(e), width), Unpack(v, width))
    ensures Unpack(Pow2(e), width) == Zeros(width)[e := true]
    decreases width
  {
    UnpackZero(width - 1);
    if e > 0 {
      UnpackTop(v / 2, e - 1, width - 1);
      HalfSum(v, e);
    } else {
      assert v == 0 && Pow2(0) == 1;
    }
  }

  lemma HalfSum(v: nat, e: nat)
    requires e > 0
    ensures (Pow2(e) + v) / 2 == Pow2(e) / 2 + v / 2 && (Pow2(e) + v) % 2 == v % 2
    ensures Pow2(e) / 2 == Pow2(e - 1) && Pow2(e) % 2 == 0
  {
  }

  lemma {:induction false} UnpackZero(width: nat)
    ensures Unpack(0, width) == Zeros(width)
  {
    if width > 0 {
      UnpackZero(width - 1);
    }
  }
}
