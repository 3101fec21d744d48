/** The bit-serial definition of a cyclic redundancy check and its algebra.

    `Feed` is the shift register of section 12.1 of RFC 3720: each message bit,
    low bit of each byte first, is added to the bottom of the register and the
    register is advanced by one step. The byte-wise and word-wise forms used by
    real engines are derived from it here. */
module Crc {
  import opened Bits
  import opened Gf2

  function Feed(p: Word, r: Word, w: Bits): Word
    decreases |w|
  {
    if w == [] then r else Feed(p, Step(p, Xor(r, Widen([w[0]], 32))), w[1..])
  }

  /** The bits of a buffer in transmission order. */
  function Flatten(s: seq<Byte>): (w: Bits)
    ensures |w| == 8 * |s|
  {
    if s == [] then [] else s[0] + Flatten(s[1..])
  }

  /** The register after a whole buffer. */
  function Absorb(p: Word, r: Word, s: seq<Byte>): Word {
    Feed(p, r, Flatten(s))
  }

  function ZeroBytes(n: nat): (s: seq<Byte>)
    ensures |s| == n
  {
    if n == 0 then [] else [Zeros(8)] + ZeroBytes(n - 1)
  }

  // ------------------------------------------------------------------------
  // Feeding bits
  // ------------------------------------------------------------------------

  lemma {:induction false} FeedConcat(p: Word, r: Word, v: Bits, w: Bits)
    ensures Feed(p, r, v + w) == Feed(p, Feed(p, r, v), w)
    decreases |v|
  {
    if v == [] {
      assert v + w == w;
    } else {
      assert (v + w)[1..] == v[1..] + w;
      FeedConcat(p, Step(p, Xor(r, Widen([v[0]], 32))), v[1..], w);
    }
  }

  /** Up to 32 bits may be added at once before shifting. */
  lemma {:induction false} FeedAtOnce(p: Word, r: Word, w: Bits)
    requires |w| <= 32
    ensures Feed(p, r, w) == Shift(p, Xor(r, Widen(w, 32)), |w|)
    decreases |w|
  {
    if w == [] {
      assert Xor(r, Widen(w, 32)) == r;
    } else {
      var first := Xor(r, Widen([w[0]], 32));
      FeedAtOnce(p, Step(p, first), w[1..]);
      SplitFirst(p, r, w);
    }
  }

  lemma SplitFirst(p: Word, r: Word, w: Bits)
    requires 0 < |w| <= 32
    ensures Step(p, Xor(r, Widen(w, 32))) == Xor(Step(p, Xor(r, Widen([w[0]], 32))), Widen(w[1..], 32))
  {
    assert Xor(r, Widen(w, 32))[0] == Xor(r, Widen([w[0]], 32))[0];
  }

  /** The register enters the result only through a shift. */
  lemma {:induction false} FeedAffine(p: Word, a: Word, b: Word, w: Bits)
    ensures Feed(p, Xor(a, b), w) == Xor(Shift(p, a, |w|), Feed(p, b, w))
    decreases |w|
  {
    if w != [] {
      var bit := Widen([w[0]], 32);
      assert Xor(Xor(a, b), bit) == Xor(a, Xor(b, bit));
      StepXor(p, a, Xor(b, bit));
      FeedAffine(p, Step(p, a), Step(p, Xor(b, bit)), w[1..]);
    }
  }

  // ------------------------------------------------------------------------
  // Feeding bytes
  // ------------------------------------------------------------------------

  lemma {:induction false} FlattenConcat(a: seq<Byte>, b: seq<Byte>)
    ensures Flatten(a + b) == Flatten(a) + Flatten(b)
  {
    if a == [] {
      assert a + b == b;
    } else {
      assert (a + b)[1..] == a[1..] + b;
      FlattenConcat(a[1..], b);
    }
  }

  lemma AbsorbConcat(p: Word, r: Word, a: seq<Byte>, b: seq<Byte>)
    ensures Absorb(p, r, a + b) == Absorb(p, Absorb(p, r, a), b)
  {
    FlattenConcat(a, b);
    FeedConcat(p, r, Flatten(a), Flatten(b));
  }

  lemma AbsorbAffine(p: Word, a: Word, b: Word, s: seq<Byte>)
    ensures Absorb(p, Xor(a, b), s) == Xor(Shift(p, a, 8 * |s|), Absorb(p, b, s))
  {
    FeedAffine(p, a, b, Flatten(s));
  }

  /** One byte is one eight-place shift. */
  lemma AbsorbByte(p: Word, r: Word, s: seq<Byte>)
    requires s != []
    ensures Absorb(p, r, s) == Absorb(p, Shift(p, Xor(r, Widen(s[0], 32)), 8), s[1..])
  {
    FeedConcat(p, r, s[0], Flatten(s[1..]));
    FeedAtOnce(p, r, s[0]);
  }

  /** Four bytes read as one little-endian word are one 32-place shift. */
  lemma AbsorbWord(p: Word, r: Word, s: seq<Byte>)
    requires |s| >= 4
    ensures |Flatten(s[..4])| == 32
    ensures Absorb(p, r, s) == Absorb(p, Shift(p, Xor(r, Flatten(s[..4])), |p|), s[4..])
  {
    assert s == s[..4] + s[4..];
    AbsorbConcat(p, r, s[..4], s[4..]);
    FeedAtOnce(p, r, Flatten(s[..4]));
    assert Widen(Flatten(s[..4]), 32) == Flatten(s[..4]);
  }

  lemma AbsorbNothing(p: Word, r: Word)
    ensures Absorb(p, r, []) == r
  {
  }

  lemma AddZero(r: Word)
    ensures Xor(r, Widen(Zeros(8), 32)) == r
  {
  }

  /** Zero bytes only shift the register. */
  lemma {:induction false} AbsorbZeroBytes(p: Word, r: Word, n: nat)
    ensures Absorb(p, r, ZeroBytes(n)) == Shift(p, r, 8 * n)
    decreases n
  {
    hide Absorb;
    if n == 0 {
      AbsorbNothing(p, r);
    } else {
      hide Shift;
      AbsorbByte(p, r, ZeroBytes(n));
      AddZero(r);
      AbsorbZeroBytes(p, Shift(p, r, 8), n - 1);
      ShiftAdd(p, r, 8, 8 * (n - 1));
    }
  }

  // ------------------------------------------------------------------------
  // Going backwards
  // ------------------------------------------------------------------------

  /** The inverse of `Step` when the generator has a constant term. */
  function Unstep(p: Word, r: Word): Word {
    if r[31] then [true] + Xor(r, p)[..31] else [false] + r[..31]
  }

  function Unshift(p: Word, r: Word, n: nat): Word
    decreases n
  {
    if n == 0 then r else Unshift(p, Unstep(p, r), n - 1)
  }

  lemma UnstepStep(p: Word, r: Word)
    requires p[31]
    ensures Unstep(p, Step(p, r)) == r
  {
    var s := Step(p, r);
    assert s[31] == r[0];
    assert forall i :: 0 <= i < 31 ==> s[i] == (if r[0] then r[i + 1] != p[i] else r[i + 1]);
  }

  lemma StepUnstep(p: Word, r: Word)
    requires p[31]
    ensures Step(p, Unstep(p, r)) == r
  {
    var u := Unstep(p, r);
    assert u[0] == r[31];
    assert forall i :: 1 <= i < 32 ==> u[i] == (if r[31] then r[i - 1] != p[i - 1] else r[i - 1]);
  }

  lemma {:induction false} UnshiftShift(p: Word, r: Word, n: nat)
    requires p[31]
    ensures Unshift(p, Shift(p, r, n), n) == r
    decreases n
  {
    hide Step, Unstep;
    if n > 0 {
      StepShift(p, r, n - 1);
      UnstepStep(p, Shift(p, r, n - 1));
      UnshiftShift(p, r, n - 1);
    }
  }

  lemma {:induction false} ShiftUnshift(p: Word, r: Word, n: nat)
    requires p[31]
    ensures Shift(p, Unshift(p, r, n), n) == r
    decreases n
  {
    hide Step, Unstep;
    if n > 0 {
      ShiftUnshift(p, Unstep(p, r), n - 1);
      StepShift(p, Unshift(p, Unstep(p, r), n - 1), n - 1);
      StepUnstep(p, r);
    }
  }

  function Reverse(b: Bits): (c: Bits)
    ensures |c| == |b| && forall i :: 0 <= i < |b| ==> c[i] == b[|b| - 1 - i]
  {
    seq(|b|, i requires 0 <= i < |b| => b[|b| - 1 - i])
  }

  /** The generator of the reversed register: `(p << 1) ^ 1`, bits reversed. */
  function Dual(p: Word): Word {
    Reverse(Xor(ShiftLeft(p, 1), Unit(31)))
  }

  lemma DualBits(p: Word)
    ensures forall i :: 0 <= i < 31 ==> Dual(p)[i] == p[30 - i]
    ensures Dual(p)[31]
  {
    var q := Xor(ShiftLeft(p, 1), Unit(31));
    assert q[0] && forall i :: 1 <= i < 32 ==> q[i] == p[i - 1];
  }

  lemma UnstepIsReversedStep(p: Word, r: Word)
    requires p[31]
    ensures Step(Dual(p), Reverse(r)) == Reverse(Unstep(p, r))
  {
    DualBits(p);
    var back, forth := Reverse(Unstep(p, r)), Step(Dual(p), Reverse(r));
    forall i | 0 <= i < 32 ensures forth[i] == back[i] {
      assert back[i] == Unstep(p, r)[31 - i];
    }
  }

  /** Shifting backwards is shifting the reversed register forwards. */
  lemma {:induction false} UnshiftIsReversedShift(p: Word, r: Word, n: nat)
    requires p[31]
    ensures Shift(Dual(p), Reverse(r), n) == Reverse(Unshift(p, r, n))
    decreases n
  {
    if n > 0 {
      UnstepIsReversedStep(p, r);
      UnshiftIsReversedShift(p, Unstep(p, r), n - 1);
    }
  }
}
