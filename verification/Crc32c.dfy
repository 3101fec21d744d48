/** The public CRC32C functions, over the table-driven engine. */
module Crc32c {
  import opened Bits
  import opened Gf2
  import opened Crc
  import opened CrcEngine

  /** The Castagnoli polynomial 0x11EDC6F41, reflected and without its top term:
      0x82f63b78, low byte first. */
  const POLY: Word := Unpack(0x78, 8) + Unpack(0x3b, 8) + Unpack(0xf6, 8) + Unpack(0x82, 8)

  /** `kCRC32Xor`: the mask put on the register before and after. */
  function Mask(): (m: Word)
    ensures forall i :: 0 <= i < 32 ==> m[i]
  {
    Ones(32)
  }

  /** The CRC32C of a buffer. */
  ghost function Checksum(s: seq<Byte>): Word {
    Xor(Absorb(POLY, Mask(), s), Mask())
  }

  /** The value for a buffer with value `c` followed by `s`. */
  ghost function Extended(c: Word, s: seq<Byte>): Word {
    Xor(Absorb(POLY, Xor(c, Mask()), s), Mask())
  }

  /** The sum that `ConcatCrc32c` computes from two masked values. */
  ghost function Joined(a: Word, b: Word, n: nat): Word {
    Xor(Shift(POLY, a, 8 * n), b)
  }

  lemma PolyConstantTerm()
    ensures POLY[31]
  {
    assert Unpack(0x82, 8)[7];
  }

  // ------------------------------------------------------------------------
  // What the sums mean
  // ------------------------------------------------------------------------

  lemma MaskTwice(a: Word)
    ensures Xor(Xor(a, Mask()), Mask()) == a
  {
  }

  lemma ExtendedZero(s: seq<Byte>)
    ensures Extended(Zeros(32), s) == Checksum(s)
  {
    hide Absorb;
    assert Xor(Zeros(32), Mask()) == Mask();
  }

  lemma ExtendedChecksum(a: seq<Byte>, b: seq<Byte>)
    ensures Extended(Checksum(a), b) == Checksum(a + b)
  {
    hide Absorb;
    MaskTwice(Absorb(POLY, Mask(), a));
    AbsorbConcat(POLY, Mask(), a, b);
  }

  /** Joining is extension: the mask of `a` shifts along with the register and
      cancels against the mask that `b` started from. */
  lemma JoinedIsExtended(a: Word, b: seq<Byte>)
    ensures Joined(a, Checksum(b), |b|) == Extended(a, b)
  {
    hide Absorb, Shift;
    AbsorbAffine(POLY, a, Mask(), b);
    XorAssoc(Shift(POLY, a, 8 * |b|), Absorb(POLY, Mask(), b), Mask());
  }

  lemma JoinedChecksums(a: seq<Byte>, b: seq<Byte>)
    ensures Joined(Checksum(a), Checksum(b), |b|) == Checksum(a + b)
  {
    hide Extended, Checksum, Joined;
    JoinedIsExtended(Checksum(a), b);
    ExtendedChecksum(a, b);
  }

  lemma JoinedCancels(a: Word, b: Word, n: nat)
    ensures Xor(Shift(POLY, a, 8 * n), Joined(a, b, n)) == b
    ensures Xor(Joined(a, b, n), b) == Shift(POLY, a, 8 * n)
  {
    hide Shift;
  }

  /** Removing the prefix undoes concatenation, for all values and lengths. */
  lemma RemovePrefixUndoesConcat(a: Word, b: Word, n: nat)
    ensures Joined(a, Joined(a, b, n), n) == b
  {
    hide Shift;
    JoinedCancels(a, b, n);
  }

  /** Removing the suffix undoes concatenation, for all values and lengths. */
  lemma RemoveSuffixUndoesConcat(a: Word, b: Word, n: nat)
    ensures Unshift(POLY, Xor(Joined(a, b, n), b), 8 * n) == a
  {
    hide Shift, Unshift;
    PolyConstantTerm();
    JoinedCancels(a, b, n);
    UnshiftShift(POLY, a, 8 * n);
  }

  // ------------------------------------------------------------------------
  // The functions
  // ------------------------------------------------------------------------

  type Horizon = n: nat | n >= 64 witness 64

  /** What differs between targets: hardware CRC instructions, whether word
      loads must be aligned, and how far ahead the engine prefetches. */
  datatype Platform = Platform(hardware: bool, needAlignedLoads: bool, horizon: Horizon)

  /** `CrcEngine`: the engine that all functions use, made anew by each. */
  method NewEngine() returns (engine: CRC32)
    ensures fresh(engine) && engine.Valid() && engine.poly == POLY
  {
    PolyConstantTerm();
    engine := new CRC32.InitTables(POLY);
  }

  /** Small buffers through 1-, 2-, 4- and 8-byte CRC instructions. Returns
      false, and no value, on targets without them. */
  method ExtendCrc32cInline(crc: Word, buf: seq<Byte>, on: Platform) returns (done: bool, r: Word)
    ensures done == on.hardware
    ensures done ==> r == Extended(crc, buf)
  {
    hide Absorb, Shift;
    done, r := on.hardware, crc;
    if !done {
      return;
    }
    var l, i;
    ghost var words;
    l, i, words := InlineHead(Xor(crc, Mask()), buf);
    var n: nat := |buf| - i;
    while n != 0
      invariant i + n == |buf| && n == 8 * words
      invariant Absorb(POLY, l, buf[i..]) == Absorb(POLY, Xor(crc, Mask()), buf)
    {
      l, i, n := Instruction(l, buf, i, 8), i + 8, n - 8;
      words := words - 1;
    }
    assert buf[i..] == [];
    AbsorbNothing(POLY, l);
    r := Xor(l, Mask());
  }

  /** The odd 1-, 2- and 4-byte pieces at the front. */
  method InlineHead(l0: Word, buf: seq<Byte>) returns (l: Word, i: nat, ghost words: nat)
    ensures i + 8 * words == |buf|
    ensures Absorb(POLY, l, buf[i..]) == Absorb(POLY, l0, buf)
  {
    hide Absorb;
    var bit1 := |buf| / 2;
    var bit2 := bit1 / 2;
    assert |buf| == 2 * bit1 + |buf| % 2 && bit1 == 2 * bit2 + bit1 % 2 && bit2 == 2 * (bit2 / 2) + bit2 % 2;
    l, i := l0, 0;
    assert buf[0..] == buf;
    if |buf| % 2 == 1 {
      l, i := Instruction(l, buf, i, 1), i + 1;
    }
    if bit1 % 2 == 1 {
      l, i := Instruction(l, buf, i, 2), i + 2;
    }
    if bit2 % 2 == 1 {
      l, i := Instruction(l, buf, i, 4), i + 4;
    }
    words := bit2 / 2;
  }

  /** A CRC instruction on `n` little-endian bytes, by its definition. */
  function Instruction(l: Word, buf: seq<Byte>, i: nat, n: nat): (r: Word)
    requires i + n <= |buf|
    ensures Absorb(POLY, r, buf[i + n..]) == Absorb(POLY, l, buf[i..])
  {
    hide Absorb;
    AbsorbConcat(POLY, l, buf[i..i + n], buf[i + n..]);
    assert buf[i..] == buf[i..i + n] + buf[i + n..];
    Absorb(POLY, l, buf[i..i + n])
  }

  method ExtendCrc32cInternal(initial: Word, buf: seq<Byte>, address: nat, on: Platform)
    returns (r: Word)
    ensures r == Extended(initial, buf)
  {
    var engine := NewEngine();
    var crc := Xor(initial, Mask());
    crc := engine.Extend(crc, buf, address, on.needAlignedLoads, on.horizon);
    r := Xor(crc, Mask());
  }

  method ExtendCrc32c(initial: Word, buf: seq<Byte>, address: nat, on: Platform) returns (r: Word)
    ensures r == Extended(initial, buf)
    ensures forall a :: initial == Checksum(a) ==> r == Checksum(a + buf)
  {
    hide Extended, Checksum;
    forall a | initial == Checksum(a) ensures Extended(initial, buf) == Checksum(a + buf) {
      ExtendedChecksum(a, buf);
    }
    if |buf| <= 64 {
      var done;
      done, r := ExtendCrc32cInline(initial, buf, on);
      if done {
        return;
      }
    }
    r := ExtendCrc32cInternal(initial, buf, address, on);
  }

  method ComputeCrc32c(buf: seq<Byte>, address: nat, on: Platform) returns (r: Word)
    ensures r == Checksum(buf)
  {
    r := ExtendCrc32c(Zeros(32), buf, address, on);
    ExtendedZero(buf);
  }

  method ExtendCrc32cByZeroes(initial: Word, length: Size) returns (r: Word, ghost rounds: nat)
    ensures r == Extended(initial, ZeroBytes(length))
    ensures forall a :: initial == Checksum(a) ==> r == Checksum(a + ZeroBytes(length))
    ensures rounds == Digits16(length)
  {
    hide Checksum, Absorb, Shift;
    var engine := NewEngine();
    var crc := Xor(initial, Mask());
    crc, rounds := engine.ExtendByZeroes(crc, length);
    AbsorbZeroBytes(POLY, Xor(initial, Mask()), length);
    r := Xor(crc, Mask());
    forall a | initial == Checksum(a) ensures Extended(initial, ZeroBytes(length)) == Checksum(a + ZeroBytes(length)) {
      ExtendedChecksum(a, ZeroBytes(length));
    }
  }

  /** Recovers the one value that extends to `initial` by `length` zero bytes. */
  method UnextendCrc32cByZeroes(initial: Word, length: Size) returns (r: Word, ghost rounds: nat)
    ensures forall c: Word :: initial == Extended(c, ZeroBytes(length)) <==> r == c
    ensures rounds == Digits16(length)
  {
    hide Absorb, Shift, Unshift;
    var engine := NewEngine();
    var crc := Xor(initial, Mask());
    crc, rounds := engine.UnextendByZeroes(crc, length);
    r := Xor(crc, Mask());
    forall c: Word ensures initial == Extended(c, ZeroBytes(length)) <==> r == c {
      UnextendUnique(initial, c, length);
    }
  }

  lemma UnextendUnique(initial: Word, c: Word, length: nat)
    ensures initial == Extended(c, ZeroBytes(length))
       <==> c == Xor(Unshift(POLY, Xor(initial, Mask()), 8 * length), Mask())
  {
    hide Absorb, Shift, Unshift;
    PolyConstantTerm();
    AbsorbZeroBytes(POLY, Xor(c, Mask()), length);
    UnshiftShift(POLY, Xor(c, Mask()), 8 * length);
    ShiftUnshift(POLY, Xor(initial, Mask()), 8 * length);
    MaskTwice(c);
    MaskTwice(initial);
    MaskTwice(Unshift(POLY, Xor(initial, Mask()), 8 * length));
    MaskTwice(Shift(POLY, Xor(c, Mask()), 8 * length));
  }

  method ConcatCrc32c(lhs: Word, rhs: Word, rhsLen: Size) returns (r: Word, ghost rounds: nat)
    ensures r == Joined(lhs, rhs, rhsLen)
    ensures forall a, b :: lhs == Checksum(a) && rhs == Checksum(b) && rhsLen == |b| ==> r == Checksum(a + b)
    ensures rounds == Digits16(rhsLen)
  {
    hide Checksum;
    var engine := NewEngine();
    var result := lhs;
    result, rounds := engine.ExtendByZeroes(result, rhsLen);
    r := Xor(result, rhs);
    forall a, b | lhs == Checksum(a) && rhs == Checksum(b) && rhsLen == |b| ensures Joined(lhs, rhs, rhsLen) == Checksum(a + b) {
      JoinedChecksums(a, b);
    }
  }

  method RemoveCrc32cPrefix(crcA: Word, crcAB: Word, lengthB: Size) returns (r: Word, ghost rounds: nat)
    ensures forall b: Word :: crcAB == Joined(crcA, b, lengthB) <==> r == b
    ensures forall a, b :: crcA == Checksum(a) && crcAB == Checksum(a + b) && lengthB == |b| ==> r == Checksum(b)
    ensures rounds == Digits16(lengthB)
  {
    hide Checksum, Shift;
    r, rounds := ConcatCrc32c(crcA, crcAB, lengthB);
    forall b: Word ensures crcAB == Joined(crcA, b, lengthB) <==> r == b {
      RemovePrefixUndoesConcat(crcA, b, lengthB);
      RemovePrefixUndoesConcat(crcA, crcAB, lengthB);
    }
    forall a, b | crcA == Checksum(a) && crcAB == Checksum(a + b) && lengthB == |b| ensures r == Checksum(b) {
      JoinedChecksums(a, b);
    }
  }

  method RemoveCrc32cSuffix(full: Word, suffix: Word, suffixLen: Size) returns (r: Word, ghost rounds: nat)
    ensures forall a: Word :: full == Joined(a, suffix, suffixLen) <==> r == a
    ensures forall a, b :: full == Checksum(a + b) && suffix == Checksum(b) && suffixLen == |b| ==> r == Checksum(a)
    ensures rounds == Digits16(suffixLen)
  {
    hide Checksum, Shift, Unshift;
    var engine := NewEngine();
    var result := Xor(full, suffix);
    result, rounds := engine.UnextendByZeroes(result, suffixLen);
    r := result;
    PolyConstantTerm();
    forall a: Word ensures full == Joined(a, suffix, suffixLen) <==> r == a {
      RemoveSuffixUndoesConcat(a, suffix, suffixLen);
      ShiftUnshift(POLY, Xor(full, suffix), 8 * suffixLen);
      assert Xor(Xor(full, suffix), suffix) == full;
    }
    forall a, b | full == Checksum(a + b) && suffix == Checksum(b) && suffixLen == |b| ensures r == Checksum(a) {
      JoinedChecksums(a, b);
    }
  }
}
