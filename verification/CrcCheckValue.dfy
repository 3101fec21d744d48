/** CRC32C of a known string, computed from the definition. Here words are machine
    words, which the verifier can calculate with. */
module CrcCheckValue {
  import opened Bits
  import opened Gf2
  import opened Crc
  import opened BitReverse
  import opened Crc32c

  /** The word has the bits of `w`, least significant first. */
  predicate Spells(r: Word, w: bv32) {
    && r[0] == (w & 0x1 != 0) && r[1] == (w & 0x2 != 0) && r[2] == (w & 0x4 != 0) && r[3] == (w & 0x8 != 0)
    && r[4] == (w & 0x10 != 0) && r[5] == (w & 0x20 != 0) && r[6] == (w & 0x40 != 0) && r[7] == (w & 0x80 != 0)
    && r[8] == (w & 0x100 != 0) && r[9] == (w & 0x200 != 0) && r[10] == (w & 0x400 != 0) && r[11] == (w & 0x800 != 0)
    && r[12] == (w & 0x1000 != 0) && r[13] == (w & 0x2000 != 0)
    && r[14] == (w & 0x4000 != 0) && r[15] == (w & 0x8000 != 0)
    && r[16] == (w & 0x10000 != 0) && r[17] == (w & 0x20000 != 0)
    && r[18] == (w & 0x40000 != 0) && r[19] == (w & 0x80000 != 0)
    && r[20] == (w & 0x100000 != 0) && r[21] == (w & 0x200000 != 0)
    && r[22] == (w & 0x400000 != 0) && r[23] == (w & 0x800000 != 0)
    && r[24] == (w & 0x1000000 != 0) && r[25] == (w & 0x2000000 != 0)
    && r[26] == (w & 0x4000000 != 0) && r[27] == (w & 0x8000000 != 0)
    && r[28] == (w & 0x10000000 != 0) && r[29] == (w & 0x20000000 != 0)
    && r[30] == (w & 0x40000000 != 0) && r[31] == (w & 0x80000000 != 0)
  }

  /** One step of the register. */
  function Stepped(p: bv32, w: bv32): bv32 {
    if w & 1 == 1 then (w >> 1) ^ p else w >> 1
  }

  /** The register after one byte. */
  function Fed(p: bv32, w: bv32, b: bv32): bv32 {
    var w4 := Stepped(p, Stepped(p, Stepped(p, Stepped(p, w ^ b))));
    Stepped(p, Stepped(p, Stepped(p, Stepped(p, w4))))
  }

  /** Bit `k` after one step. */
  lemma StepBit(p: Word, r: Word, k: nat)
    requires k < 32
    ensures Step(p, r)[k] == if k < 31 then r[k + 1] != (r[0] && p[k]) else r[0] && p[k]
  {
  }

  lemma StepSpells(p: Word, r: Word, q: bv32, w: bv32)
    requires Spells(p, q) && Spells(r, w)
    ensures Spells(Step(p, r), Stepped(q, w))
  {
    hide Step;
    StepBit(p, r, 0); StepBit(p, r, 1); StepBit(p, r, 2); StepBit(p, r, 3); StepBit(p, r, 4); StepBit(p, r, 5);
    StepBit(p, r, 6); StepBit(p, r, 7); StepBit(p, r, 8); StepBit(p, r, 9); StepBit(p, r, 10); StepBit(p, r, 11);
    StepBit(p, r, 12); StepBit(p, r, 13); StepBit(p, r, 14); StepBit(p, r, 15); StepBit(p, r, 16); StepBit(p, r, 17);
    StepBit(p, r, 18); StepBit(p, r, 19); StepBit(p, r, 20); StepBit(p, r, 21); StepBit(p, r, 22); StepBit(p, r, 23);
    StepBit(p, r, 24); StepBit(p, r, 25); StepBit(p, r, 26); StepBit(p, r, 27); StepBit(p, r, 28); StepBit(p, r, 29);
    StepBit(p, r, 30); StepBit(p, r, 31);
  }

  predicate IsXor(t: Word, r: Word, s: Word) {
    && t[0] == (r[0] != s[0]) && t[1] == (r[1] != s[1]) && t[2] == (r[2] != s[2]) && t[3] == (r[3] != s[3])
    && t[4] == (r[4] != s[4]) && t[5] == (r[5] != s[5]) && t[6] == (r[6] != s[6]) && t[7] == (r[7] != s[7])
    && t[8] == (r[8] != s[8]) && t[9] == (r[9] != s[9]) && t[10] == (r[10] != s[10]) && t[11] == (r[11] != s[11])
    && t[12] == (r[12] != s[12]) && t[13] == (r[13] != s[13]) && t[14] == (r[14] != s[14]) && t[15] == (r[15] != s[15])
    && t[16] == (r[16] != s[16]) && t[17] == (r[17] != s[17]) && t[18] == (r[18] != s[18]) && t[19] == (r[19] != s[19])
    && t[20] == (r[20] != s[20]) && t[21] == (r[21] != s[21]) && t[22] == (r[22] != s[22]) && t[23] == (r[23] != s[23])
    && t[24] == (r[24] != s[24]) && t[25] == (r[25] != s[25]) && t[26] == (r[26] != s[26]) && t[27] == (r[27] != s[27])
    && t[28] == (r[28] != s[28]) && t[29] == (r[29] != s[29]) && t[30] == (r[30] != s[30]) && t[31] == (r[31] != s[31])
  }

  lemma XorBits(r: Word, s: Word)
    ensures IsXor(Xor(r, s), r, s)
  {
  }

  lemma XorSpells(t: Word, r: Word, s: Word, v: bv32, w: bv32)
    requires Spells(r, v) && Spells(s, w) && IsXor(t, r, s)
    ensures Spells(t, v ^ w)
  {
    XorBit(v, w, 0x1); XorBit(v, w, 0x2); XorBit(v, w, 0x4); XorBit(v, w, 0x8);
    XorBit(v, w, 0x10); XorBit(v, w, 0x20); XorBit(v, w, 0x40); XorBit(v, w, 0x80);
    XorBit(v, w, 0x100); XorBit(v, w, 0x200); XorBit(v, w, 0x400); XorBit(v, w, 0x800);
    XorBit(v, w, 0x1000); XorBit(v, w, 0x2000); XorBit(v, w, 0x4000); XorBit(v, w, 0x8000);
    XorBit(v, w, 0x10000); XorBit(v, w, 0x20000); XorBit(v, w, 0x40000); XorBit(v, w, 0x80000);
    XorBit(v, w, 0x100000); XorBit(v, w, 0x200000); XorBit(v, w, 0x400000); XorBit(v, w, 0x800000);
    XorBit(v, w, 0x1000000); XorBit(v, w, 0x2000000); XorBit(v, w, 0x4000000); XorBit(v, w, 0x8000000);
    XorBit(v, w, 0x10000000); XorBit(v, w, 0x20000000); XorBit(v, w, 0x40000000); XorBit(v, w, 0x80000000);
  }

  lemma XorBit(v: bv32, w: bv32, m: bv32)
    requires m != 0 && m & (m - 1) == 0
    ensures ((v ^ w) & m != 0) == ((v & m != 0) != (w & m != 0))
  {
  }

  /** The byte has the bits of `c`. */
  predicate SpellsByte(b: Byte, c: bv32) {
    && c & 0xffffff00 == 0
    && b[0] == (c & 0x1 != 0) && b[1] == (c & 0x2 != 0) && b[2] == (c & 0x4 != 0) && b[3] == (c & 0x8 != 0)
    && b[4] == (c & 0x10 != 0) && b[5] == (c & 0x20 != 0) && b[6] == (c & 0x40 != 0) && b[7] == (c & 0x80 != 0)
  }

  lemma WidenSpells(b: Byte, c: bv32)
    requires SpellsByte(b, c)
    ensures Spells(Widen(b, 32), c)
  {
  }

  lemma FourSteps(p: Word, r: Word, q: bv32, w: bv32)
    requires Spells(p, q) && Spells(r, w)
    ensures Spells(Shift(p, r, 4), Stepped(q, Stepped(q, Stepped(q, Stepped(q, w)))))
  {
    hide Step, Stepped, Spells, Shift;
    var r1, w1 := Step(p, r), Stepped(q, w);
    var r2, w2 := Step(p, r1), Stepped(q, w1);
    var r3, w3 := Step(p, r2), Stepped(q, w2);
    StepSpells(p, r, q, w);
    StepSpells(p, r1, q, w1);
    StepSpells(p, r2, q, w2);
    StepSpells(p, r3, q, w3);
    ShiftFirst(p, r, 4);
    ShiftFirst(p, r1, 3);
    ShiftFirst(p, r2, 2);
    ShiftFirst(p, r3, 1);
    ShiftNone(p, Step(p, r3));
  }

  lemma ShiftFirst(p: Word, r: Word, n: nat)
    requires n > 0
    ensures Shift(p, r, n) == Shift(p, Step(p, r), n - 1)
  {
  }

  lemma ShiftNone(p: Word, r: Word)
    ensures Shift(p, r, 0) == r
  {
  }

  /** What one byte does to the register. */
  lemma FedSpells(r: Word, w: bv32, b: Byte, c: bv32, rest: seq<Byte>) returns (r': Word)
    requires Spells(POLY, 0x82f63b78) && Spells(r, w) && SpellsByte(b, c)
    ensures Absorb(POLY, r, [b] + rest) == Absorb(POLY, r', rest)
    ensures Spells(r', Fed(0x82f63b78, w, c))
  {
    hide Spells, SpellsByte, Stepped, Shift, Absorb, IsXor, Xor;
    var q := 0x82f63b78;
    var r1, w1 := Xor(r, Widen(b, 32)), w ^ c;
    WidenSpells(b, c);
    XorBits(r, Widen(b, 32));
    XorSpells(r1, r, Widen(b, 32), w, c);
    FourSteps(POLY, r1, q, w1);
    FourSteps(POLY, Shift(POLY, r1, 4), q, Stepped(q, Stepped(q, Stepped(q, Stepped(q, w1)))));
    ShiftAdd(POLY, r1, 4, 4);
    r' := Shift(POLY, r1, 8);
    assert ([b] + rest)[1..] == rest;
    AbsorbByte(POLY, r, [b] + rest);
  }

  // ------------------------------------------------------------------------
  // The check value
  // ------------------------------------------------------------------------

  /** The polynomial is 0x82f63b78. */
  lemma PolynomialSpells()
    ensures Spells(POLY, 0x82f63b78)
  {
    hide Unpack;
    UnpackByte(0x78);
    UnpackByte(0x3b);
    UnpackByte(0xf6);
    UnpackByte(0x82);
  }

  /** The terms of the Castagnoli polynomial below x^32, which RFC 3720 calls
      0x11EDC6F41. */
  lemma CastagnoliTerms()
    ensures forall i :: 0 <= i < 32 ==>
      (POLY[i] <==> 31 - i in {28, 27, 26, 25, 23, 22, 20, 19, 18, 14, 13, 11, 10, 9, 8, 6, 0})
  {
    hide Unpack;
    TermBits();
  }

  lemma TermBits()
    ensures POLY[3] && POLY[4] && POLY[5] && POLY[6] && POLY[8] && POLY[9] && POLY[11] && POLY[12] && POLY[13]
    ensures POLY[17] && POLY[18] && POLY[20] && POLY[21] && POLY[22] && POLY[23] && POLY[25] && POLY[31]
    ensures !POLY[0] && !POLY[1] && !POLY[2] && !POLY[7] && !POLY[10] && !POLY[14] && !POLY[15] && !POLY[16]
    ensures !POLY[19] && !POLY[24] && !POLY[26] && !POLY[27] && !POLY[28] && !POLY[29] && !POLY[30]
  {
    hide Unpack;
    PolynomialSpells();
  }

  /** The mask is 0xffffffff. */
  lemma MaskSpells()
    ensures Spells(Mask(), 0xffffffff)
  {
    hide Mask;
  }

  lemma LetterH()
    ensures SpellsByte(Unpack(0x68, 8), 0x68)
  {
    hide Unpack;
    UnpackByte(0x68);
  }

  lemma LetterE()
    ensures SpellsByte(Unpack(0x65, 8), 0x65)
  {
    hide Unpack;
    UnpackByte(0x65);
  }

  lemma LetterL()
    ensures SpellsByte(Unpack(0x6c, 8), 0x6c)
  {
    hide Unpack;
    UnpackByte(0x6c);
  }

  lemma LetterO()
    ensures SpellsByte(Unpack(0x6f, 8), 0x6f)
  {
    hide Unpack;
    UnpackByte(0x6f);
  }

  lemma LetterSpace()
    ensures SpellsByte(Unpack(0x20, 8), 0x20)
  {
    hide Unpack;
    UnpackByte(0x20);
  }

  lemma LetterW()
    ensures SpellsByte(Unpack(0x77, 8), 0x77)
  {
    hide Unpack;
    UnpackByte(0x77);
  }

  lemma LetterR()
    ensures SpellsByte(Unpack(0x72, 8), 0x72)
  {
    hide Unpack;
    UnpackByte(0x72);
  }

  lemma LetterD()
    ensures SpellsByte(Unpack(0x64, 8), 0x64)
  {
    hide Unpack;
    UnpackByte(0x64);
  }

  lemma Registers()
    ensures Fed(0x82f63b78, 0xffffffff, 0x68) == 0x469d6703
      && Fed(0x82f63b78, 0x469d6703, 0x65) == 0x4721e9ed
      && Fed(0x82f63b78, 0x4721e9ed, 0x6c) == 0x70da9992
      && Fed(0x82f63b78, 0x70da9992, 0x6c) == 0x5f660acb
      && Fed(0x82f63b78, 0x5f660acb, 0x6f) == 0x658e44b3
      && Fed(0x82f63b78, 0x658e44b3, 0x20) == 0x819d81a7
      && Fed(0x82f63b78, 0x819d81a7, 0x77) == 0xd3527c2a
      && Fed(0x82f63b78, 0xd3527c2a, 0x6f) == 0x74595bdc
      && Fed(0x82f63b78, 0x74595bdc, 0x72) == 0x0e4753da
      && Fed(0x82f63b78, 0x0e4753da, 0x6c) == 0x94bad272
      && Fed(0x82f63b78, 0x94bad272, 0x64) == 0x366b9a55
  {
  }

  /** A string as the bytes of its characters. */
  function Text(s: string): (bytes: seq<Byte>)
    ensures |bytes| == |s|
  {
    seq(|s|, i requires 0 <= i < |s| => Unpack(s[i] as nat, 8))
  }

  lemma HelloRegister() returns (r: Word)
    ensures Absorb(POLY, Mask(), Text("hello world")) == r && Spells(r, 0x366b9a55)
  {
    hide Spells, SpellsByte, Fed, Absorb, Unpack, Mask;
    PolynomialSpells();
    MaskSpells();
    Registers();
    LetterH();
    LetterE();
    LetterL();
    LetterO();
    LetterSpace();
    LetterW();
    LetterR();
    LetterD();
    var s10: seq<Byte> := [Unpack(0x64, 8)] + [];
    var s9: seq<Byte> := [Unpack(0x6c, 8)] + s10;
    var s8: seq<Byte> := [Unpack(0x72, 8)] + s9;
    var s7: seq<Byte> := [Unpack(0x6f, 8)] + s8;
    var s6: seq<Byte> := [Unpack(0x77, 8)] + s7;
    var s5: seq<Byte> := [Unpack(0x20, 8)] + s6;
    var s4: seq<Byte> := [Unpack(0x6f, 8)] + s5;
    var s3: seq<Byte> := [Unpack(0x6c, 8)] + s4;
    var s2: seq<Byte> := [Unpack(0x6c, 8)] + s3;
    var s1: seq<Byte> := [Unpack(0x65, 8)] + s2;
    var s0: seq<Byte> := [Unpack(0x68, 8)] + s1;
    assert Text("hello world") == s0;
    r := Mask();
    r := FedSpells(r, 0xffffffff, Unpack(0x68, 8), 0x68, s1);
    r := FedSpells(r, 0x469d6703, Unpack(0x65, 8), 0x65, s2);
    r := FedSpells(r, 0x4721e9ed, Unpack(0x6c, 8), 0x6c, s3);
    r := FedSpells(r, 0x70da9992, Unpack(0x6c, 8), 0x6c, s4);
    r := FedSpells(r, 0x5f660acb, Unpack(0x6f, 8), 0x6f, s5);
    r := FedSpells(r, 0x658e44b3, Unpack(0x20, 8), 0x20, s6);
    r := FedSpells(r, 0x819d81a7, Unpack(0x77, 8), 0x77, s7);
    r := FedSpells(r, 0xd3527c2a, Unpack(0x6f, 8), 0x6f, s8);
    r := FedSpells(r, 0x74595bdc, Unpack(0x72, 8), 0x72, s9);
    r := FedSpells(r, 0x0e4753da, Unpack(0x6c, 8), 0x6c, s10);
    r := FedSpells(r, 0x94bad272, Unpack(0x64, 8), 0x64, []);
    AbsorbNothing(POLY, r);
  }

  /** The checksum of "hello world" is 0xc99465aa. */
  lemma CheckValue()
    ensures Spells(Checksum(Text("hello world")), 0xc99465aa)
  {
    hide Spells, Absorb, Mask, IsXor, Xor, Text;
    PolynomialSpells();
    MaskSpells();
    var r := HelloRegister();
    XorBits(r, Mask());
    XorSpells(Xor(r, Mask()), r, Mask(), 0x366b9a55, 0xffffffff);
  }
}
