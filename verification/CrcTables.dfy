/** Construction of the lookup tables of the table-driven CRC32C engine. */
module CrcTables {
  import opened Bits
  import opened Gf2

  /** Zero counts are written in base 16, one group of 15 table entries per digit. */
  const ZEROES_BASE := 16

  /** The table that advances a byte by `n` bits. */
  ghost function ByteTable(p: Word, n: nat): (t: seq<Word>)
    ensures |t| == 256
  {
    seq(256, v requires 0 <= v < 256 => Entry(p, n, v))
  }

  ghost function Entry(p: Word, n: nat, v: nat): Word {
    Shift(p, Unpack(v, |p|), n)
  }

  function Pow16(b: nat): (v: nat)
    ensures v > 0
  {
    if b == 0 then 1 else 16 * Pow16(b - 1)
  }

  /** The zero count served by entry `j`: digit `j % 15 + 1` at place `j / 15`. */
  function ZeroCount(j: nat): nat {
    (j % 15 + 1) * Pow16(j / 15)
  }

  ghost predicate ZeroTable(p: Word, t: seq<Word>) {
    |t| == 240 && forall j :: 0 <= j < 240 ==> t[j] == Power(p, 8 * ZeroCount(j))
  }

  // ------------------------------------------------------------------------
  // Polynomial product
  // ------------------------------------------------------------------------

  method PolyMultiply(val: Word, m0: Word, poly: Word) returns (result: Word)
    ensures result == Mul(poly, val, m0)
  {
    hide Shift, Terms, Mul;
    var m := m0;
    result := Zeros(32);
    TermsStart(poly, val, m0);
    var one := 31;
    while one != -1
      invariant -1 <= one <= 31
      invariant m == Shift(poly, m0, 31 - one)
      invariant result == Terms(poly, val, m0, 31 - one)
    {
      TermsNext(poly, val, m0, 31 - one);
      if val[one] {
        result := Xor(result, m);
      }
      StepShift(poly, m0, 31 - one);
      if m[0] {
        m := Xor(ShiftRight(m, 1), poly);
      } else {
        m := ShiftRight(m, 1);
      }
      one := one - 1;
    }
    MulAllTerms(poly, val, m0);
  }

  lemma TermsStart(p: Word, l: Word, m: Word)
    ensures Terms(p, l, m, 0) == Zeros(32) && Shift(p, m, 0) == m
  {
  }

  lemma MulAllTerms(p: Word, l: Word, m: Word)
    ensures Mul(p, l, m) == Terms(p, l, m, 32)
  {
    hide Terms;
  }

  lemma TermsNext(p: Word, l: Word, m: Word, n: nat)
    requires n < 32
    ensures Terms(p, l, m, n + 1)
         == if l[31 - n] then Xor(Terms(p, l, m, n), Shift(p, m, n)) else Terms(p, l, m, n)
  {
    hide Shift;
    assert Xor(Terms(p, l, m, n), Zeros(32)) == Terms(p, l, m, n);
  }

  // ------------------------------------------------------------------------
  // Byte tables
  // ------------------------------------------------------------------------

  lemma {:induction false} Pow2Order(e: nat, f: nat)
    ensures e < f ==> 2 * Pow2(e) <= Pow2(f)
    decreases f
  {
    if e + 1 < f {
      Pow2Order(e, f - 1);
    }
  }

  lemma Pow2Order8(e: nat)
    requires e < 8
    ensures Pow2(7) == 128 && Pow2(e) <= 128
    ensures forall f: nat :: f < e ==> 2 * Pow2(f) <= Pow2(e)
    ensures forall f: nat :: e < f < 8 ==> 2 * Pow2(e) <= Pow2(f)
  {
    forall f: nat ensures f < e ==> 2 * Pow2(f) <= Pow2(e) {
      Pow2Order(f, e);
    }
    forall f: nat ensures e < f ==> 2 * Pow2(e) <= Pow2(f) {
      Pow2Order(e, f);
    }
    assert Pow2(7) == 128 by {
      assert Pow2(2) == 4;
      assert Pow2(4) == 16;
      assert Pow2(6) == 64;
    }
  }

  /** Each power of two is one step behind the next higher one. */
  lemma EntryHalf(p: Word, n: nat, e: nat)
    requires 0 < e < 8
    ensures Step(p, Entry(p, n, Pow2(e))) == Entry(p, n, Pow2(e - 1))
  {
    UnpackTop(0, e, |p|);
    UnpackTop(0, e - 1, |p|);
    assert Step(p, Unpack(Pow2(e), |p|)) == Unpack(Pow2(e - 1), |p|);
    StepShift(p, Unpack(Pow2(e), |p|), n);
  }

  /** The top bit of a byte is eight steps before the bottom bit of the next one. */
  lemma EntryCarry(p: Word, n: nat)
    ensures Step(p, Entry(p, n, 1)) == Entry(p, n + 8, 128)
  {
    Pow2Order8(7);
    UnpackTop(0, 7, |p|);
    UnpackTop(0, 0, |p|);
    PowerUnit(p, 24);
    PowerUnit(p, 31);
    assert Unpack(128, |p|) == Unit(24) && Unpack(1, |p|) == Unit(31);
    ShiftAdd(p, Unit(0), 24, 8);
    StepShift(p, Unit(0), 31);
    ShiftAdd(p, Unit(24), 8, n);
    StepShift(p, Unit(31), n);
  }

  lemma EntrySum(p: Word, n: nat, e: nat, v: nat)
    requires e < 8 && v < Pow2(e)
    ensures Entry(p, n, Pow2(e) + v) == Xor(Entry(p, n, Pow2(e)), Entry(p, n, v))
  {
    hide Shift, Unpack, Pow2, Xor;
    UnpackTop(v, e, |p|);
    ShiftXor(p, Unpack(Pow2(e), |p|), Unpack(v, |p|), n);
  }

  lemma EntryZero(p: Word, n: nat)
    ensures Entry(p, n, 0) == Zeros(32)
  {
    UnpackZero(|p|);
    ShiftZero(p, n);
  }

  /** `row` agrees with `table` at the powers of two above 2^e. */
  ghost predicate PowersAbove(table: seq<Word>, row: seq<Word>, e: int) {
    |table| == |row| == 256 && forall f: nat :: e < f < 8 ==> Pow2(f) < 256 && row[Pow2(f)] == table[Pow2(f)]
  }

  lemma ExtendPowers(table: seq<Word>, row: seq<Word>, e: nat, x: Word)
    requires e < 8 && PowersAbove(table, row, e) && Pow2(e) < 256
    requires x == table[Pow2(e)]
    ensures PowersAbove(table, row[Pow2(e) := x], e - 1)
  {
    Pow2Order8(e);
  }

  /** The entry for `i == 2^e`: `last` for the top bit of the first row, and
      otherwise one step on from the next higher bit. */
  method PowerEntry(poly: Word, first: bool, last: Word, previous: Word, row: seq<Word>, i: nat, ghost n: nat, ghost e: nat)
    returns (x: Word)
    requires first ==> last == Entry(poly, n, 128)
    requires !first ==> n >= 8 && previous == Entry(poly, n - 8, 1)
    requires e < 8 && i == Pow2(e) && PowersAbove(ByteTable(poly, n), row, e)
    ensures x == Entry(poly, n, Pow2(e))
  {
    Pow2Order8(e);
    if first && i == 128 {
      x := last;
    } else {
      var pred: Word;
      if i == 128 {
        pred := previous;
        EntryCarry(poly, n - 8);
      } else {
        pred := row[i * 2];
        assert i * 2 == Pow2(e + 1);
        EntryHalf(poly, n, e + 1);
      }
      assert Step(poly, pred) == Entry(poly, n, i);
      if pred[0] {
        x := Xor(ShiftRight(pred, 1), poly);
      } else {
        x := ShiftRight(pred, 1);
      }
    }
  }

  /** Fills in zero and the powers of two, from the top bit down. */
  method FillPowers(poly: Word, first: bool, last: Word, previous: Word, ghost n: nat) returns (row: seq<Word>)
    requires first ==> last == Entry(poly, n, 128)
    requires !first ==> n >= 8 && previous == Entry(poly, n - 8, 1)
    ensures PowersAbove(ByteTable(poly, n), row, -1) && row[0] == Zeros(32)
  {
    ghost var table := ByteTable(poly, n);
    row := seq(256, _ => Zeros(32));
    Pow2Order8(7);
    var i := 128;
    ghost var e := 7;
    while i != 0
      invariant -1 <= e <= 7 && i == (if e == -1 then 0 else Pow2(e))
      invariant PowersAbove(table, row, e) && row[0] == Zeros(32)
      decreases e
    {
      Pow2Order8(e);
      var x := PowerEntry(poly, first, last, previous, row, i, n, e);
      ExtendPowers(table, row, e, x);
      row := row[i := x];
      i := i / 2;
      e := e - 1;
    }
  }

  /** Every entry is the sum of its top bit's entry and the entry of the rest. */
  ghost predicate Additive(table: seq<Word>) {
    |table| == 256 && table[0] == Zeros(32) && forall e: nat, v: nat :: SumAt(table, e, v)
  }

  ghost predicate SumAt(table: seq<Word>, e: nat, v: nat)
    requires |table| == 256
  {
    e < 8 && v < Pow2(e) && Pow2(e) + v < 256 ==> table[Pow2(e) + v] == Xor(table[Pow2(e)], table[v])
  }

  lemma ByteTableAdditive(p: Word, n: nat)
    ensures Additive(ByteTable(p, n))
  {
    EntryZero(p, n);
    forall e: nat, v: nat ensures SumAt(ByteTable(p, n), e, v) {
      if e < 8 && v < Pow2(e) {
        EntrySum(p, n, e, v);
      }
    }
  }

  /** Entries strictly between `i == 2^e` and the next power, from those below. */
  method FillBlock(row0: seq<Word>, i: nat, ghost table: seq<Word>, ghost e: nat) returns (row: seq<Word>)
    requires Additive(table) && 1 <= e < 8 && i == Pow2(e)
    requires PowersAbove(table, row0, e - 1)
    requires forall v :: 0 <= v < i < 256 ==> row0[v] == table[v]
    ensures PowersAbove(table, row, e)
    ensures 2 * i <= 256 && forall v :: 0 <= v < 2 * i ==> row[v] == table[v]
  {
    Pow2Order8(e);
    row := row0;
    var k := i + 1;
    while k != i * 2
      invariant i < k <= i * 2
      invariant PowersAbove(table, row, e)
      invariant forall v :: 0 <= v < k ==> row[v] == table[v]
      decreases i * 2 - k
    {
      assert SumAt(table, e, k - i);
      row := row[k := Xor(row[i], row[k - i])];
      k := k + 1;
    }
  }

  /** Fills in every other entry as such a sum. */
  method FillSums(row0: seq<Word>, ghost table: seq<Word>) returns (row: seq<Word>)
    requires Additive(table)
    requires PowersAbove(table, row0, -1) && row0[0] == Zeros(32)
    ensures row == table
  {
    row := row0;
    var i := 2;
    ghost var e := 1;
    assert Pow2(1) == 2 && Pow2(0) == 1;
    while i != 256
      invariant 1 <= e <= 8 && i == Pow2(e) <= 256
      invariant PowersAbove(table, row, e - 1)
      invariant forall v :: 0 <= v < i ==> row[v] == table[v]
      decreases 8 - e
    {
      Pow2Order(e, 8);
      row := FillBlock(row, i, table, e);
      i := i * 2;
      e := e + 1;
    }
  }

  /** Both parts of one row. */
  method FillRow(poly: Word, first: bool, last: Word, previous: Word, ghost n: nat) returns (row: seq<Word>)
    requires first ==> last == Entry(poly, n, 128)
    requires !first ==> n >= 8 && previous == Entry(poly, n - 8, 1)
    ensures row == ByteTable(poly, n)
  {
    row := FillPowers(poly, first, last, previous, n);
    ByteTableAdditive(poly, n);
    row := FillSums(row, ByteTable(poly, n));
  }

  /** Row `j` of the result advances a byte by `n + 8 * j` bits, where `last`
      says what `n` bits do to the top bit of a byte. */
  method FillWordTable(poly: Word, last: Word, wordSize: nat, ghost n: nat) returns (t: seq<seq<Word>>)
    requires last == Entry(poly, n, 128)
    ensures |t| == wordSize
    ensures forall j :: 0 <= j < wordSize ==> t[j] == ByteTable(poly, n + 8 * j)
  {
    hide Entry;
    t := [];
    for j := 0 to wordSize
      invariant |t| == j
      invariant forall h :: 0 <= h < j ==> t[h] == ByteTable(poly, n + 8 * h)
    {
      var previous := if j == 0 then last else t[j - 1][1];
      var row := FillRow(poly, j == 0, last, previous, n + 8 * j);
      t := t + [row];
    }
  }

  // ------------------------------------------------------------------------
  // Zero-extension table
  // ------------------------------------------------------------------------

  /** One zero byte: x, squared three times. */
  method ZeroByteIncrement(poly: Word) returns (inc: Word)
    ensures inc == Power(poly, 8)
  {
    inc := ShiftRight(Unit(0), 1);
    PowerUnit(poly, 1);
    assert inc == Unit(1);
    ghost var n: nat := 1;
    for i := 0 to 3
      invariant inc == Power(poly, n) && n == Pow2(i)
    {
      PowerAdd(poly, n, n);
      inc := PolyMultiply(inc, inc, poly);
      n := 2 * n;
    }
    assert Pow2(3) == 8;
  }

  /** The 15 entries of digit place `b`, and the increment of the next place. */
  method FillDigit(poly: Word, inc: Word, ghost b: nat) returns (t: seq<Word>, v: Word)
    requires inc == Power(poly, 8 * Pow16(b))
    ensures |t| == 15 && forall a :: 0 <= a < 15 ==> t[a] == Power(poly, 8 * ((a + 1) * Pow16(b)))
    ensures v == Power(poly, 8 * Pow16(b + 1))
  {
    hide Power;
    t := [];
    v := inc;
    var a := 1;
    while a != ZEROES_BASE
      invariant 1 <= a <= 16 && |t| == a - 1
      invariant v == Power(poly, 8 * (a * Pow16(b)))
      invariant forall h :: 0 <= h < |t| ==> t[h] == Power(poly, 8 * ((h + 1) * Pow16(b)))
      decreases 16 - a
    {
      t := t + [v];
      PowerAdd(poly, 8 * (a * Pow16(b)), 8 * Pow16(b));
      assert 8 * (a * Pow16(b)) + 8 * Pow16(b) == 8 * ((a + 1) * Pow16(b));
      v := PolyMultiply(v, inc, poly);
      a := a + 1;
    }
  }

  lemma {:induction false} Pow16Bound(b: nat)
    requires b <= 16
    ensures Pow16(16) == 0x1_0000_0000_0000_0000
    ensures b < 16 ==> 16 * Pow16(b) <= Pow16(16)
    decreases 16 - b
  {
    assert Pow16(4) == 0x1_0000;
    assert Pow16(8) == 0x1_0000_0000;
    assert Pow16(12) == 0x1_0000_0000_0000;
    if b < 16 {
      Pow16Bound(b + 1);
    }
  }

  lemma ZeroCountAt(b: nat, a: nat)
    requires a < 15
    ensures ZeroCount(15 * b + a) == (a + 1) * Pow16(b)
  {
    assert (15 * b + a) / 15 == b && (15 * b + a) % 15 == a;
  }

  method FillZeroesTable(poly: Word) returns (t: seq<Word>)
    ensures ZeroTable(poly, t)
  {
    hide Power, ZeroCount;
    var inc := ZeroByteIncrement(poly);
    t := [];
    var incLen := 1;
    ghost var b := 0;
    while incLen != 0
      invariant 0 <= b <= 16 && incLen == (if b == 16 then 0 else Pow16(b))
      invariant |t| == 15 * b
      invariant inc == Power(poly, 8 * Pow16(b))
      invariant forall j :: 0 <= j < |t| ==> t[j] == Power(poly, 8 * ZeroCount(j))
      decreases 16 - b
    {
      var digit, next := FillDigit(poly, inc, b);
      forall j | |t| <= j < |t| + 15 ensures digit[j - |t|] == Power(poly, 8 * ZeroCount(j)) {
        ZeroCountAt(b, j - |t|);
      }
      t := t + digit;
      inc := next;
      Pow16Bound(b);
      Pow16Bound(b + 1);
      incLen := incLen * 16 % 0x1_0000_0000_0000_0000;
      b := b + 1;
    }
  }
}
