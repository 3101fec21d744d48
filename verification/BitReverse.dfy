/** Reversal of a word by exchanging ever larger blocks. */
module BitReverse {
  import opened Bits
  import opened Crc

  function And(a: Bits, b: Bits): (c: Bits)
    requires |a| == |b|
    ensures |c| == |a| && forall i :: 0 <= i < |a| ==> c[i] == (a[i] && b[i])
  {
    seq(|a|, i requires 0 <= i < |a| => a[i] && b[i])
  }

  function Or(a: Bits, b: Bits): (c: Bits)
    requires |a| == |b|
    ensures |c| == |a| && forall i :: 0 <= i < |a| ==> c[i] == (a[i] || b[i])
  {
    seq(|a|, i requires 0 <= i < |a| => a[i] || b[i])
  }

  /** A word of four equal bytes. */
  function Every(v: nat): Word {
    Unpack(v, 8) + Unpack(v, 8) + Unpack(v, 8) + Unpack(v, 8)
  }

  /** Moves the bits under one mask down and those under the other up. */
  function Exchange(b: Bits, high: Bits, low: Bits, k: nat): (r: Bits)
    requires |b| == |high| == |low| >= k
    ensures |r| == |b|
  {
    Or(ShiftRight(And(b, high), k), ShiftLeft(And(b, low), k))
  }

  function SwapBytes(b: Word): Word {
    b[24..] + b[16..24] + b[8..16] + b[..8]
  }

  function ReverseBits(bits: Word): Word {
    var bits1 := Exchange(bits, Every(0xaa), Every(0x55), 1);
    var bits2 := Exchange(bits1, Every(0xcc), Every(0x33), 2);
    var bits4 := Exchange(bits2, Every(0xf0), Every(0x0f), 4);
    SwapBytes(bits4)
  }

  // ------------------------------------------------------------------------
  // Masks and blocks
  // ------------------------------------------------------------------------

  /** Exchanges neighbouring blocks of `k` bits. */
  ghost function SwapBlocks(b: Bits, k: nat): (r: Bits)
    requires k > 0
    ensures |r| == |b|
    decreases |b|
  {
    if |b| < 2 * k then b else b[k..2 * k] + b[..k] + SwapBlocks(b[2 * k..], k)
  }

  /** `high` marks every second block of `k` bits, and `low` the others. */
  ghost predicate Alternate(high: Bits, low: Bits, k: nat)
    decreases |high|
  {
    && |high| == |low| && k > 0
    && (high != [] ==>
          && |high| >= 2 * k
          && high[..2 * k] == Zeros(k) + Ones(k)
          && low[..2 * k] == Ones(k) + Zeros(k)
          && Alternate(high[2 * k..], low[2 * k..], k))
  }

  lemma {:induction false} AlternateAppend(h: Bits, l: Bits, h': Bits, l': Bits, k: nat)
    requires Alternate(h, l, k) && Alternate(h', l', k)
    ensures Alternate(h + h', l + l', k)
    decreases |h|
  {
    if h == [] {
      assert h + h' == h' && l + l' == l';
    } else {
      AlternateAppend(h[2 * k..], l[2 * k..], h', l', k);
      assert (h + h')[2 * k..] == h[2 * k..] + h' && (l + l')[2 * k..] == l[2 * k..] + l';
      assert (h + h')[..2 * k] == h[..2 * k] && (l + l')[..2 * k] == l[..2 * k];
    }
  }

  lemma AndConcat(a: Bits, b: Bits, c: Bits, d: Bits)
    requires |a| == |c| && |b| == |d|
    ensures And(a + b, c + d) == And(a, c) + And(b, d)
  {
  }

  lemma OrConcat(a: Bits, b: Bits, c: Bits, d: Bits)
    requires |a| == |c| && |b| == |d|
    ensures Or(a + b, c + d) == Or(a, c) + Or(b, d)
  {
  }

  lemma Units(b: Bits)
    ensures And(b, Zeros(|b|)) == Zeros(|b|) && And(b, Ones(|b|)) == b
    ensures Or(b, Zeros(|b|)) == b && Or(Zeros(|b|), b) == b
  {
  }

  lemma MaskPair(x: Bits, y: Bits, rest: Bits, m: Bits)
    requires |x| == |y| && |rest| == |m|
    ensures var k := |x|;
      && And(x + y + rest, Zeros(k) + Ones(k) + m) == Zeros(k) + (y + And(rest, m))
      && And(x + y + rest, Ones(k) + Zeros(k) + m) == x + (Zeros(k) + And(rest, m))
  {
    hide And, Or;
    var k := |x|;
    Units(x);
    Units(y);
    AndConcat(x, y, Zeros(k), Ones(k));
    AndConcat(x, y, Ones(k), Zeros(k));
    AndConcat(x + y, rest, Zeros(k) + Ones(k), m);
    AndConcat(x + y, rest, Ones(k) + Zeros(k), m);
  }

  /** One pair of blocks changes places, and nothing crosses over to the rest. */
  lemma ExchangeStep(x: Bits, y: Bits, rest: Bits, h: Bits, l: Bits)
    requires |x| == |y| > 0 && |rest| == |h| == |l| >= |x|
    requires h[..|x|] == Zeros(|x|)
    ensures var k := |x|;
      Exchange(x + y + rest, Zeros(k) + Ones(k) + h, Ones(k) + Zeros(k) + l, k) == y + x + Exchange(rest, h, l, k)
  {
    hide And, Or, ShiftLeft, ShiftRight;
    var k, z := |x|, Zeros(|x|);
    var up, down := And(rest, h), And(rest, l);
    MaskPair(x, y, rest, h);
    MaskPair(x, y, rest, l);
    ShiftPair(x, y, z, up, down);
    LowClear(rest, h, k);
    Merge(x, y, z, ShiftRight(up, k), ShiftLeft(down, k));
    assert y + (x + Exchange(rest, h, l, k)) == y + x + Exchange(rest, h, l, k);
  }

  lemma Merge(x: Bits, y: Bits, z: Bits, a: Bits, b: Bits)
    requires |x| == |y| == |z| && z == Zeros(|x|) && |a| == |b|
    ensures Or(y + (z + a), z + (x + b)) == y + (x + Or(a, b))
  {
    hide Or;
    OrConcat(y, z + a, z, x + b);
    OrConcat(z, a, x, b);
    Units(x);
    Units(y);
  }

  lemma ShiftPair(x: Bits, y: Bits, z: Bits, up: Bits, down: Bits)
    requires |x| == |y| == |z| <= |down| == |up| && z == Zeros(|x|)
    ensures up[..|x|] == z ==> ShiftRight(z + (y + up), |x|) == y + (z + ShiftRight(up, |x|))
    ensures ShiftLeft(x + (z + down), |x|) == z + (x + ShiftLeft(down, |x|))
  {
    assert (z + (y + up))[|x|..] == y + up;
    assert up == up[..|x|] + up[|x|..];
    assert (x + (z + down))[..2 * |x| + |down| - |x|] == x + (z + down[..|down| - |x|]);
  }

  lemma LowClear(rest: Bits, h: Bits, k: nat)
    requires |rest| == |h| >= k && h[..k] == Zeros(k)
    ensures And(rest, h)[..k] == Zeros(k)
  {
    var up := And(rest, h);
    forall i | 0 <= i < k ensures !up[i] {
      assert h[i] == h[..k][i];
    }
  }

  lemma ExchangeLast(x: Bits, y: Bits)
    requires |x| == |y| > 0
    ensures var k := |x|; Exchange(x + y, Zeros(k) + Ones(k), Ones(k) + Zeros(k), k) == y + x
  {
    var k := |x|;
    assert And(x + y, Zeros(k) + Ones(k)) == Zeros(k) + y;
    assert And(x + y, Ones(k) + Zeros(k)) == x + Zeros(k);
    assert ShiftRight(Zeros(k) + y, k) == y + Zeros(k);
    assert ShiftLeft(x + Zeros(k), k) == Zeros(k) + x;
  }

  /** Under alternating masks, the exchange swaps neighbouring blocks. */
  lemma {:induction false} ExchangeSwaps(b: Bits, high: Bits, low: Bits, k: nat)
    requires Alternate(high, low, k) && |high| == |b| >= 2 * k
    ensures Exchange(b, high, low, k) == SwapBlocks(b, k)
    decreases |b|
  {
    hide Exchange;
    var x, y, rest := b[..k], b[k..2 * k], b[2 * k..];
    var h, l := high[2 * k..], low[2 * k..];
    assert high == high[..2 * k] + h && low == low[..2 * k] + l && b == x + y + rest;
    if rest == [] {
      assert b == x + y && high == Zeros(k) + Ones(k) && low == Ones(k) + Zeros(k);
      ExchangeLast(x, y);
    } else {
      ExchangeSwaps(rest, h, l, k);
      assert h[..k] == h[..2 * k][..k] == Zeros(k);
      ExchangeStep(x, y, rest, h, l);
    }
  }

  lemma EveryAlternates(u: nat, v: nat, k: nat)
    requires Alternate(Unpack(u, 8), Unpack(v, 8), k)
    ensures Alternate(Every(u), Every(v), k)
  {
    hide Alternate, Unpack;
    var h, l := Unpack(u, 8), Unpack(v, 8);
    AlternateAppend(h, l, h, l, k);
    AlternateAppend(h + h, l + l, h, l, k);
    AlternateAppend(h + h + h, l + l + l, h, l, k);
  }

  lemma PairAlternates(k: nat)
    requires k > 0
    ensures Alternate(Zeros(k) + Ones(k), Ones(k) + Zeros(k), k)
  {
    var h, l := Zeros(k) + Ones(k), Ones(k) + Zeros(k);
    assert h[..2 * k] == h && l[..2 * k] == l && h[2 * k..] == [] && l[2 * k..] == [];
  }

  function Pair(v: nat): Bits {
    [v % 2 == 1, v / 2 % 2 == 1]
  }

  lemma UnpackBit(v: nat, width: nat)
    requires width > 0
    ensures Unpack(v, width) == [v % 2 == 1] + Unpack(v / 2, width - 1)
  {
  }

  lemma UnpackPair(v: nat, width: nat)
    requires width >= 2
    ensures Unpack(v, width) == Pair(v) + Unpack(v / 2 / 2, width - 2)
  {
    hide Unpack;
    UnpackBit(v, width);
    UnpackBit(v / 2, width - 1);
  }

  lemma UnpackByte(v: nat)
    ensures Unpack(v, 8) == Pair(v) + (Pair(v / 2 / 2) + (Pair(v / 2 / 2 / 2 / 2) + Pair(v / 2 / 2 / 2 / 2 / 2 / 2)))
  {
    hide Unpack, Pair;
    var v2 := v / 2 / 2;
    var v4 := v2 / 2 / 2;
    var v6 := v4 / 2 / 2;
    UnpackPair(v, 8);
    UnpackPair(v2, 6);
    UnpackPair(v4, 4);
    UnpackPair(v6, 2);
    UnpackNothing(v6 / 2 / 2);
  }

  lemma UnpackNothing(v: nat)
    ensures Unpack(v, 0) == []
  {
  }

  lemma Mask1()
    ensures Alternate(Every(0xaa), Every(0x55), 1)
  {
    hide Alternate, Every, Unpack;
    var h, l := Zeros(1) + Ones(1), Ones(1) + Zeros(1);
    PairAlternates(1);
    AlternateAppend(h, l, h, l, 1);
    AlternateAppend(h + h, l + l, h + h, l + l, 1);
    UnpackByte(0xaa);
    UnpackByte(0x55);
    assert Pair(0xaa) == Pair(0x2a) == Pair(0xa) == Pair(2) == h;
    assert Pair(0x55) == Pair(0x15) == Pair(5) == Pair(1) == l;
    assert h + (h + (h + h)) == h + h + (h + h) && l + (l + (l + l)) == l + l + (l + l);
    EveryAlternates(0xaa, 0x55, 1);
  }

  lemma Mask2()
    ensures Alternate(Every(0xcc), Every(0x33), 2)
  {
    hide Alternate, Every, Unpack;
    var h, l := Zeros(2) + Ones(2), Ones(2) + Zeros(2);
    PairAlternates(2);
    AlternateAppend(h, l, h, l, 2);
    UnpackByte(0xcc);
    UnpackByte(0x33);
    var z, o := Zeros(2), Ones(2);
    assert Pair(0xcc) == Pair(0xc) == z && Pair(0x33) == Pair(3) == o;
    assert z + (o + (z + o)) == h + h && o + (z + (o + z)) == l + l;
    EveryAlternates(0xcc, 0x33, 2);
  }

  lemma Mask4()
    ensures Alternate(Every(0xf0), Every(0x0f), 4)
  {
    hide Alternate, Every;
    PairAlternates(4);
    assert Unpack(0xf0, 8) == Zeros(4) + Ones(4);
    assert Unpack(0x0f, 8) == Ones(4) + Zeros(4);
    EveryAlternates(0xf0, 0x0f, 4);
  }

  /** Reverses each block of `k` bits in place. */
  ghost function ReverseEach(b: Bits, k: nat): (r: Bits)
    requires k > 0
    ensures |r| == |b|
    decreases |b|
  {
    if |b| < k then b else Reverse(b[..k]) + ReverseEach(b[k..], k)
  }

  lemma ReverseEachAppend(x: Bits, rest: Bits)
    requires x != []
    ensures ReverseEach(x + rest, |x|) == Reverse(x) + ReverseEach(rest, |x|)
  {
    assert (x + rest)[..|x|] == x && (x + rest)[|x|..] == rest;
  }

  lemma SwapBlocksAppend(x: Bits, y: Bits, rest: Bits)
    requires |x| == |y| > 0
    ensures SwapBlocks(x + (y + rest), |x|) == y + x + SwapBlocks(rest, |x|)
  {
    var b := x + (y + rest);
    assert b[..|x|] == x && b[|x|..2 * |x|] == y && b[2 * |x|..] == rest;
  }

  /** `n` is a whole number of blocks of `k`. */
  ghost predicate Whole(n: int, k: nat)
    requires k > 0
    decreases n
  {
    n == 0 || (n >= k && Whole(n - k, k))
  }

  lemma {:induction false} WholeMultiple(n: nat)
    ensures Whole(2 * n, 2) && Whole(4 * n, 4) && Whole(8 * n, 8)
  {
    if n > 0 {
      WholeMultiple(n - 1);
    }
  }

  /** Swapping reversed halves reverses the whole. */
  lemma {:induction false} SwapReversed(b: Bits, k: nat)
    requires k > 0 && Whole(|b|, 2 * k)
    ensures SwapBlocks(ReverseEach(b, k), k) == ReverseEach(b, 2 * k)
    decreases |b|
  {
    if b != [] {
      var x, y, rest := b[..k], b[k..2 * k], b[2 * k..];
      SwapReversed(rest, k);
      assert b == x + (y + rest);
      SwapReversedOnce(x, y, rest);
    }
  }

  lemma SwapReversedOnce(x: Bits, y: Bits, rest: Bits)
    requires |x| == |y| > 0
    requires SwapBlocks(ReverseEach(rest, |x|), |x|) == ReverseEach(rest, 2 * |x|)
    ensures SwapBlocks(ReverseEach(x + (y + rest), |x|), |x|) == ReverseEach(x + (y + rest), 2 * |x|)
  {
    hide ReverseEach, SwapBlocks;
    ReverseEachAppend(x, y + rest);
    ReverseEachAppend(y, rest);
    SwapBlocksAppend(Reverse(x), Reverse(y), ReverseEach(rest, |x|));
    ReverseEachAppend(x + y, rest);
    assert x + (y + rest) == (x + y) + rest;
    assert Reverse(x + y) == Reverse(y) + Reverse(x);
  }

  lemma {:induction false} ReverseEachOne(b: Bits)
    ensures ReverseEach(b, 1) == b
    decreases |b|
  {
    if b != [] {
      ReverseEachOne(b[1..]);
      assert Reverse(b[..1]) == b[..1];
    }
  }

  lemma ReverseEachByte(b: Word)
    ensures SwapBytes(ReverseEach(b, 8)) == Reverse(b)
  {
    hide ReverseEach;
    var x, y, z, w := b[..8], b[8..16], b[16..24], b[24..];
    assert b == x + (y + (z + (w + [])));
    ReverseEachAppend(x, y + (z + (w + [])));
    ReverseEachAppend(y, z + (w + []));
    ReverseEachAppend(z, w + []);
    ReverseEachAppend(w, []);
    assert Reverse(b) == Reverse(w) + (Reverse(z) + (Reverse(y) + Reverse(x)));
  }

  lemma ReverseBitsIsReverse(b: Word)
    ensures ReverseBits(b) == Reverse(b)
  {
    ReverseEachOne(b);
    hide ReverseEach, SwapBlocks, Exchange, Alternate, Every;
    Mask1();
    Mask2();
    Mask4();
    ExchangeSwaps(b, Every(0xaa), Every(0x55), 1);
    ExchangeSwaps(SwapBlocks(b, 1), Every(0xcc), Every(0x33), 2);
    ExchangeSwaps(SwapBlocks(SwapBlocks(b, 1), 2), Every(0xf0), Every(0x0f), 4);
    WholeMultiple(16);
    WholeMultiple(8);
    WholeMultiple(4);
    SwapReversed(b, 1);
    SwapReversed(b, 2);
    SwapReversed(b, 4);
    ReverseEachByte(b);
  }
}
