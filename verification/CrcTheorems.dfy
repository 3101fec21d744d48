/** What CRC32C values promise: any way of cutting and joining a buffer gives
    the same value, and two classes of corruption always change it. */
module CrcTheorems {
  import opened Bits
  import opened Gf2
  import opened Crc
  import opened Crc32c

  // ------------------------------------------------------------------------
  // Chunks
  // ------------------------------------------------------------------------

  /** A plan for joining the checksums of chunks two at a time. */
  datatype Tree = Leaf(chunk: seq<Byte>) | Node(left: Tree, right: Tree)
  {
    function Leaves(): seq<seq<Byte>> {
      match this
      case Leaf(chunk) => [chunk]
      case Node(left, right) => left.Leaves() + right.Leaves()
    }

    function Size(): nat {
      match this
      case Leaf(chunk) => |chunk|
      case Node(left, right) => left.Size() + right.Size()
    }

    /** The value obtained by concatenating checksums along the tree. */
    ghost function Crc(): Word {
      match this
      case Leaf(chunk) => Checksum(chunk)
      case Node(left, right) => Joined(left.Crc(), right.Crc(), right.Size())
    }
  }

  function Join(chunks: seq<seq<Byte>>): seq<Byte> {
    if chunks == [] then [] else chunks[0] + Join(chunks[1..])
  }

  /** Successive extension by each chunk. */
  ghost function Chain(c: Word, chunks: seq<seq<Byte>>): Word
    decreases |chunks|
  {
    if chunks == [] then c else Chain(Extended(c, chunks[0]), chunks[1..])
  }

  lemma {:induction false} JoinConcat(a: seq<seq<Byte>>, b: seq<seq<Byte>>)
    ensures Join(a + b) == Join(a) + Join(b)
  {
    if a == [] {
      assert a + b == b;
    } else {
      assert (a + b)[1..] == a[1..] + b;
      JoinConcat(a[1..], b);
    }
  }

  lemma {:induction false} TreeIsChecksum(t: Tree)
    ensures t.Size() == |Join(t.Leaves())| && t.Crc() == Checksum(Join(t.Leaves()))
  {
    hide Checksum, Joined;
    match t
    case Leaf(chunk) =>
      assert Join([chunk]) == chunk + Join([]) == chunk;
    case Node(left, right) =>
      TreeIsChecksum(left);
      TreeIsChecksum(right);
      JoinConcat(left.Leaves(), right.Leaves());
      JoinedChecksums(Join(left.Leaves()), Join(right.Leaves()));
  }

  lemma {:induction false} ChainIsChecksum(prefix: seq<Byte>, chunks: seq<seq<Byte>>)
    ensures Chain(Checksum(prefix), chunks) == Checksum(prefix + Join(chunks))
    decreases |chunks|
  {
    hide Checksum, Extended;
    if chunks == [] {
      assert prefix + [] == prefix;
    } else {
      ExtendedChecksum(prefix, chunks[0]);
      ChainIsChecksum(prefix + chunks[0], chunks[1..]);
      assert prefix + chunks[0] + Join(chunks[1..]) == prefix + Join(chunks);
    }
  }

  lemma ChecksumNothing()
    ensures Checksum([]) == Zeros(32)
  {
    AbsorbNothing(POLY, Mask());
    MaskTwice(Zeros(32));
  }

  /** Every tree of concatenations agrees with one chain of extensions from 0,
      and both give the checksum of the whole buffer. */
  lemma TreeMatchesChain(t: Tree)
    ensures t.Crc() == Chain(Zeros(32), t.Leaves()) == Checksum(Join(t.Leaves()))
  {
    hide Checksum;
    TreeIsChecksum(t);
    ChecksumNothing();
    ChainIsChecksum([], t.Leaves());
    assert [] + Join(t.Leaves()) == Join(t.Leaves());
  }

  /** Extending by zeroes and then taking some back is extending by the rest. */
  lemma UnextendTakesBack(c: Word, d: Word, m: nat, n: nat)
    requires n <= m
    requires Extended(c, ZeroBytes(m)) == Extended(d, ZeroBytes(n))
    ensures d == Extended(c, ZeroBytes(m - n))
  {
    hide Absorb, Shift;
    var c', d' := Xor(c, Mask()), Xor(d, Mask());
    AbsorbZeroBytes(POLY, c', m);
    AbsorbZeroBytes(POLY, d', n);
    AbsorbZeroBytes(POLY, c', m - n);
    ShiftAdd(POLY, c', 8 * (m - n), 8 * n);
    MaskTwice(Shift(POLY, c', 8 * m));
    MaskTwice(Shift(POLY, d', 8 * n));
    ShiftInjective(POLY, Shift(POLY, c', 8 * (m - n)), d', 8 * n);
    MaskTwice(d);
  }

  lemma ShiftInjective(p: Word, a: Word, b: Word, n: nat)
    requires Shift(p, a, n) == Shift(p, b, n) && p == POLY
    ensures a == b
  {
    hide Shift, Unshift;
    PolyConstantTerm();
    UnshiftShift(p, a, n);
    UnshiftShift(p, b, n);
  }

  // ------------------------------------------------------------------------
  // Burst errors
  // ------------------------------------------------------------------------

  lemma {:induction false} FeedInjective(p: Word, a: Word, b: Word, w: Bits)
    requires p[31] && a != b
    ensures Feed(p, a, w) != Feed(p, b, w)
    decreases |w|
  {
    if w != [] {
      hide Step, Unstep;
      var bit := Widen([w[0]], 32);
      assert Xor(Xor(a, bit), bit) == a && Xor(Xor(b, bit), bit) == b;
      UnstepStep(p, Xor(a, bit));
      UnstepStep(p, Xor(b, bit));
      FeedInjective(p, Step(p, Xor(a, bit)), Step(p, Xor(b, bit)), w[1..]);
    }
  }

  lemma WindowInjective(p: Word, r: Word, v: Bits, w: Bits)
    requires p[31] && |v| == |w| <= 32 && v != w
    ensures Feed(p, r, v) != Feed(p, r, w)
  {
    hide Shift, Unshift, Feed;
    var x, y := Xor(r, Widen(v, 32)), Xor(r, Widen(w, 32));
    FeedAtOnce(p, r, v);
    FeedAtOnce(p, r, w);
    UnshiftShift(p, x, |v|);
    UnshiftShift(p, y, |w|);
    assert Xor(r, x) == Widen(v, 32) && Xor(r, y) == Widen(w, 32);
    assert Widen(v, 32)[..|v|] == v && Widen(w, 32)[..|w|] == w;
  }

  /** The bits of two messages agree outside `[from, from + 32)`. */
  ghost predicate DifferInWindow(v: Bits, w: Bits, from: nat) {
    && |v| == |w|
    && v != w
    && forall i :: 0 <= i < |v| && (i < from || from + 32 <= i) ==> v[i] == w[i]
  }

  lemma FeedDetectsBurst(p: Word, r: Word, v: Bits, w: Bits, from: nat)
    requires p[31] && DifferInWindow(v, w, from)
    ensures Feed(p, r, v) != Feed(p, r, w)
  {
    hide Feed;
    assert from < |v|;
    var end := if from + 32 <= |v| then from + 32 else |v|;
    var head, tail := v[..from], v[end..];
    assert v == head + (v[from..end] + tail) && w == head + (w[from..end] + tail);
    FeedConcat(p, r, head, v[from..end] + tail);
    FeedConcat(p, r, head, w[from..end] + tail);
    var r' := Feed(p, r, head);
    FeedConcat(p, r', v[from..end], tail);
    FeedConcat(p, r', w[from..end], tail);
    WindowInjective(p, r', v[from..end], w[from..end]);
    FeedInjective(p, Feed(p, r', v[from..end]), Feed(p, r', w[from..end]), tail);
  }

  /** Any error burst of at most 32 bits, at any position of a message of any
      length, changes the checksum. */
  lemma BurstsAreDetected(s: seq<Byte>, t: seq<Byte>, from: nat)
    requires DifferInWindow(Flatten(s), Flatten(t), from)
    ensures Checksum(s) != Checksum(t)
  {
    hide Feed, Flatten;
    PolyConstantTerm();
    FeedDetectsBurst(POLY, Mask(), Flatten(s), Flatten(t), from);
    MaskTwice(Absorb(POLY, Mask(), s));
    MaskTwice(Absorb(POLY, Mask(), t));
  }

  lemma {:induction false} FlattenAt(s: seq<Byte>, i: nat)
    requires i < 8 * |s|
    ensures Flatten(s)[i] == s[i / 8][i % 8]
  {
    if i >= 8 {
      FlattenAt(s[1..], i - 8);
    }
  }

  /** In particular, buffers that differ only within four consecutive bytes. */
  lemma FourByteWindow(s: seq<Byte>, t: seq<Byte>, from: nat)
    requires |s| == |t| && s != t
    requires forall i :: 0 <= i < |s| && (i < from || from + 4 <= i) ==> s[i] == t[i]
    ensures Checksum(s) != Checksum(t)
  {
    hide Flatten, Checksum;
    forall i: nat | i < 8 * |s| ensures Flatten(s)[i] == s[i / 8][i % 8] && Flatten(t)[i] == t[i / 8][i % 8] {
      FlattenAt(s, i);
      FlattenAt(t, i);
    }
    var k :| 0 <= k < |s| && s[k] != t[k];
    var j :| 0 <= j < 8 && s[k][j] != t[k][j];
    assert (8 * k + j) / 8 == k && (8 * k + j) % 8 == j;
    assert Flatten(s)[8 * k + j] != Flatten(t)[8 * k + j];
    BurstsAreDetected(s, t, 8 * from);
  }

  // ------------------------------------------------------------------------
  // Odd numbers of flipped bits
  // ------------------------------------------------------------------------

  /** Whether an odd number of bits is set. */
  function Parity(w: Bits): bool {
    if w == [] then false else w[0] != Parity(w[1..])
  }

  /** The number of positions where two messages differ. */
  function Distance(v: Bits, w: Bits): nat
    requires |v| == |w|
  {
    if v == [] then 0 else (if v[0] == w[0] then 0 else 1) + Distance(v[1..], w[1..])
  }

  lemma {:induction false} ParityConcat(v: Bits, w: Bits)
    ensures Parity(v + w) == (Parity(v) != Parity(w))
  {
    if v == [] {
      assert v + w == w;
    } else {
      assert (v + w)[1..] == v[1..] + w;
      ParityConcat(v[1..], w);
    }
  }

  lemma {:induction false} ParityXor(v: Bits, w: Bits)
    requires |v| == |w|
    ensures Parity(Xor(v, w)) == (Parity(v) != Parity(w))
    decreases |v|
  {
    if v != [] {
      assert Xor(v, w)[1..] == Xor(v[1..], w[1..]);
      ParityXor(v[1..], w[1..]);
    }
  }

  lemma {:induction false} ParityZeros(n: nat)
    ensures !Parity(Zeros(n))
  {
    if n > 0 {
      assert Zeros(n)[1..] == Zeros(n - 1);
      ParityZeros(n - 1);
    }
  }

  lemma {:induction false} ParityDistance(v: Bits, w: Bits)
    requires |v| == |w|
    ensures (Parity(v) != Parity(w)) <==> Distance(v, w) % 2 == 1
  {
    if v != [] {
      ParityDistance(v[1..], w[1..]);
    }
  }

  /** A generator with an even number of terms keeps the parity of the register. */
  lemma StepParity(p: Word, r: Word)
    requires Parity(p)
    ensures Parity(Step(p, r)) == Parity(r)
  {
    ParityConcat(r[1..], Zeros(1));
    ParityZeros(1);
    if r[0] {
      ParityXor(ShiftRight(r, 1), p);
    }
  }

  lemma {:induction false} FeedParity(p: Word, r: Word, w: Bits)
    requires Parity(p)
    ensures Parity(Feed(p, r, w)) == (Parity(r) != Parity(w))
    decreases |w|
  {
    if w != [] {
      hide Step;
      var bit := Widen([w[0]], 32);
      ParityConcat([w[0]], Zeros(31));
      ParityZeros(31);
      assert Parity([w[0]]) == w[0];
      ParityXor(r, bit);
      StepParity(p, Xor(r, bit));
      FeedParity(p, Step(p, Xor(r, bit)), w[1..]);
    }
  }

  lemma ParityPair(a: bool, b: bool, w: Bits)
    ensures Parity([a, b] + w) == ((a != b) != Parity(w))
  {
    var v := [a, b] + w;
    assert v[1..] == [b] + w && v[1..][1..] == w;
  }

  lemma ByteParity(b: Byte)
    ensures Parity(b) == (((b[0] != b[1]) != (b[2] != b[3])) != ((b[4] != b[5]) != (b[6] != b[7])))
  {
    hide Parity;
    assert b == [b[0], b[1]] + ([b[2], b[3]] + ([b[4], b[5]] + ([b[6], b[7]] + Zeros(0))));
    ParityPair(b[0], b[1], [b[2], b[3]] + ([b[4], b[5]] + ([b[6], b[7]] + Zeros(0))));
    ParityPair(b[2], b[3], [b[4], b[5]] + ([b[6], b[7]] + Zeros(0)));
    ParityPair(b[4], b[5], [b[6], b[7]] + Zeros(0));
    ParityPair(b[6], b[7], Zeros(0));
    ParityZeros(0);
  }

  lemma PolyLowParity()
    ensures Parity(Unpack(0x78, 8) + Unpack(0x3b, 8))
  {
    hide Parity;
    ByteParity(Unpack(0x78, 8));
    ByteParity(Unpack(0x3b, 8));
    ParityConcat(Unpack(0x78, 8), Unpack(0x3b, 8));
  }

  lemma PolyHighParity()
    ensures !Parity(Unpack(0xf6, 8)) && !Parity(Unpack(0x82, 8))
  {
    hide Parity;
    ByteParity(Unpack(0xf6, 8));
    ByteParity(Unpack(0x82, 8));
  }

  /** The Castagnoli polynomial has 18 terms, 17 of them in the word. */
  lemma PolyParity()
    ensures Parity(POLY)
  {
    hide Parity, Unpack;
    PolyLowParity();
    PolyHighParity();
    ParityConcat(Unpack(0x78, 8) + Unpack(0x3b, 8), Unpack(0xf6, 8));
    ParityConcat(Unpack(0x78, 8) + Unpack(0x3b, 8) + Unpack(0xf6, 8), Unpack(0x82, 8));
  }

  /** Any error that flips an odd number of bits changes the checksum. */
  lemma OddErrorsAreDetected(s: seq<Byte>, t: seq<Byte>)
    requires |s| == |t| && Distance(Flatten(s), Flatten(t)) % 2 == 1
    ensures Checksum(s) != Checksum(t)
  {
    hide Feed, Flatten, Parity, Distance;
    PolyParity();
    FeedParity(POLY, Mask(), Flatten(s));
    FeedParity(POLY, Mask(), Flatten(t));
    ParityDistance(Flatten(s), Flatten(t));
    MaskTwice(Absorb(POLY, Mask(), s));
    MaskTwice(Absorb(POLY, Mask(), t));
  }
}
