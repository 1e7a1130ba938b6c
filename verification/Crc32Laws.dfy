/** What the checksum kit relies on the checksum for: laws of `Checksum` over all
    buffers, proved through the reference definition.
 */
module Crc32Laws {
  import opened Gf2
  import opened Crc32

  // ----- Buffers as messages -----

  lemma {:induction false} MessageConcat(a: seq<bv8>, b: seq<bv8>)
    ensures Message(a + b) == Message(a) + Message(b)
    decreases |b|
  {
    if b == [] {
      assert a + b == a;
    } else {
      assert (a + b)[..|a + b| - 1] == a + b[..|b| - 1];
      MessageConcat(a, b[..|b| - 1]);
    }
  }

  lemma {:induction false} MessageAt(a: seq<bv8>, i: nat, k: nat)
    requires i < |a| && k < 8
    ensures Message(a)[8 * i + k] == ByteBits(a[i])[k]
    decreases |a|
  {
    if i < |a| - 1 {
      MessageAt(a[..|a| - 1], i, k);
    }
  }

  lemma ByteBitsInjective(a: bv8, b: bv8)
    requires ByteBits(a) == ByteBits(b)
    ensures a == b
  {
    ToWordByte(a);
    ToWordByte(b);
    ToWordInjective(a as bv32, b as bv32);
  }

  lemma MessageInjective(a: seq<bv8>, b: seq<bv8>)
    requires Message(a) == Message(b)
    ensures a == b
  {
    forall i | 0 <= i < |a|
      ensures a[i] == b[i]
    {
      forall k | 0 <= k < 8
        ensures ByteBits(a[i])[k] == ByteBits(b[i])[k]
      {
        MessageAt(a, i, k);
        MessageAt(b, i, k);
      }
      ByteBitsInjective(a[i], b[i]);
    }
  }

  // ----- Error detection -----

  lemma NotInjective(a: Word, b: Word)
    requires Not(a) == Not(b)
    ensures a == b
  {
    forall i | 0 <= i < 32
      ensures a[i] == b[i]
    {
      assert Not(a)[i] == Not(b)[i];
    }
  }

  lemma ChecksumSeesRegister(a: seq<bv8>, b: seq<bv8>)
    ensures (Checksum(a) == Checksum(b)) == (Feed(Ones(), Message(a)) == Feed(Ones(), Message(b)))
  {
    ChecksumIsReference(a);
    ChecksumIsReference(b);
    if Checksum(a) == Checksum(b) {
      NotInjective(Feed(Ones(), Message(a)), Feed(Ones(), Message(b)));
    } else if Feed(Ones(), Message(a)) == Feed(Ones(), Message(b)) {
      ToWordInjective(Checksum(a), Checksum(b));
    }
  }

  /** No error burst of up to 32 bits goes unnoticed, wherever it starts. */
  lemma BurstChangesChecksum(a: seq<bv8>, b: seq<bv8>, p: nat, n: nat)
    requires |a| == |b| && a != b
    requires n <= 32 && AgreeOutside(Message(a), Message(b), p, n)
    ensures Checksum(a) != Checksum(b)
  {
    if Message(a) == Message(b) {
      MessageInjective(a, b);
    }
    BurstDetected(Ones(), Message(a), Message(b), p, n);
    ChecksumSeesRegister(a, b);
  }

  /** Damage confined to four consecutive bytes always shows. */
  lemma WindowChangesChecksum(a: seq<bv8>, b: seq<bv8>, start: nat)
    requires |a| == |b| && a != b
    requires forall i :: 0 <= i < |a| && !(start <= i < start + 4) ==> a[i] == b[i]
    ensures Checksum(a) != Checksum(b)
  {
    forall j | 0 <= j < |Message(a)| && !(8 * start <= j < 8 * start + 32)
      ensures Message(a)[j] == Message(b)[j]
    {
      var i, k := j / 8, j % 8;
      MessageAt(a, i, k);
      MessageAt(b, i, k);
      assert j == 8 * i + k;
      assert !(start <= i < start + 4);
    }
    BurstChangesChecksum(a, b, 8 * start, 32);
  }

  /** On buffers of one length up to four bytes the checksum loses nothing. */
  lemma ShortChecksumInjective(a: seq<bv8>, b: seq<bv8>)
    requires |a| == |b| <= 4
    ensures Checksum(a) == Checksum(b) <==> a == b
  {
    if a != b {
      WindowChangesChecksum(a, b, 0);
    }
  }

  /** The checksum of a concatenation is got by going on from the checksum of its first
      part: complement it back to the register, divide the second part, complement. */
  lemma ChecksumConcat(a: seq<bv8>, b: seq<bv8>)
    ensures ToWord(Checksum(a + b)) == Not(Feed(Not(ToWord(Checksum(a))), Message(b)))
  {
    ChecksumIsReference(a);
    ChecksumIsReference(a + b);
    MessageConcat(a, b);
    FeedConcat(Ones(), Message(a), Message(b));
    assert Not(Not(Feed(Ones(), Message(a)))) == Feed(Ones(), Message(a));
  }

  // ----- Affinity -----

  lemma WidenPlus(a: bv8, b: bv8)
    ensures (a ^ b) as bv32 == Plus(a as bv32, b as bv32)
  {
  }

  lemma XorPrefix(x: Word, y: Word)
    ensures Xor(x, y)[..8] == XorBits(x[..8], y[..8])
  {
  }

  function PlusByte(a: bv8, b: bv8): (r: bv8)
    ensures ByteBits(r) == XorBits(ByteBits(a), ByteBits(b))
  {
    WidenPlus(a, b);
    XorPrefix(ToWord(a as bv32), ToWord(b as bv32));
    a ^ b
  }

  function XorBuffers(a: seq<bv8>, b: seq<bv8>): (r: seq<bv8>)
    requires |a| == |b|
    ensures |r| == |a|
  {
    seq(|a|, i requires 0 <= i < |a| => PlusByte(a[i], b[i]))
  }

  lemma XorConcat(u: seq<bool>, v: seq<bool>, x: seq<bool>, y: seq<bool>)
    requires |u| == |v| && |x| == |y|
    ensures XorBits(u + x, v + y) == XorBits(u, v) + XorBits(x, y)
  {
  }

  lemma {:induction false} MessageXor(a: seq<bv8>, b: seq<bv8>)
    requires |a| == |b|
    ensures Message(XorBuffers(a, b)) == XorBits(Message(a), Message(b))
    decreases |a|
  {
    if a != [] {
      var n := |a| - 1;
      var r := XorBuffers(a, b);
      assert r[..n] == XorBuffers(a[..n], b[..n]);
      assert r[n] == PlusByte(a[n], b[n]);
      MessageXor(a[..n], b[..n]);
      XorConcat(Message(a[..n]), Message(b[..n]), ByteBits(a[n]), ByteBits(b[n]));
    }
  }

  /** The checksum of a bytewise sum of three buffers is the sum of their checksums. */
  lemma ChecksumAffine(a: seq<bv8>, b: seq<bv8>, c: seq<bv8>)
    requires |a| == |b| == |c|
    ensures Checksum(XorBuffers(XorBuffers(a, b), c)) == Plus(Plus(Checksum(a), Checksum(b)), Checksum(c))
  {
    var d, ones := XorBuffers(XorBuffers(a, b), c), Ones();
    var u, v, w := Message(a), Message(b), Message(c);
    MessageXor(a, b);
    MessageXor(XorBuffers(a, b), c);
    FeedLinear(ones, ones, u, v);
    FeedLinear(Xor(ones, ones), ones, XorBits(u, v), w);
    assert Xor(Xor(ones, ones), ones) == ones;
    NotOfSum(Feed(ones, u), Feed(ones, v), Feed(ones, w));
    ChecksumIsReference(a);
    ChecksumIsReference(b);
    ChecksumIsReference(c);
    ChecksumIsReference(d);
    ToWordInjective(Checksum(d), Plus(Plus(Checksum(a), Checksum(b)), Checksum(c)));
  }

  lemma NotOfSum(a: Word, b: Word, c: Word)
    ensures Not(Xor(Xor(a, b), c)) == Xor(Xor(Not(a), Not(b)), Not(c))
  {
  }

  // ----- The residue -----

  const RESIDUE: bv32 := 0x2144df1c

  function LowByte(c: bv32): bv8 {
    (c & 0xff) as bv8
  }

  /** The four bytes of a word, lowest first. */
  function LittleEndian(c: bv32): (b: seq<bv8>)
    ensures |b| == 4
  {
    [LowByte(c), LowByte(c >> 8), LowByte(c >> 16), LowByte(c >> 24)]
  }

  lemma LowBitsAgree(c: bv32, d: bv32)
    requires d == c & 0xff
    ensures Bit(c, 0) == Bit(d, 0) && Bit(c, 1) == Bit(d, 1) && Bit(c, 2) == Bit(d, 2) && Bit(c, 3) == Bit(d, 3)
    ensures Bit(c, 4) == Bit(d, 4) && Bit(c, 5) == Bit(d, 5) && Bit(c, 6) == Bit(d, 6) && Bit(c, 7) == Bit(d, 7)
  {
    LowBits(c);
    LowBits(d);
  }

  lemma LowBitAgrees(c: bv32, d: bv32, k: nat)
    requires k < 8 && d == c & 0xff
    ensures Bit(c, k) == Bit(d, k)
  {
    LowBitsAgree(c, d);
    match k
    case 0 => case 1 => case 2 => case 3 => case 4 => case 5 => case 6 => case _ =>
  }

  lemma NarrowWiden(c: bv32)
    ensures LowByte(c) as bv32 == c & 0xff
  {
  }

  lemma LowByteBits(c: bv32, k: nat)
    requires k < 8
    ensures ByteBits(LowByte(c))[k] == Bit(c, k)
  {
    NarrowWiden(c);
    LowBitAgrees(c, c & 0xff, k);
  }

  lemma ByteOfWord(c: bv32, i: nat, d: bv32, k: nat)
    requires i < 4 && k < 8
    requires d == if i == 0 then c else if i == 1 then c >> 8 else if i == 2 then c >> 16 else c >> 24
    ensures ByteBits(LowByte(d))[k] == ToWord(c)[8 * i + k]
  {
    LowByteBits(d, k);
    ToWordBytes(c, 8 * i + k);
  }

  lemma LittleEndianBit(c: bv32, i: nat, k: nat)
    requires i < 4 && k < 8
    ensures ByteBits(LittleEndian(c)[i])[k] == ToWord(c)[8 * i + k]
  {
    match i
    case 0 => ByteOfWord(c, 0, c, k);
    case 1 => ByteOfWord(c, 1, c >> 8, k);
    case 2 => ByteOfWord(c, 2, c >> 16, k);
    case _ => ByteOfWord(c, 3, c >> 24, k);
  }

  lemma LittleEndianMessage(c: bv32)
    ensures Message(LittleEndian(c)) == ToWord(c)
  {
    forall j | 0 <= j < 32
      ensures Message(LittleEndian(c))[j] == ToWord(c)[j]
    {
      MessageAt(LittleEndian(c), j / 8, j % 8);
      LittleEndianBit(c, j / 8, j % 8);
    }
  }

  lemma ResidueWord()
    ensures Run(Ones(), 32) == Not(ToWord(RESIDUE))
  {
    var c0: bv32 := 0xffffffff;
    var c1 := ByteStep(c0);
    var c2 := ByteStep(c1);
    var c3 := ByteStep(c2);
    var c4 := ByteStep(c3);
    ToWordByteStep(c0);
    ToWordByteStep(c1);
    ToWordByteStep(c2);
    ToWordByteStep(c3);
    ToWordOnes();
    RunAdds(Ones(), 8, 24);
    RunAdds(ToWord(c1), 8, 16);
    RunAdds(ToWord(c2), 8, 8);
    ResidueConstant();
    ToWordNot(RESIDUE);
  }

  lemma ResidueConstant()
    ensures ByteStep(ByteStep(ByteStep(ByteStep(0xffffffff)))) == !RESIDUE
  {
  }

  lemma {:induction false} RunAdds(w: Word, m: nat, n: nat)
    ensures Run(w, m + n) == Run(Run(w, m), n)
    decreases m
  {
    if m > 0 {
      RunAdds(Step(w), m - 1, n);
    }
  }

  lemma SumWithComplement(r: Word)
    ensures Xor(r, Not(r)) == Ones()
  {
  }

  lemma ComplementFed(r: Word)
    ensures Not(Feed(r, Not(r))) == ToWord(RESIDUE)
  {
    FeedAtOnce(r, Not(r));
    assert Pad(Not(r)) == Not(r);
    SumWithComplement(r);
    ResidueWord();
    assert Not(Not(ToWord(RESIDUE))) == ToWord(RESIDUE);
  }

  lemma TailReference(m: seq<bv8>, c: bv32)
    ensures Reference(m + LittleEndian(c)) == Not(Feed(Feed(Ones(), Message(m)), ToWord(c)))
  {
    MessageConcat(m, LittleEndian(c));
    LittleEndianMessage(c);
    FeedConcat(Ones(), Message(m), ToWord(c));
  }

  /** Appending its checksum to a message always yields the same residue. */
  lemma ResidueReached(m: seq<bv8>)
    ensures Checksum(m + LittleEndian(Checksum(m))) == RESIDUE
  {
    var c := Checksum(m);
    ChecksumIsReference(m);
    ChecksumIsReference(m + LittleEndian(c));
    TailReference(m, c);
    ComplementFed(Feed(Ones(), Message(m)));
    ToWordInjective(Checksum(m + LittleEndian(c)), RESIDUE);
  }

  /** A received message passes the residue test exactly when its last four bytes
      are the checksum of the rest. */
  lemma ResidueTest(m: seq<bv8>, tail: seq<bv8>)
    requires |tail| == 4
    ensures Checksum(m + tail) == RESIDUE <==> tail == LittleEndian(Checksum(m))
  {
    ResidueReached(m);
    if tail != LittleEndian(Checksum(m)) {
      DifferentTails(m, tail, LittleEndian(Checksum(m)));
    }
  }

  // ----- Every checksum is reached by exactly one tail -----

  /** The register one division step earlier: the top bit tells whether the generator was
      subtracted. */
  function BitStepBack(c: bv32): bv32 {
    if c & 0x80000000 != 0 then ((c ^ POLY) << 1) | 1 else c << 1
  }

  function StepsBack(c: bv32, n: nat): bv32 {
    if n == 0 then c else BitStepBack(StepsBack(c, n - 1))
  }

  lemma ShiftedBack(d: bv32)
    requires d & 0x80000000 == 0
    ensures ((d << 1) | 1) >> 1 == d && ((d << 1) | 1) & 1 == 1
    ensures (d << 1) >> 1 == d && (d << 1) & 1 == 0
  {
  }

  lemma TopBitCancels(c: bv32)
    requires c & 0x80000000 != 0
    ensures (c ^ POLY) & 0x80000000 == 0
  {
  }

  lemma XorTwice(c: bv32)
    ensures (c ^ POLY) ^ POLY == c
  {
  }

  lemma BitStepBackInverse(c: bv32)
    ensures BitStep(BitStepBack(c)) == c
  {
    if c & 0x80000000 != 0 {
      TopBitCancels(c);
      ShiftedBack(c ^ POLY);
      XorTwice(c);
    } else {
      ShiftedBack(c);
    }
  }

  lemma {:induction false} StepsBackInverse(c: bv32, n: nat)
    ensures Run(ToWord(StepsBack(c, n)), n) == ToWord(c)
  {
    if n > 0 {
      StepsBackInverse(c, n - 1);
      BitStepBackInverse(StepsBack(c, n - 1));
      ToWordStep(StepsBack(c, n));
    }
  }

  lemma WordOfNot(c: bv32) returns (d: bv32)
    ensures ToWord(d) == Not(ToWord(c))
  {
    ToWordNot(c);
    d := !c;
  }

  lemma WordOfSum(a: bv32, b: bv32) returns (d: bv32)
    ensures ToWord(d) == Xor(ToWord(a), ToWord(b))
  {
    d := Plus(a, b);
  }

  lemma SumTwice(w: Word, x: Word)
    ensures Xor(w, Xor(w, x)) == x
  {
  }

  /** Four bytes can bring any register to any other. */
  lemma FedTo(r: bv32, c: bv32) returns (d: bv32)
    ensures Feed(ToWord(r), ToWord(d)) == ToWord(c)
  {
    var back := StepsBack(c, 32);
    d := WordOfSum(r, back);
    FeedAtOnce(ToWord(r), ToWord(d));
    assert Pad(ToWord(d)) == ToWord(d);
    SumTwice(ToWord(r), ToWord(back));
    StepsBackInverse(c, 32);
  }

  lemma TailReaches(m: seq<bv8>, c: bv32) returns (t: seq<bv8>)
    ensures |t| == 4 && Checksum(m + t) == c
  {
    var r := WordOfNot(Checksum(m));
    var goal := WordOfNot(c);
    var d := FedTo(r, goal);
    LittleEndianMessage(d);
    t := LittleEndian(d);
    ChecksumConcat(m, t);
    assert Not(Not(ToWord(c))) == ToWord(c);
    ToWordInjective(Checksum(m + t), c);
  }

  lemma DifferentTails(m: seq<bv8>, t: seq<bv8>, u: seq<bv8>)
    requires |t| == |u| == 4 && t != u
    ensures Checksum(m + t) != Checksum(m + u)
  {
    assert m + t != m + u by {
      assert (m + t)[|m|..] == t && (m + u)[|m|..] == u;
    }
    WindowChangesChecksum(m + t, m + u, |m|);
  }

  /** For every message and every checksum there is exactly one tail of four bytes that
      gives the message this checksum. */
  lemma OneTail(m: seq<bv8>, c: bv32) returns (t: seq<bv8>)
    ensures |t| == 4
    ensures forall u: seq<bv8> :: |u| == 4 ==> (Checksum(m + u) == c <==> u == t)
  {
    t := TailReaches(m, c);
    forall u: seq<bv8> | |u| == 4 ensures Checksum(m + u) == c <==> u == t {
      if u != t {
        DifferentTails(m, t, u);
      }
    }
  }
}
