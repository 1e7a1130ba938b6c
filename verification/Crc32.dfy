/** The table-driven CRC-32 of the checksum kit, and the proof that it divides the
    message by the generator polynomial one bit at a time.
 */
module Crc32 {
  import opened Gf2

  /** The generator polynomial as a machine word, lowest coefficient in the top bit. */
  const POLY: bv32 := 0xedb88320

  const ROW0: seq<bv32> := [
    0x00000000, 0x77073096, 0xee0e612c, 0x990951ba, 0x076dc419, 0x706af48f, 0xe963a535, 0x9e6495a3,
    0x0edb8832, 0x79dcb8a4, 0xe0d5e91e, 0x97d2d988, 0x09b64c2b, 0x7eb17cbd, 0xe7b82d07, 0x90bf1d91]
  const ROW1: seq<bv32> := [
    0x1db71064, 0x6ab020f2, 0xf3b97148, 0x84be41de, 0x1adad47d, 0x6ddde4eb, 0xf4d4b551, 0x83d385c7,
    0x136c9856, 0x646ba8c0, 0xfd62f97a, 0x8a65c9ec, 0x14015c4f, 0x63066cd9, 0xfa0f3d63, 0x8d080df5]
  const ROW2: seq<bv32> := [
    0x3b6e20c8, 0x4c69105e, 0xd56041e4, 0xa2677172, 0x3c03e4d1, 0x4b04d447, 0xd20d85fd, 0xa50ab56b,
    0x35b5a8fa, 0x42b2986c, 0xdbbbc9d6, 0xacbcf940, 0x32d86ce3, 0x45df5c75, 0xdcd60dcf, 0xabd13d59]
  const ROW3: seq<bv32> := [
    0x26d930ac, 0x51de003a, 0xc8d75180, 0xbfd06116, 0x21b4f4b5, 0x56b3c423, 0xcfba9599, 0xb8bda50f,
    0x2802b89e, 0x5f058808, 0xc60cd9b2, 0xb10be924, 0x2f6f7c87, 0x58684c11, 0xc1611dab, 0xb6662d3d]
  const ROW4: seq<bv32> := [
    0x76dc4190, 0x01db7106, 0x98d220bc, 0xefd5102a, 0x71b18589, 0x06b6b51f, 0x9fbfe4a5, 0xe8b8d433,
    0x7807c9a2, 0x0f00f934, 0x9609a88e, 0xe10e9818, 0x7f6a0dbb, 0x086d3d2d, 0x91646c97, 0xe6635c01]
  const ROW5: seq<bv32> := [
    0x6b6b51f4, 0x1c6c6162, 0x856530d8, 0xf262004e, 0x6c0695ed, 0x1b01a57b, 0x8208f4c1, 0xf50fc457,
    0x65b0d9c6, 0x12b7e950, 0x8bbeb8ea, 0xfcb9887c, 0x62dd1ddf, 0x15da2d49, 0x8cd37cf3, 0xfbd44c65]
  const ROW6: seq<bv32> := [
    0x4db26158, 0x3ab551ce, 0xa3bc0074, 0xd4bb30e2, 0x4adfa541, 0x3dd895d7, 0xa4d1c46d, 0xd3d6f4fb,
    0x4369e96a, 0x346ed9fc, 0xad678846, 0xda60b8d0, 0x44042d73, 0x33031de5, 0xaa0a4c5f, 0xdd0d7cc9]
  const ROW7: seq<bv32> := [
    0x5005713c, 0x270241aa, 0xbe0b1010, 0xc90c2086, 0x5768b525, 0x206f85b3, 0xb966d409, 0xce61e49f,
    0x5edef90e, 0x29d9c998, 0xb0d09822, 0xc7d7a8b4, 0x59b33d17, 0x2eb40d81, 0xb7bd5c3b, 0xc0ba6cad]
  const ROW8: seq<bv32> := [
    0xedb88320, 0x9abfb3b6, 0x03b6e20c, 0x74b1d29a, 0xead54739, 0x9dd277af, 0x04db2615, 0x73dc1683,
    0xe3630b12, 0x94643b84, 0x0d6d6a3e, 0x7a6a5aa8, 0xe40ecf0b, 0x9309ff9d, 0x0a00ae27, 0x7d079eb1]
  const ROW9: seq<bv32> := [
    0xf00f9344, 0x8708a3d2, 0x1e01f268, 0x6906c2fe, 0xf762575d, 0x806567cb, 0x196c3671, 0x6e6b06e7,
    0xfed41b76, 0x89d32be0, 0x10da7a5a, 0x67dd4acc, 0xf9b9df6f, 0x8ebeeff9, 0x17b7be43, 0x60b08ed5]
  const ROW10: seq<bv32> := [
    0xd6d6a3e8, 0xa1d1937e, 0x38d8c2c4, 0x4fdff252, 0xd1bb67f1, 0xa6bc5767, 0x3fb506dd, 0x48b2364b,
    0xd80d2bda, 0xaf0a1b4c, 0x36034af6, 0x41047a60, 0xdf60efc3, 0xa867df55, 0x316e8eef, 0x4669be79]
  const ROW11: seq<bv32> := [
    0xcb61b38c, 0xbc66831a, 0x256fd2a0, 0x5268e236, 0xcc0c7795, 0xbb0b4703, 0x220216b9, 0x5505262f,
    0xc5ba3bbe, 0xb2bd0b28, 0x2bb45a92, 0x5cb36a04, 0xc2d7ffa7, 0xb5d0cf31, 0x2cd99e8b, 0x5bdeae1d]
  const ROW12: seq<bv32> := [
    0x9b64c2b0, 0xec63f226, 0x756aa39c, 0x026d930a, 0x9c0906a9, 0xeb0e363f, 0x72076785, 0x05005713,
    0x95bf4a82, 0xe2b87a14, 0x7bb12bae, 0x0cb61b38, 0x92d28e9b, 0xe5d5be0d, 0x7cdcefb7, 0x0bdbdf21]
  const ROW13: seq<bv32> := [
    0x86d3d2d4, 0xf1d4e242, 0x68ddb3f8, 0x1fda836e, 0x81be16cd, 0xf6b9265b, 0x6fb077e1, 0x18b74777,
    0x88085ae6, 0xff0f6a70, 0x66063bca, 0x11010b5c, 0x8f659eff, 0xf862ae69, 0x616bffd3, 0x166ccf45]
  const ROW14: seq<bv32> := [
    0xa00ae278, 0xd70dd2ee, 0x4e048354, 0x3903b3c2, 0xa7672661, 0xd06016f7, 0x4969474d, 0x3e6e77db,
    0xaed16a4a, 0xd9d65adc, 0x40df0b66, 0x37d83bf0, 0xa9bcae53, 0xdebb9ec5, 0x47b2cf7f, 0x30b5ffe9]
  const ROW15: seq<bv32> := [
    0xbdbdf21c, 0xcabac28a, 0x53b39330, 0x24b4a3a6, 0xbad03605, 0xcdd70693, 0x54de5729, 0x23d967bf,
    0xb3667a2e, 0xc4614ab8, 0x5d681b02, 0x2a6f2b94, 0xb40bbe37, 0xc30c8ea1, 0x5a05df1b, 0x2d02ef8d]

  /** The lookup table, sixteen entries to a row. */
  const CRC32_TABLE: seq<seq<bv32>> := [
    ROW0, ROW1, ROW2, ROW3, ROW4, ROW5, ROW6, ROW7,
    ROW8, ROW9, ROW10, ROW11, ROW12, ROW13, ROW14, ROW15]

  function Lookup(i: bv32): bv32
    requires i < 256
  {
    CRC32_TABLE[(i >> 4) as int][(i & 15) as int]
  }

  /** Exclusive or of machine words adds the polynomials they stand for. */
  function Plus(a: bv32, b: bv32): (r: bv32)
    ensures ToWord(r) == Xor(ToWord(a), ToWord(b))
  {
    ToWordXor(a, b);
    a ^ b
  }

  function TableStep(c: bv32, b: bv8): bv32 {
    Plus((c >> 8) & 0x00ffffff, Lookup((c ^ (b as bv32)) & 0xff))
  }

  function TableRun(c: bv32, buffer: seq<bv8>): bv32
    decreases |buffer|
  {
    if buffer == [] then c
    else TableStep(TableRun(c, buffer[..|buffer| - 1]), buffer[|buffer| - 1])
  }

  /** The value that `CRC32` computes. */
  function Checksum(buffer: seq<bv8>): bv32 {
    if buffer == [] then 0 else !TableRun(0xffffffff, buffer)
  }

  // ----- Machine words as polynomials -----

  predicate Bit(c: bv32, k: nat)
    decreases k
  {
    if k == 0 then c & 1 == 1 else Bit(c >> 1, k - 1)
  }

  function ToWord(c: bv32): (w: Word) {
    seq(32, k requires 0 <= k < 32 => Bit(c, k))
  }

  /** The eight message bits of a byte, lowest first. */
  function ByteBits(b: bv8): (u: seq<bool>)
    ensures |u| == 8
  {
    ToWord(b as bv32)[..8]
  }

  function Message(buffer: seq<bv8>): (u: seq<bool>)
    ensures |u| == 8 * |buffer|
    decreases |buffer|
  {
    if buffer == [] then []
    else Message(buffer[..|buffer| - 1]) + ByteBits(buffer[|buffer| - 1])
  }

  /** The reference definition: complement, divide bit by bit, complement. */
  function Reference(buffer: seq<bv8>): Word {
    Not(Feed(Ones(), Message(buffer)))
  }

  lemma OddXor(a: bv32, b: bv32)
    ensures ((a ^ b) & 1 == 1) == ((a & 1 == 1) != (b & 1 == 1))
  {
  }

  lemma PushShift(a: bv32, b: bv32, k: nat)
    requires k > 0
    ensures Bit(a ^ b, k) == Bit((a >> 1) ^ (b >> 1), k - 1)
  {
    assert Bit(a ^ b, k) == Bit((a ^ b) >> 1, k - 1);
  }

  lemma {:induction false} BitXor(a: bv32, b: bv32, k: nat)
    ensures Bit(a ^ b, k) == (Bit(a, k) != Bit(b, k))
    decreases k
  {
    if k == 0 {
      OddXor(a, b);
    } else {
      PushShift(a, b, k);
      BitXor(a >> 1, b >> 1, k - 1);
    }
  }

  lemma ToWordXor(a: bv32, b: bv32)
    ensures ToWord(a ^ b) == Xor(ToWord(a), ToWord(b))
  {
    forall k | 0 <= k < 32
      ensures ToWord(a ^ b)[k] == Xor(ToWord(a), ToWord(b))[k]
    {
      BitXor(a, b, k);
    }
  }

  lemma SkipByte(c: bv32, k: nat)
    ensures Bit(c, k + 8) == Bit(c >> 8, k)
  {
    assert Bit(c, k + 8) == Bit(c >> 1, k + 7) == Bit(c >> 2, k + 6)
        == Bit(c >> 3, k + 5) == Bit(c >> 4, k + 4) == Bit(c >> 5, k + 3)
        == Bit(c >> 6, k + 2) == Bit(c >> 7, k + 1) == Bit(c >> 8, k);
  }

  lemma SkipTwoBytes(c: bv32, k: nat)
    ensures Bit(c, k + 16) == Bit(c >> 16, k)
  {
    calc {
      Bit(c, k + 16);
      { SkipByte(c, k + 8); }
      Bit(c >> 8, k + 8);
      { SkipByte(c >> 8, k); }
      Bit((c >> 8) >> 8, k);
      { assert (c >> 8) >> 8 == c >> 16; }
      Bit(c >> 16, k);
    }
  }

  lemma SkipThreeBytes(c: bv32, k: nat)
    ensures Bit(c, k + 24) == Bit(c >> 24, k)
  {
    calc {
      Bit(c, k + 24);
      { SkipByte(c, k + 16); }
      Bit(c >> 8, k + 16);
      { SkipTwoBytes(c >> 8, k); }
      Bit((c >> 8) >> 16, k);
      { assert (c >> 8) >> 16 == c >> 24; }
      Bit(c >> 24, k);
    }
  }

  lemma TopBitClear(c: bv32)
    ensures !Bit(c >> 1, 31)
  {
    SkipThreeBytes(c >> 1, 7);
    SmallBits(c >> 25);
  }

  lemma SmallBits(c: bv32)
    requires c < 0x80
    ensures !Bit(c, 7)
  {
  }

  lemma ZeroByte(c: bv32)
    requires forall k :: 0 <= k < 8 ==> !Bit(c, k)
    ensures c & 0xff == 0
  {
    assert !Bit(c, 0) && !Bit(c, 1) && !Bit(c, 2) && !Bit(c, 3);
    assert !Bit(c, 4) && !Bit(c, 5) && !Bit(c, 6) && !Bit(c, 7);
  }

  lemma ZeroWord(c: bv32)
    requires forall k :: 0 <= k < 32 ==> !Bit(c, k)
    ensures c == 0
  {
    var d, e, f := c >> 8, c >> 16, c >> 24;
    forall k | 0 <= k < 8
      ensures !Bit(d, k) && !Bit(e, k) && !Bit(f, k)
    {
      SkipByte(c, k);
      SkipTwoBytes(c, k);
      SkipThreeBytes(c, k);
    }
    ZeroByte(c);
    ZeroByte(d);
    ZeroByte(e);
    ZeroByte(f);
  }

  lemma XorZero(a: bv32, b: bv32)
    requires a ^ b == 0
    ensures a == b
  {
  }

  lemma ToWordInjective(a: bv32, b: bv32)
    requires ToWord(a) == ToWord(b)
    ensures a == b
  {
    var c := a ^ b;
    forall k | 0 <= k < 32
      ensures !Bit(c, k)
    {
      assert ToWord(a)[k] == ToWord(b)[k];
      BitXor(a, b, k);
    }
    ZeroWord(c);
    XorZero(a, b);
  }

  /** The low eight bits, each read off by one shift. */
  lemma LowBits(c: bv32)
    ensures Bit(c, 0) == (c & 1 == 1) && Bit(c, 1) == ((c >> 1) & 1 == 1)
    ensures Bit(c, 2) == ((c >> 2) & 1 == 1) && Bit(c, 3) == ((c >> 3) & 1 == 1)
    ensures Bit(c, 4) == ((c >> 4) & 1 == 1) && Bit(c, 5) == ((c >> 5) & 1 == 1)
    ensures Bit(c, 6) == ((c >> 6) & 1 == 1) && Bit(c, 7) == ((c >> 7) & 1 == 1)
  {
  }

  /** Reads a word off its four bytes. */
  lemma ToWordBytes(c: bv32, k: nat)
    requires k < 32
    ensures k < 8 ==> ToWord(c)[k] == Bit(c, k)
    ensures 8 <= k < 16 ==> ToWord(c)[k] == Bit(c >> 8, k - 8)
    ensures 16 <= k < 24 ==> ToWord(c)[k] == Bit(c >> 16, k - 16)
    ensures 24 <= k ==> ToWord(c)[k] == Bit(c >> 24, k - 24)
  {
    if 8 <= k < 16 {
      SkipByte(c, k - 8);
    } else if 16 <= k < 24 {
      SkipTwoBytes(c, k - 16);
    } else if 24 <= k {
      SkipThreeBytes(c, k - 24);
    }
  }

  lemma ToWordOnes()
    ensures ToWord(0xffffffff) == Ones()
  {
    forall k | 0 <= k < 32
      ensures ToWord(0xffffffff)[k]
    {
      ToWordBytes(0xffffffff, k);
      LowBits(0xffffffff);
      LowBits(0x00ffffff);
      LowBits(0x0000ffff);
      LowBits(0x000000ff);
    }
  }

  lemma ToWordPoly()
    ensures ToWord(POLY) == Taps()
  {
    forall k | 0 <= k < 32
      ensures ToWord(POLY)[k] == Taps()[k]
    {
      ToWordBytes(POLY, k);
      LowBits(0xedb88320);
      LowBits(0x00edb883);
      LowBits(0x0000edb8);
      LowBits(0x000000ed);
    }
  }

  lemma ToWordNot(a: bv32)
    ensures ToWord(!a) == Not(ToWord(a))
  {
    assert !a == a ^ 0xffffffff;
    ToWordXor(a, 0xffffffff);
    ToWordOnes();
  }

  // ----- The table -----

  function BitStep(c: bv32): bv32 {
    if c & 1 == 1 then (c >> 1) ^ POLY else c >> 1
  }

  function ByteStep(c: bv32): bv32 {
    BitStep(BitStep(BitStep(BitStep(BitStep(BitStep(BitStep(BitStep(c))))))))
  }

  lemma Row0Correct(k: bv32)
    requires k < 16
    ensures ROW0[k as int] == ByteStep(0x00 + k)
  {
    match k
    case 0 => case 1 => case 2 => case 3 => case 4 => case 5 => case 6 => case 7 =>
    case 8 => case 9 => case 10 => case 11 => case 12 => case 13 => case 14 => case _ =>
  }

  lemma Row1Correct(k: bv32)
    requires k < 16
    ensures ROW1[k as int] == ByteStep(0x10 + k)
  {
    match k
    case 0 => case 1 => case 2 => case 3 => case 4 => case 5 => case 6 => case 7 =>
    case 8 => case 9 => case 10 => case 11 => case 12 => case 13 => case 14 => case _ =>
  }

  lemma Row2Correct(k: bv32)
    requires k < 16
    ensures ROW2[k as int] == ByteStep(0x20 + k)
  {
    match k
    case 0 => case 1 => case 2 => case 3 => case 4 => case 5 => case 6 => case 7 =>
    case 8 => case 9 => case 10 => case 11 => case 12 => case 13 => case 14 => case _ =>
  }

  lemma Row3Correct(k: bv32)
    requires k < 16
    ensures ROW3[k as int] == ByteStep(0x30 + k)
  {
    match k
    case 0 => case 1 => case 2 => case 3 => case 4 => case 5 => case 6 => case 7 =>
    case 8 => case 9 => case 10 => case 11 => case 12 => case 13 => case 14 => case _ =>
  }

  lemma Row4Correct(k: bv32)
    requires k < 16
    ensures ROW4[k as int] == ByteStep(0x40 + k)
  {
    match k
    case 0 => case 1 => case 2 => case 3 => case 4 => case 5 => case 6 => case 7 =>
    case 8 => case 9 => case 10 => case 11 => case 12 => case 13 => case 14 => case _ =>
  }

  lemma Row5Correct(k: bv32)
    requires k < 16
    ensures ROW5[k as int] == ByteStep(0x50 + k)
  {
    match k
    case 0 => case 1 => case 2 => case 3 => case 4 => case 5 => case 6 => case 7 =>
    case 8 => case 9 => case 10 => case 11 => case 12 => case 13 => case 14 => case _ =>
  }

  lemma Row6Correct(k: bv32)
    requires k < 16
    ensures ROW6[k as int] == ByteStep(0x60 + k)
  {
    match k
    case 0 => case 1 => case 2 => case 3 => case 4 => case 5 => case 6 => case 7 =>
    case 8 => case 9 => case 10 => case 11 => case 12 => case 13 => case 14 => case _ =>
  }

  lemma Row7Correct(k: bv32)
    requires k < 16
    ensures ROW7[k as int] == ByteStep(0x70 + k)
  {
    match k
    case 0 => case 1 => case 2 => case 3 => case 4 => case 5 => case 6 => case 7 =>
    case 8 => case 9 => case 10 => case 11 => case 12 => case 13 => case 14 => case _ =>
  }

  lemma Row8Correct(k: bv32)
    requires k < 16
    ensures ROW8[k as int] == ByteStep(0x80 + k)
  {
    match k
    case 0 => case 1 => case 2 => case 3 => case 4 => case 5 => case 6 => case 7 =>
    case 8 => case 9 => case 10 => case 11 => case 12 => case 13 => case 14 => case _ =>
  }

  lemma Row9Correct(k: bv32)
    requires k < 16
    ensures ROW9[k as int] == ByteStep(0x90 + k)
  {
    match k
    case 0 => case 1 => case 2 => case 3 => case 4 => case 5 => case 6 => case 7 =>
    case 8 => case 9 => case 10 => case 11 => case 12 => case 13 => case 14 => case _ =>
  }

  lemma Row10Correct(k: bv32)
    requires k < 16
    ensures ROW10[k as int] == ByteStep(0xa0 + k)
  {
    match k
    case 0 => case 1 => case 2 => case 3 => case 4 => case 5 => case 6 => case 7 =>
    case 8 => case 9 => case 10 => case 11 => case 12 => case 13 => case 14 => case _ =>
  }

  lemma Row11Correct(k: bv32)
    requires k < 16
    ensures ROW11[k as int] == ByteStep(0xb0 + k)
  {
    match k
    case 0 => case 1 => case 2 => case 3 => case 4 => case 5 => case 6 => case 7 =>
    case 8 => case 9 => case 10 => case 11 => case 12 => case 13 => case 14 => case _ =>
  }

  lemma Row12Correct(k: bv32)
    requires k < 16
    ensures ROW12[k as int] == ByteStep(0xc0 + k)
  {
    match k
    case 0 => case 1 => case 2 => case 3 => case 4 => case 5 => case 6 => case 7 =>
    case 8 => case 9 => case 10 => case 11 => case 12 => case 13 => case 14 => case _ =>
  }

  lemma Row13Correct(k: bv32)
    requires k < 16
    ensures ROW13[k as int] == ByteStep(0xd0 + k)
  {
    match k
    case 0 => case 1 => case 2 => case 3 => case 4 => case 5 => case 6 => case 7 =>
    case 8 => case 9 => case 10 => case 11 => case 12 => case 13 => case 14 => case _ =>
  }

  lemma Row14Correct(k: bv32)
    requires k < 16
    ensures ROW14[k as int] == ByteStep(0xe0 + k)
  {
    match k
    case 0 => case 1 => case 2 => case 3 => case 4 => case 5 => case 6 => case 7 =>
    case 8 => case 9 => case 10 => case 11 => case 12 => case 13 => case 14 => case _ =>
  }

  lemma Row15Correct(k: bv32)
    requires k < 16
    ensures ROW15[k as int] == ByteStep(0xf0 + k)
  {
    match k
    case 0 => case 1 => case 2 => case 3 => case 4 => case 5 => case 6 => case 7 =>
    case 8 => case 9 => case 10 => case 11 => case 12 => case 13 => case 14 => case _ =>
  }

  lemma Entry(r: bv32, k: bv32)
    requires r < 16 && k < 16
    ensures CRC32_TABLE[r as int][k as int] == ByteStep((r << 4) + k)
  {
    match r
    case 0 => Row0Correct(k);
    case 1 => Row1Correct(k);
    case 2 => Row2Correct(k);
    case 3 => Row3Correct(k);
    case 4 => Row4Correct(k);
    case 5 => Row5Correct(k);
    case 6 => Row6Correct(k);
    case 7 => Row7Correct(k);
    case 8 => Row8Correct(k);
    case 9 => Row9Correct(k);
    case 10 => Row10Correct(k);
    case 11 => Row11Correct(k);
    case 12 => Row12Correct(k);
    case 13 => Row13Correct(k);
    case 14 => Row14Correct(k);
    case _ => Row15Correct(k);
  }

  lemma IndexSplits(i: bv32)
    requires i < 256
    ensures i >> 4 < 16 && i & 15 < 16 && ((i >> 4) << 4) + (i & 15) == i
  {
  }

  /** Every one of the 256 entries is eight division steps of its index. */
  lemma TableCorrect(i: bv32)
    requires i < 256
    ensures Lookup(i) == ByteStep(i)
  {
    IndexSplits(i);
    Entry(i >> 4, i & 15);
  }

  lemma ToWordShift(c: bv32)
    ensures ToWord(c >> 1) == Shift(ToWord(c))
  {
    TopBitClear(c);
  }

  lemma ToWordStep(c: bv32)
    ensures ToWord(BitStep(c)) == Step(ToWord(c))
  {
    ToWordShift(c);
    ToWordPoly();
    if c & 1 == 1 {
      ToWordXor(c >> 1, POLY);
    }
  }

  lemma ToWordByteStep(c: bv32)
    ensures ToWord(ByteStep(c)) == Run(ToWord(c), 8)
  {
    var c1 := BitStep(c);
    var c2 := BitStep(c1);
    var c3 := BitStep(c2);
    var c4 := BitStep(c3);
    var c5 := BitStep(c4);
    var c6 := BitStep(c5);
    var c7 := BitStep(c6);
    ToWordStep(c);
    ToWordStep(c1);
    ToWordStep(c2);
    ToWordStep(c3);
    ToWordStep(c4);
    ToWordStep(c5);
    ToWordStep(c6);
    ToWordStep(c7);
    EightSteps(ToWord(c));
  }

  lemma EightSteps(w: Word)
    ensures Run(w, 8) == Step(Step(Step(Step(Step(Step(Step(Step(w))))))))
  {
    var w4 := Step(Step(Step(Step(w))));
    assert Run(w, 8) == Run(w4, 4);
    assert Run(w4, 4) == Step(Step(Step(Step(w4))));
  }

  /** A byte reaches the division register as eight padded message bits. */
  lemma ToWordByte(b: bv8)
    ensures ToWord(b as bv32) == Pad(ByteBits(b))
  {
    var c := b as bv32;
    forall k | 8 <= k < 32
      ensures !ToWord(c)[k]
    {
      SkipByte(c, k - 8);
      assert c >> 8 == 0;
      BitZero(k - 8);
    }
  }

  lemma {:induction false} BitZero(k: nat)
    ensures !Bit(0, k)
    decreases k
  {
    if k > 0 {
      assert (0 as bv32) >> 1 == 0;
      BitZero(k - 1);
    }
  }

  /** The high part of a register passes through eight steps as a plain shift. */
  lemma HighPart(c: bv32, b: bv8)
    ensures ByteStep((c ^ (b as bv32)) & 0xffffff00) == (c >> 8) & 0x00ffffff
  {
  }

  lemma Halves(x: bv32)
    ensures (x & 0xffffff00) ^ (x & 0xff) == x
  {
  }

  lemma SplitInto(x: bv32, high: bv32, low: bv32)
    requires high ^ low == x
    ensures ToWord(x) == Xor(ToWord(high), ToWord(low))
  {
    ToWordXor(high, low);
  }

  lemma SplitWord(x: bv32)
    ensures ToWord(x) == Xor(ToWord(x & 0xffffff00), ToWord(x & 0xff))
  {
    Halves(x);
    SplitInto(x, x & 0xffffff00, x & 0xff);
  }

  lemma HighWord(c: bv32, b: bv8)
    ensures ToWord((c >> 8) & 0x00ffffff) == Run(ToWord((c ^ (b as bv32)) & 0xffffff00), 8)
  {
    HighPart(c, b);
    ToWordByteStep((c ^ (b as bv32)) & 0xffffff00);
  }

  lemma LowWord(i: bv32)
    requires i < 256
    ensures ToWord(Lookup(i)) == Run(ToWord(i), 8)
  {
    TableCorrect(i);
    ToWordByteStep(i);
  }

  lemma MixWord(c: bv32, b: bv8)
    ensures ToWord(c ^ (b as bv32)) == Xor(ToWord(c), Pad(ByteBits(b)))
  {
    ToWordXor(c, b as bv32);
    ToWordByte(b);
  }

  lemma TableStepWords(c: bv32, b: bv8) returns (high: Word, low: Word)
    ensures ToWord(TableStep(c, b)) == Xor(Run(high, 8), Run(low, 8))
    ensures Xor(high, low) == Xor(ToWord(c), Pad(ByteBits(b)))
  {
    high := ToWord((c ^ (b as bv32)) & 0xffffff00);
    low := ToWord((c ^ (b as bv32)) & 0xff);
    HighWord(c, b);
    LowWord((c ^ (b as bv32)) & 0xff);
    SplitMix(c, b);
  }

  lemma SplitMix(c: bv32, b: bv8)
    ensures Xor(ToWord((c ^ (b as bv32)) & 0xffffff00), ToWord((c ^ (b as bv32)) & 0xff)) == Xor(ToWord(c), Pad(ByteBits(b)))
  {
    SplitWord(c ^ (b as bv32));
    MixWord(c, b);
  }

  /** One table step is eight division steps over the bits of the byte. */
  lemma TableStepCorrect(c: bv32, b: bv8)
    ensures ToWord(TableStep(c, b)) == Feed(ToWord(c), ByteBits(b))
  {
    var high, low := TableStepWords(c, b);
    RunLinear(high, low, 8);
    FeedAtOnce(ToWord(c), ByteBits(b));
  }

  lemma {:induction false} TableRunCorrect(c: bv32, buffer: seq<bv8>)
    ensures ToWord(TableRun(c, buffer)) == Feed(ToWord(c), Message(buffer))
    decreases |buffer|
  {
    if buffer != [] {
      var init, b := buffer[..|buffer| - 1], buffer[|buffer| - 1];
      TableRunCorrect(c, init);
      TableStepCorrect(TableRun(c, init), b);
      FeedConcat(ToWord(c), Message(init), ByteBits(b));
    }
  }

  /** The table-driven checksum is the bit-at-a-time one, the empty buffer included. */
  lemma ChecksumIsReference(buffer: seq<bv8>)
    ensures ToWord(Checksum(buffer)) == Reference(buffer)
    ensures ToWord(Checksum(buffer)) == Not(LongDivision(Dividend(Ones(), Message(buffer))))
  {
    FeedIsLongDivision(Ones(), Message(buffer));
    ToWordOnes();
    TableRunCorrect(0xffffffff, buffer);
    ToWordNot(TableRun(0xffffffff, buffer));
    if buffer == [] {
      assert !(0xffffffff as bv32) == 0;
    }
  }

  /** `CacheableHelper.CRC32`: a null or empty buffer yields 0. */
  method CRC32(buffer: array?<bv8>) returns (crc: bv32)
    ensures crc == Checksum(if buffer == null then [] else buffer[..])
    ensures ToWord(crc) == Reference(if buffer == null then [] else buffer[..])
  {
    ChecksumIsReference(if buffer == null then [] else buffer[..]);
    if buffer == null || buffer.Length == 0 {
      return 0;
    }
    var crc32: bv32 := 0xffffffff;
    for i := 0 to buffer.Length
      invariant crc32 == TableRun(0xffffffff, buffer[..i])
    {
      assert buffer[..i + 1][..i] == buffer[..i];
      crc32 := TableStep(crc32, buffer[i]);
    }
    assert buffer[..buffer.Length] == buffer[..];
    return !crc32;
  }
}
