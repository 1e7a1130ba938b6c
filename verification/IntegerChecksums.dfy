/** The checksums of integers and dates: the byte loops over signed values.

    C# integers are modelled as mathematical integers inside their type's range. On
    them `value & 0xff` is the remainder and the arithmetic shift `value >> 8` the
    quotient of Euclidean division by 256.
 */
module IntegerChecksums {
  import opened Gf2
  import opened Crc32
  import opened Crc32Laws
  import opened MachineIntegers
  import opened Wrappers
  import opened Dates

  function ToNibble(x: int): bv8
    requires 0 <= x < 16
  {
    (if x >= 8 then 8 else 0) | (if x % 8 >= 4 then 4 else 0) | (if x % 4 >= 2 then 2 else 0) | (if x % 2 == 1 then 1 else 0)
  }

  function FromNibble(b: bv8): (x: nat)
    ensures x < 16
  {
    (if b & 8 != 0 then 8 else 0) + (if b & 4 != 0 then 4 else 0) + (if b & 2 != 0 then 2 else 0) + (if b & 1 != 0 then 1 else 0)
  }

  /** The cast from an integer to a byte. */
  function ToByte(value: int): bv8 {
    var x := value % 256;
    (ToNibble(x / 16) << 4) | ToNibble(x % 16)
  }

  function FromByte(b: bv8): (x: nat)
    ensures x < 256
  {
    16 * FromNibble(b >> 4) + FromNibble(b & 15)
  }

  lemma NibbleRoundTrip(x: int)
    requires 0 <= x < 16
    ensures ToNibble(x) < 16 && FromNibble(ToNibble(x)) == x
  {
  }

  lemma JoinNibbles(h: bv8, l: bv8)
    requires h < 16 && l < 16
    ensures ((h << 4) | l) >> 4 == h && ((h << 4) | l) & 15 == l
  {
  }

  lemma ByteRoundTrip(value: int)
    ensures FromByte(ToByte(value)) == value % 256
  {
    var x := value % 256;
    var h, l := x / 16, x % 16;
    NibbleRoundTrip(h);
    NibbleRoundTrip(l);
    JoinNibbles(ToNibble(h), ToNibble(l));
  }

  lemma FromByteIsValue(b: bv8)
    ensures FromByte(b) == b as int
  {
  }

  /** The cast keeps the low eight bits. */
  lemma CastKeepsLowByte(value: int)
    ensures ToByte(value) as int == value % 256
  {
    ByteRoundTrip(value);
    FromByteIsValue(ToByte(value));
  }

  function Bytes(value: int, numBytes: nat): (b: seq<bv8>)
    ensures |b| == numBytes
    decreases numBytes
  {
    if numBytes == 0 then [] else [ToByte(value)] + Bytes(value / 256, numBytes - 1)
  }

  /** The unsigned value of a little-endian buffer. */
  function Value(b: seq<bv8>): nat {
    if b == [] then 0 else FromByte(b[0]) + 256 * Value(b[1..])
  }

  function Span(numBytes: nat): (n: nat)
    ensures n > 0
  {
    if numBytes == 0 then 1 else 256 * Span(numBytes - 1)
  }

  /** The byte loop keeps the value modulo the width of the buffer. */
  lemma {:induction false} BytesValue(value: int, numBytes: nat) returns (k: int)
    ensures value == Value(Bytes(value, numBytes)) + k * Span(numBytes)
    ensures 0 <= Value(Bytes(value, numBytes)) < Span(numBytes)
    decreases numBytes
  {
    if numBytes == 0 {
      k := value;
    } else {
      var high := value / 256;
      ByteRoundTrip(value);
      k := BytesValue(high, numBytes - 1);
      assert Bytes(value, numBytes)[1..] == Bytes(high, numBytes - 1);
      Distribute(high, Value(Bytes(high, numBytes - 1)), k, Span(numBytes - 1));
    }
  }

  lemma Distribute(high: int, v: int, k: int, m: int)
    requires high == v + k * m
    ensures 256 * high == 256 * v + k * (256 * m)
  {
  }

  lemma MultiplesAreApart(k: int, d: int)
    requires d > 0
    ensures k >= 1 ==> k * d >= d
    ensures k <= -1 ==> k * d <= -d
  {
  }

  lemma SameResidue(v: int, w: int, u: int, k: int, k': int, d: int)
    requires d > 0 && v == u + k * d && w == u + k' * d
    requires v - d < w < v + d
    ensures v == w
  {
    MultiplesAreApart(k - k', d);
    assert v - w == (k - k') * d;
  }

  /** Two values no wider apart than the buffer have the same bytes only if equal. */
  lemma BytesInjective(v: int, w: int, numBytes: nat)
    requires Bytes(v, numBytes) == Bytes(w, numBytes)
    requires v - Span(numBytes) < w < v + Span(numBytes)
    ensures v == w
  {
    var k := BytesValue(v, numBytes);
    var k' := BytesValue(w, numBytes);
    SameResidue(v, w, Value(Bytes(v, numBytes)), k, k', Span(numBytes));
  }

  /** Two's complement reading of a little-endian buffer. */
  function SignedValue(b: seq<bv8>): int {
    var u: int, d: int := Value(b), Span(|b|);
    if 2 * u < d then u else u - d
  }

  lemma SignedResidue(value: int, u: int, k: int, d: int)
    requires 0 <= u < d && value == u + k * d && 0 <= 2 * value + d < 2 * d
    ensures value == if 2 * u < d then u else u - d
  {
    MultiplesAreApart(k, d);
    MultiplesAreApart(k + 1, d);
    assert (k + 1) * d == k * d + d;
  }

  /** The shift-and-mask loop decodes back to the signed value it started from. */
  lemma BytesRoundTrip(value: int, numBytes: nat)
    requires 0 <= 2 * value + Span(numBytes) < 2 * Span(numBytes)
    ensures SignedValue(Bytes(value, numBytes)) == value
  {
    var k := BytesValue(value, numBytes);
    SignedResidue(value, Value(Bytes(value, numBytes)), k, Span(numBytes));
  }

  /** The loop shared by the integer wrappers' `GetChecksum`. */
  method IntegerBuffer(v: int, numBytes: nat) returns (buffer: array<bv8>)
    ensures fresh(buffer)
    ensures buffer[..] == Bytes(v, numBytes)
  {
    var value := v;
    buffer := new bv8[numBytes];
    for i := 0 to numBytes
      invariant buffer[..i] == Bytes(v, numBytes)[..i]
      invariant Bytes(value, numBytes - i) == Bytes(v, numBytes)[i..]
    {
      buffer[i] := ToByte(value);
      assert buffer[i] == Bytes(value, numBytes - i)[0];
      value := value / 256;
    }
    assert buffer[..numBytes] == buffer[..];
  }

  method IntegerChecksum(v: int, numBytes: nat) returns (cks: bv32)
    ensures cks == Checksum(Bytes(v, numBytes))
  {
    var buffer := IntegerBuffer(v, numBytes);
    cks := CRC32(buffer);
  }

  /** The checksum of an integer of up to four bytes identifies it. */
  lemma IntegerChecksumInjective(v: int, w: int, numBytes: nat)
    requires numBytes <= 4
    requires v - Span(numBytes) < w < v + Span(numBytes)
    ensures Checksum(Bytes(v, numBytes)) == Checksum(Bytes(w, numBytes)) <==> v == w
  {
    ShortChecksumInjective(Bytes(v, numBytes), Bytes(w, numBytes));
    if Bytes(v, numBytes) == Bytes(w, numBytes) {
      BytesInjective(v, w, numBytes);
    }
  }

  lemma SByteChecksumInjective(v: SByte, w: SByte)
    ensures Checksum(Bytes(v, 1)) == Checksum(Bytes(w, 1)) <==> v == w
  {
    IntegerChecksumInjective(v, w, 1);
  }

  lemma Int16ChecksumInjective(v: Int16, w: Int16)
    ensures Checksum(Bytes(v, 2)) == Checksum(Bytes(w, 2)) <==> v == w
  {
    IntegerChecksumInjective(v, w, 2);
  }

  lemma CharChecksumInjective(v: Char16, w: Char16)
    ensures Checksum(Bytes(v, 2)) == Checksum(Bytes(w, 2)) <==> v == w
  {
    IntegerChecksumInjective(v, w, 2);
  }

  lemma Int32ChecksumInjective(v: Int32, w: Int32)
    ensures Checksum(Bytes(v, 4)) == Checksum(Bytes(w, 4)) <==> v == w
  {
    assert Span(4) == 0x1_0000_0000;
    IntegerChecksumInjective(v, w, 4);
  }

  /** Two eight-byte buffers share a checksum exactly when the sum of their high words is
      the sum of their low words multiplied by x^32. */
  lemma EightByteCollision(x: seq<bv8>, y: seq<bv8>)
    requires |x| == |y| == 8
    ensures Checksum(x) == Checksum(y) <==>
            Xor(Message(x)[32..], Message(y)[32..]) == Run(Xor(Message(x)[..32], Message(y)[..32]), 32)
  {
    ChecksumSeesRegister(x, y);
    LongMessagesCollide(Message(x), Message(y));
  }

  lemma LongMessagesCollide(a: seq<bool>, b: seq<bool>)
    requires |a| == |b| == 64
    ensures Feed(Ones(), a) == Feed(Ones(), b) <==> Xor(a[32..], b[32..]) == Run(Xor(a[..32], b[..32]), 32)
  {
    TwoWords(a);
    TwoWords(b);
    TwoWordsCollide(a[..32], a[32..], b[..32], b[32..]);
  }

  lemma TwoWords(a: seq<bool>)
    requires |a| == 64
    ensures Feed(Ones(), a) == Run(Xor(Run(Xor(Ones(), a[..32]), 32), a[32..]), 32)
  {
    assert a == a[..32] + a[32..];
    FeedConcat(Ones(), a[..32], a[32..]);
    FeedAtOnce(Ones(), a[..32]);
    FeedAtOnce(Feed(Ones(), a[..32]), a[32..]);
    assert Pad(a[..32]) == a[..32] && Pad(a[32..]) == a[32..];
  }

  lemma TwoWordsCollide(a: Word, a': Word, b: Word, b': Word)
    ensures Run(Xor(Run(Xor(Ones(), a), 32), a'), 32) == Run(Xor(Run(Xor(Ones(), b), 32), b'), 32)
            <==> Xor(a', b') == Run(Xor(a, b), 32)
  {
    var ones, x, y := Run(Ones(), 32), Run(a, 32), Run(b, 32);
    RunLinear(Ones(), a, 32);
    RunLinear(Ones(), b, 32);
    RunLinear(a, b, 32);
    if Run(Xor(Xor(ones, x), a'), 32) == Run(Xor(Xor(ones, y), b'), 32) {
      RunInjective(Xor(Xor(ones, x), a'), Xor(Xor(ones, y), b'), 32);
    }
    SumsAgree(ones, x, a', y, b');
  }

  lemma SumsAgree(o: Word, x: Word, a: Word, y: Word, b: Word)
    ensures Xor(Xor(o, x), a) == Xor(Xor(o, y), b) <==> Xor(a, b) == Xor(x, y)
  {
    var s, t, p, q := Xor(Xor(o, x), a), Xor(Xor(o, y), b), Xor(a, b), Xor(x, y);
    if s == t {
      forall i | 0 <= i < 32
        ensures p[i] == q[i]
      {
        assert s[i] == t[i];
      }
    }
    if p == q {
      forall i | 0 <= i < 32
        ensures s[i] == t[i]
      {
        assert p[i] == q[i];
      }
    }
  }

  // ----- Every buffer is the bytes of a value -----

  lemma NibbleReadBack(b: bv8)
    requires b < 16
    ensures ToNibble(FromNibble(b)) == b
  {
  }

  lemma NibblesJoin(b: bv8)
    ensures b >> 4 < 16 && b & 15 < 16 && ((b >> 4) << 4) | (b & 15) == b
  {
  }

  lemma ByteReadBack(b: bv8, k: int)
    ensures ToByte(FromByte(b) + 256 * k) == b
  {
    var h, l := FromNibble(b >> 4), FromNibble(b & 15);
    NibblesJoin(b);
    NibbleReadBack(b >> 4);
    NibbleReadBack(b & 15);
    NibblesOf(h, l, k);
  }

  lemma NibblesOf(h: nat, l: nat, k: int)
    requires h < 16 && l < 16
    ensures var x := (16 * h + l + 256 * k) % 256;
            x / 16 == h && x % 16 == l
  {
    assert (16 * h + l + 256 * k) % 256 == 16 * h + l;
  }

  lemma BytesCons(b: bv8, high: int, n: nat)
    ensures Bytes(FromByte(b) + 256 * high, n + 1) == [b] + Bytes(high, n)
  {
    ByteReadBack(b, high);
    assert (FromByte(b) + 256 * high) / 256 == high;
  }

  /** The value of a buffer, shifted by any multiple of its width, has these bytes. */
  lemma {:induction false} BytesReadBack(b: seq<bv8>, k: int)
    ensures Bytes(Value(b) + k * Span(|b|), |b|) == b
  {
    if b != [] {
      var n := |b| - 1;
      var rest, m := Value(b[1..]), Span(n);
      Distribute(rest + k * m, rest, k, m);
      BytesCons(b[0], rest + k * m, n);
      BytesReadBack(b[1..], k);
    }
  }

  lemma {:induction false} ValueInRange(b: seq<bv8>)
    ensures Value(b) < Span(|b|)
  {
    if b != [] {
      ValueInRange(b[1..]);
    }
  }

  lemma LongSpan()
    ensures Span(8) == 0x1_0000_0000_0000_0000
  {
    assert Span(4) == 0x1_0000_0000;
  }

  /** Each eight-byte buffer is that of exactly one long. */
  lemma LongOfBytes(b: seq<bv8>) returns (w: Int64)
    requires |b| == 8
    ensures forall v: Int64 :: Bytes(v, 8) == b <==> v == w
  {
    w := SomeLong(b);
    LongSpan();
    forall v: Int64 ensures Bytes(v, 8) == b <==> v == w {
      if Bytes(v, 8) == b {
        BytesInjective(v, w, 8);
      }
    }
  }

  lemma SomeLong(b: seq<bv8>) returns (w: Int64)
    requires |b| == 8
    ensures Bytes(w, 8) == b
  {
    LongSpan();
    ValueInRange(b);
    var u: int := Value(b);
    if u < 0x8000_0000_0000_0000 {
      BytesReadBack(b, 0);
      w := u;
    } else {
      BytesReadBack(b, -1);
      w := u - 0x1_0000_0000_0000_0000;
    }
  }

  /** The checksum of a long says nothing about its low half: for each choice of the four
      low bytes and each checksum there is exactly one long. So every checksum is
      shared by as many longs as there are low halves. */
  lemma OneLong(low: seq<bv8>, c: bv32) returns (w: Int64)
    requires |low| == 4
    ensures forall v: Int64 :: v == w <==> Bytes(v, 8)[..4] == low && Checksum(Bytes(v, 8)) == c
  {
    var t := OneTail(low, c);
    w := LongOfBytes(low + t);
    forall v: Int64 ensures v == w <==> Bytes(v, 8)[..4] == low && Checksum(Bytes(v, 8)) == c {
      BufferSplits(Bytes(v, 8), low, t, c);
    }
  }

  lemma BufferSplits(b: seq<bv8>, low: seq<bv8>, t: seq<bv8>, c: bv32)
    requires |b| == 8 && |low| == |t| == 4
    requires forall u: seq<bv8> :: |u| == 4 ==> (Checksum(low + u) == c <==> u == t)
    ensures b == low + t <==> b[..4] == low && Checksum(b) == c
  {
    assert b == b[..4] + b[4..];
    assert (low + t)[..4] == low && (low + t)[4..] == t;
  }

  /** In particular no long can be told from all others by its checksum. */
  lemma LongHasTwin(v: Int64) returns (w: Int64)
    ensures w != v && Checksum(Bytes(w, 8)) == Checksum(Bytes(v, 8))
  {
    var low: seq<bv8> := if Bytes(v, 8)[..4] == [0, 0, 0, 0] then [1, 0, 0, 0] else [0, 0, 0, 0];
    w := OneLong(low, Checksum(Bytes(v, 8)));
    assert Bytes(w, 8)[..4] == low;
  }

  // ----- Dates -----

  method DateChecksum(ticks: Ticks) returns (r: Option<bv32>)
    ensures r == match RoundOff(ticks)
                 case None => None
                 case Some(m) => Some(Checksum(Bytes(m, 8)))
  {
    match RoundOff(ticks)
    case None => r := None;
    case Some(m) =>
      var cks := IntegerChecksum(m, 8);
      r := Some(cks);
  }
}
