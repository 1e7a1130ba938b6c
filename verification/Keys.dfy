/** The key generators of the checksum kit: what `InitKey` makes of an index, per key
    type, and when two indices make different keys.

    A double or a float made from an index
    is held as the integer it represents; `FloatOfInt` rounds to the 24 bits of a
    single-precision significand.
 */
module Keys {
  import opened Dates
  import opened Decimals
  import opened MachineIntegers
  import opened Wrappers

  datatype Kind =
    | KBoolean | KByte | KCharacter | KDate | KDouble | KFileName | KFloat
    | KInt16 | KInt32 | KInt64 | KString | KUnicode | KHugeString | KHugeUnicode | KPdx

  datatype Object =
    | Bool(b: bool)
    | SByte(n: int)
    | Char(n: int)
    | Date(ticks: int)
    | Double(n: int)
    | Float(n: int)
    | Int16(n: int)
    | Int32(n: int)
    | Int64(n: int)
    | Text(s: string)
    | FileName(s: string)
    | PdxCData(first: int, second: int)

  const TICKS_PER_MINUTE := 600000000
  const EXACT_FLOAT := 0x100_0000

  /** `MaxKeys` of each wrapper. */
  function MaxKeys(kind: Kind): nat {
    match kind
    case KBoolean => 2
    case KByte => 255
    case KCharacter => 65535
    case KInt16 => 32767
    case KPdx => 10
    case _ => 0x7fff_ffff
  }

  /** A number as a significand of at most 24 bits, scaled by a power of two, and the bits
      below it. */
  datatype Scaled = Scaled(scale: nat, significand: nat, low: nat)

  function Normalize(a: nat): Scaled {
    if a < EXACT_FLOAT then Scaled(1, a, 0)
    else
      var half := Normalize(a / 2);
      Scaled(2 * half.scale, half.significand, 2 * half.low + a % 2)
  }

  /** Nearest representable integer, ties to even. */
  function RoundToFloat(a: nat): nat {
    var s := Normalize(a);
    var up := 2 * s.low > s.scale || (2 * s.low == s.scale && s.significand % 2 == 1);
    (if up then s.significand + 1 else s.significand) * s.scale
  }

  function FloatOfInt(n: int): int {
    if n < 0 then -(RoundToFloat(-n) as int) else RoundToFloat(n)
  }

  function Repeat(c: char, n: nat): (s: string)
    ensures |s| == n
  {
    seq(n, _ => c)
  }

  const LATIN_A := 'A'
  const DEVANAGARI_A := '\U{0905}'

  function StringKey(fill: char, keyIndex: int, size: int): Object
    requires size >= 11
  {
    if keyIndex == 0 then Text([]) else Text(Repeat(fill, size - 10) + TenDigits(keyIndex))
  }

  function SmallSize(maxSize: int): int {
    if maxSize < 11 then 11 else maxSize
  }

  function HugeSize(maxSize: int): int {
    if maxSize < 0xffff then maxSize + 0x1_0000 else maxSize
  }

  /** `InitKey` of the wrapper for `kind`; dates count from the tick `base`. */
  function InitKey(kind: Kind, keyIndex: int, maxSize: int, base: int): Result<Object> {
    match kind
    case KBoolean => Ok(Bool(keyIndex >= 0 && keyIndex % 2 == 1))
    case KByte => Ok(SByte(Wrap(keyIndex, 0x100)))
    case KCharacter => Ok(Char(keyIndex % 0x1_0000))
    case KDate =>
      var ticks := base + keyIndex * TICKS_PER_MINUTE;
      if 0 <= ticks <= MAX_TICKS then Ok(Date(ticks)) else Err(OutOfRange)
    case KDouble => Ok(Double(keyIndex))
    case KFileName =>
      if maxSize <= 0 then Err(AssertionFailed)
      else if SmallSize(maxSize) < 13 then Err(OutOfRange)
      else Ok(FileName("C:\\" + Repeat(DEVANAGARI_A, SmallSize(maxSize) - 13) + TenDigits(keyIndex)))
    case KFloat => Ok(Float(FloatOfInt(keyIndex)))
    case KInt16 => Ok(Int16(Wrap(keyIndex, 0x1_0000)))
    case KInt32 => Ok(Int32(keyIndex))
    case KInt64 => Ok(Int64(keyIndex))
    case KString => if maxSize <= 0 then Err(AssertionFailed) else Ok(StringKey(LATIN_A, keyIndex, SmallSize(maxSize)))
    case KUnicode => if maxSize <= 0 then Err(AssertionFailed) else Ok(StringKey(DEVANAGARI_A, keyIndex, SmallSize(maxSize)))
    case KHugeString => if maxSize <= 0 then Err(AssertionFailed) else Ok(StringKey(LATIN_A, keyIndex, HugeSize(maxSize)))
    case KHugeUnicode => if maxSize <= 0 then Err(AssertionFailed) else Ok(StringKey(DEVANAGARI_A, keyIndex, HugeSize(maxSize)))
    case KPdx => Ok(PdxCData(keyIndex, Wrap(keyIndex * 2999, 0x1_0000_0000)))
  }

  // ----- How an index is read back from its key -----

  /** A text of the given size: `prefix`, a fill character, and ten digits that read `i`. */
  ghost predicate Padded(s: string, prefix: string, fill: char, size: int, i: int) {
    && |s| == size >= |prefix| + 10 && s[..|prefix|] == prefix
    && (forall j :: |prefix| <= j < size - 10 ==> s[j] == fill)
    && ReadDigits(s[size - 10..]) == i
  }

  ghost function Larger(a: int, b: int): int {
    if a < b then b else a
  }

  /** What the key of an index is: narrow integers keep its low bits, dates count minutes,
      strings are empty for 0 and end in its digits otherwise. Floats keep exact indices. */
  ghost predicate Encodes(kind: Kind, key: Object, i: nat, maxSize: int, base: int) {
    match kind
    case KBoolean => key.Bool? && (key.b <==> i % 2 == 1)
    case KByte => key.SByte? && -0x80 <= key.n < 0x80 && (i - key.n) % 0x100 == 0
    case KCharacter => key.Char? && 0 <= key.n < 0x1_0000 && (i - key.n) % 0x1_0000 == 0
    case KInt16 => key.Int16? && -0x8000 <= key.n < 0x8000 && (i - key.n) % 0x1_0000 == 0
    case KInt32 => key == Int32(i)
    case KInt64 => key == Int64(i)
    case KDouble => key == Double(i)
    case KFloat => key.Float? && (i <= 0x100_0000 ==> key.n == i)
    case KDate => key.Date? && key.ticks - base == i * 600000000
    case KFileName => key.FileName? && Padded(key.s, "C:\\", '\U{0905}', maxSize, i)
    case KString => key.Text? && if i == 0 then key.s == [] else Padded(key.s, [], 'A', Larger(maxSize, 11), i)
    case KUnicode => key.Text? && if i == 0 then key.s == [] else Padded(key.s, [], '\U{0905}', Larger(maxSize, 11), i)
    case KHugeString =>
      key.Text? && if i == 0 then key.s == [] else Padded(key.s, [], 'A', if maxSize < 65535 then maxSize + 65536 else maxSize, i)
    case KHugeUnicode =>
      key.Text? && if i == 0 then key.s == [] else Padded(key.s, [], '\U{0905}', if maxSize < 65535 then maxSize + 65536 else maxSize, i)
    case KPdx => key.PdxCData? && key.first == i && -0x8000_0000 <= key.second < 0x8000_0000 && (i * 2999 - key.second) % 0x1_0000_0000 == 0
  }

  /** Whether an index has a key: dates must stay in the calendar, texts need a positive
      size, and file names room for a drive and ten digits. */
  ghost predicate Makeable(kind: Kind, i: nat, maxSize: int, base: int) {
    match kind
    case KDate => 0 <= base + i * 600000000 <= 3155378975999999999
    case KFileName => maxSize >= 13
    case KString => maxSize > 0
    case KUnicode => maxSize > 0
    case KHugeString => maxSize > 0
    case KHugeUnicode => maxSize > 0
    case _ => true
  }

  lemma PaddedJoin(prefix: string, pad: string, digits: string, fill: char, i: int)
    requires |digits| == 10 && ReadDigits(digits) == i && forall j :: 0 <= j < |pad| ==> pad[j] == fill
    ensures Padded(prefix + pad + digits, prefix, fill, |prefix| + |pad| + 10, i)
  {
    var s := prefix + pad + digits;
    assert s[|s| - 10..] == digits;
    assert s[..|prefix|] == prefix;
  }

  lemma PaddedDigits(prefix: string, fill: char, size: int, i: nat)
    requires size >= |prefix| + 10 && i < 0x8000_0000
    ensures Padded(prefix + Repeat(fill, size - 10 - |prefix|) + TenDigits(i), prefix, fill, size, i)
  {
    TenDigitsRoundTrip(i);
    PaddedJoin(prefix, Repeat(fill, size - 10 - |prefix|), TenDigits(i), fill, i);
  }

  lemma WrapKeepsLowBits(n: int, m: int)
    requires m in {0x100, 0x1_0000, 0x1_0000_0000}
    ensures -m <= 2 * Wrap(n, m) < m && (n - Wrap(n, m)) % m == 0
  {
    var q, r := (n + m / 2) / m, (n + m / 2) % m;
    if m == 0x100 {
      assert n - Wrap(n, m) == 0x100 * q;
    } else if m == 0x1_0000 {
      assert n - Wrap(n, m) == 0x1_0000 * q;
    } else {
      assert n - Wrap(n, m) == 0x1_0000_0000 * q;
    }
  }

  lemma RemainderKeepsLowBits(i: nat)
    ensures (i - i % 0x1_0000) % 0x1_0000 == 0
  {
    assert i - i % 0x1_0000 == 0x1_0000 * (i / 0x1_0000);
  }

  lemma StringReadBack(fill: char, size: int, i: nat)
    requires size >= 11 && i < 0x8000_0000
    ensures var s := StringKey(fill, i, size).s;
            if i == 0 then s == [] else Padded(s, [], fill, size, i)
  {
    PaddedDigits([], fill, size, i);
    assert [] + Repeat(fill, size - 10) == Repeat(fill, size - 10);
  }

  lemma FileReadBack(i: nat, maxSize: int, base: int)
    requires maxSize >= 13 && i < 0x8000_0000
    ensures InitKey(KFileName, i, maxSize, base).Ok?
    ensures Encodes(KFileName, InitKey(KFileName, i, maxSize, base).value, i, maxSize, base)
  {
    PaddedDigits("C:\\", DEVANAGARI_A, maxSize, i);
  }

  lemma TextReadBack(kind: Kind, i: nat, maxSize: int, base: int)
    requires kind in {KString, KUnicode, KHugeString, KHugeUnicode} && maxSize > 0 && i < 0x8000_0000
    ensures InitKey(kind, i, maxSize, base).Ok? && Encodes(kind, InitKey(kind, i, maxSize, base).value, i, maxSize, base)
  {
    StringReadBack(if kind in {KString, KHugeString} then LATIN_A else DEVANAGARI_A,
                   if kind in {KString, KUnicode} then SmallSize(maxSize) else HugeSize(maxSize), i);
  }

  lemma NumberReadBack(kind: Kind, i: nat, maxSize: int, base: int)
    requires kind !in {KFileName, KString, KUnicode, KHugeString, KHugeUnicode, KDate}
    ensures InitKey(kind, i, maxSize, base).Ok? && Encodes(kind, InitKey(kind, i, maxSize, base).value, i, maxSize, base)
  {
    match kind
    case KByte => WrapKeepsLowBits(i, 0x100);
    case KInt16 => WrapKeepsLowBits(i, 0x1_0000);
    case KPdx => WrapKeepsLowBits(i * 2999, 0x1_0000_0000);
    case KCharacter => RemainderKeepsLowBits(i);
    case KFloat => if i <= EXACT_FLOAT { FloatExact(i); }
    case _ =>
  }

  /** For every type: which indices have a key, which error the others give, and how the
      index is read back from its key. */
  lemma KeyReadBack(kind: Kind, i: nat, maxSize: int, base: int)
    requires i < 0x8000_0000
    ensures InitKey(kind, i, maxSize, base).Ok? <==> Makeable(kind, i, maxSize, base)
    ensures Makeable(kind, i, maxSize, base) ==> Encodes(kind, InitKey(kind, i, maxSize, base).value, i, maxSize, base)
    ensures !Makeable(kind, i, maxSize, base) ==>
              InitKey(kind, i, maxSize, base) == Err(if kind != KDate && maxSize <= 0 then AssertionFailed else OutOfRange)
  {
    if kind == KFileName {
      if maxSize >= 13 {
        FileReadBack(i, maxSize, base);
      }
    } else if kind in {KString, KUnicode, KHugeString, KHugeUnicode} {
      if maxSize > 0 {
        TextReadBack(kind, i, maxSize, base);
      }
    } else if kind != KDate {
      NumberReadBack(kind, i, maxSize, base);
    }
  }

  // ----- Distinct indices make distinct keys -----

  lemma {:induction false} FloatExact(a: nat)
    requires a <= EXACT_FLOAT
    ensures FloatOfInt(a) == a
  {
    if a == EXACT_FLOAT {
      assert Normalize(a / 2) == Scaled(1, a / 2, 0);
    }
  }

  /** The parts make up the number, and the significand has exactly 24 bits once the number
      has more. */
  ghost predicate Fits(a: int, s: Scaled) {
    && a == s.significand * s.scale + s.low && s.low < s.scale
    && s.significand < EXACT_FLOAT && (s.scale > 1 ==> EXACT_FLOAT <= 2 * s.significand)
  }

  lemma {:induction false} NormalizeFits(a: nat)
    ensures Fits(a, Normalize(a))
  {
    if a >= EXACT_FLOAT {
      var half := Normalize(a / 2);
      NormalizeFits(a / 2);
      Doubled(a / 2, a % 2, half);
    }
  }

  lemma Doubled(h: int, bit: nat, s: Scaled)
    requires Fits(h, s) && bit < 2 && 2 * h + bit >= EXACT_FLOAT
    ensures Fits(2 * h + bit, Scaled(2 * s.scale, s.significand, 2 * s.low + bit))
  {
    assert s.significand * (2 * s.scale) == 2 * (s.significand * s.scale);
    if s.scale == 1 {
      assert s.significand * s.scale == s.significand;
    }
  }

  /** `q * p` is the multiple of `p` nearest to `a`, an even one on a tie. */
  ghost predicate Nearest(a: int, p: int, q: int) {
    -p <= 2 * (q * p - a) <= p && (2 * (q * p - a) in {p, -p} ==> q % 2 == 0)
  }

  lemma NearestMultiple(a: int, p: int, q: int, r: int)
    requires 0 <= r < p && a == q * p + r
    ensures Nearest(a, p, if 2 * r > p || (2 * r == p && q % 2 == 1) then q + 1 else q)
  {
    assert (q + 1) * p == q * p + p;
  }

  /** Any index becomes the nearest multiple of its scale. */
  lemma FloatNearest(a: nat) returns (s: Scaled, q: nat)
    ensures Fits(a, s) && FloatOfInt(a) == q * s.scale && Nearest(a, s.scale, q)
  {
    s := Normalize(a);
    NormalizeFits(a);
    NearestMultiple(a, s.scale, s.significand, s.low);
    var up := 2 * s.low > s.scale || (2 * s.low == s.scale && s.significand % 2 == 1);
    q := if up then s.significand + 1 else s.significand;
  }

  /** The first two indices that a float cannot tell apart. */
  lemma FloatCollision()
    ensures FloatOfInt(EXACT_FLOAT) == FloatOfInt(EXACT_FLOAT + 1)
  {
    var half := EXACT_FLOAT / 2;
    assert Normalize(half) == Scaled(1, half, 0);
    assert Normalize(EXACT_FLOAT) == Scaled(2, half, 0);
    assert (EXACT_FLOAT + 1) / 2 == half;
    assert Normalize(EXACT_FLOAT + 1) == Scaled(2, half, 1);
  }

  /** How many consecutive indices a key type can tell apart: the values of a narrow
      type, and without limit otherwise. */
  predicate WithinWidth(kind: Kind, distance: int) {
    match kind
    case KBoolean => distance < 2
    case KByte => distance < 0x100
    case KCharacter => distance < 0x1_0000
    case KInt16 => distance < 0x1_0000
    case _ => true
  }

  /** Whether a key type keeps the index exactly. */
  predicate Exact(kind: Kind, keyIndex: int) {
    kind == KFloat ==> keyIndex <= EXACT_FLOAT
  }

  lemma WrapInjective(x: int, y: int, m: int)
    requires m in {0x100, 0x1_0000} && 0 < y - x < m
    ensures Wrap(x, m) != Wrap(y, m)
  {
  }

  lemma StringKeyInjective(fill: char, x: nat, y: nat, size: int)
    requires size >= 11 && x < y < 0x8000_0000
    ensures StringKey(fill, x, size) != StringKey(fill, y, size)
  {
    var pad := Repeat(fill, size - 10);
    if x > 0 && pad + TenDigits(x) == pad + TenDigits(y) {
      assert TenDigits(x) == (pad + TenDigits(x))[size - 10..] == TenDigits(y);
      TenDigitsInjective(x, y);
    }
  }

  lemma FileNameInjective(x: nat, y: nat, pad: string)
    requires x < y < 0x8000_0000
    ensures pad + TenDigits(x) != pad + TenDigits(y)
  {
    if pad + TenDigits(x) == pad + TenDigits(y) {
      assert TenDigits(x) == (pad + TenDigits(x))[|pad|..] == TenDigits(y);
      TenDigitsInjective(x, y);
    }
  }

  lemma RemainderInjective(x: int, y: int)
    requires 0 < y - x < 0x1_0000
    ensures x % 0x1_0000 != y % 0x1_0000
  {
  }

  lemma NarrowKeysDiffer(kind: Kind, x: nat, y: nat, maxSize: int, base: int)
    requires kind in {KBoolean, KByte, KCharacter, KInt16} && x < y && WithinWidth(kind, y - x)
    ensures InitKey(kind, x, maxSize, base) != InitKey(kind, y, maxSize, base)
  {
    match kind
    case KByte => WrapInjective(x, y, 0x100);
    case KInt16 => WrapInjective(x, y, 0x1_0000);
    case KCharacter => RemainderInjective(x, y);
    case KBoolean =>
  }

  lemma FileKeysDiffer(x: nat, y: nat, maxSize: int, base: int)
    requires x < y < 0x8000_0000 && InitKey(KFileName, x, maxSize, base).Ok?
    ensures InitKey(KFileName, x, maxSize, base) != InitKey(KFileName, y, maxSize, base)
  {
    FileNameInjective(x, y, "C:\\" + Repeat(DEVANAGARI_A, SmallSize(maxSize) - 13));
  }

  lemma SmallKeysDiffer(kind: Kind, x: nat, y: nat, maxSize: int, base: int)
    requires kind in {KString, KUnicode} && x < y < 0x8000_0000 && InitKey(kind, x, maxSize, base).Ok?
    ensures InitKey(kind, x, maxSize, base) != InitKey(kind, y, maxSize, base)
  {
    if kind == KString {
      StringKeyInjective(LATIN_A, x, y, SmallSize(maxSize));
    } else {
      StringKeyInjective(DEVANAGARI_A, x, y, SmallSize(maxSize));
    }
  }

  lemma HugeKeysDiffer(kind: Kind, x: nat, y: nat, maxSize: int, base: int)
    requires kind in {KHugeString, KHugeUnicode} && x < y < 0x8000_0000 && InitKey(kind, x, maxSize, base).Ok?
    ensures InitKey(kind, x, maxSize, base) != InitKey(kind, y, maxSize, base)
  {
    if kind == KHugeString {
      StringKeyInjective(LATIN_A, x, y, HugeSize(maxSize));
    } else {
      StringKeyInjective(DEVANAGARI_A, x, y, HugeSize(maxSize));
    }
  }

  /** Two indices closer than the width of the type make different keys. */
  lemma InitKeyInjective(kind: Kind, x: nat, y: nat, maxSize: int, base: int)
    requires x < y < 0x8000_0000 && WithinWidth(kind, y - x) && Exact(kind, y)
    requires InitKey(kind, x, maxSize, base).Ok?
    ensures InitKey(kind, x, maxSize, base) != InitKey(kind, y, maxSize, base)
  {
    if kind in {KBoolean, KByte, KCharacter, KInt16} {
      NarrowKeysDiffer(kind, x, y, maxSize, base);
    } else if kind == KFileName {
      FileKeysDiffer(x, y, maxSize, base);
    } else if kind in {KString, KUnicode} {
      SmallKeysDiffer(kind, x, y, maxSize, base);
    } else if kind in {KHugeString, KHugeUnicode} {
      HugeKeysDiffer(kind, x, y, maxSize, base);
    } else if kind == KFloat {
      FloatExact(x);
      FloatExact(y);
    }
  }

  /** The first `MaxKeys` indices of every type stay within its width. */
  lemma MaxKeysWithinWidth(kind: Kind, x: nat, y: nat)
    requires x < y < MaxKeys(kind)
    ensures WithinWidth(kind, y - x)
  {
  }

  /** The keys of the first `n` indices are pairwise distinct, for every type: the limit
      is `MaxKeys`, except that floats stop at the first inexact index. */
  lemma FirstKeysDistinct(kind: Kind, n: nat, maxSize: int, base: int)
    requires n <= MaxKeys(kind)
    requires forall i :: 0 <= i < n ==> InitKey(kind, i, maxSize, base).Ok?
    ensures (forall i, j :: 0 <= i < j < n ==> InitKey(kind, i, maxSize, base) != InitKey(kind, j, maxSize, base))
            <==> (kind == KFloat ==> n <= EXACT_FLOAT + 1)
  {
    if kind == KFloat && n > EXACT_FLOAT + 1 {
      FloatCollision();
      assert InitKey(kind, EXACT_FLOAT, maxSize, base) == InitKey(kind, EXACT_FLOAT + 1, maxSize, base);
    } else {
      forall i, j | 0 <= i < j < n
        ensures InitKey(kind, i, maxSize, base) != InitKey(kind, j, maxSize, base)
      {
        MaxKeysWithinWidth(kind, i, j);
        InitKeyInjective(kind, i, j, maxSize, base);
      }
    }
  }

  /** For the narrow types, how far the limit could be raised: the first `n` keys are
      distinct exactly up to `MaxKeys` for bool, one more for sbyte and char, and all 65536
      values of short. */
  lemma NarrowKeysDistinct(kind: Kind, n: nat, maxSize: int, base: int)
    requires kind in {KBoolean, KByte, KCharacter, KInt16}
    ensures (forall i, j :: 0 <= i < j < n ==> InitKey(kind, i, maxSize, base) != InitKey(kind, j, maxSize, base)) <==>
            n <= MaxKeys(kind) + if kind == KBoolean then 0 else if kind == KInt16 then 32769 else 1
  {
    var width := if kind == KBoolean then 2 else if kind == KByte then 0x100 else 0x1_0000;
    if n <= width {
      forall i, j | 0 <= i < j < n ensures InitKey(kind, i, maxSize, base) != InitKey(kind, j, maxSize, base) {
        NarrowKeysDiffer(kind, i, j, maxSize, base);
      }
    } else {
      assert InitKey(kind, 0, maxSize, base) == InitKey(kind, width, maxSize, base);
    }
  }
}
