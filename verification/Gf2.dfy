/** The arithmetic behind the checksum, over bits rather than machine words.

    A `Word` is a polynomial of degree below 32 with coefficients in GF(2). The
    reflected convention of section 8 of RFC 1952 and section 8.1.1.6.2 of
    ITU-T V.42 is used: position i holds the coefficient of x^(31 - i), and the
    first message bit is the lowest bit of the first byte. `Step` multiplies by x
    modulo the generator polynomial, and `Feed` divides a message one bit at a
    time. Nothing here refers to the lookup table.
 */
module Gf2 {

  type Word = w: seq<bool> | |w| == 32 witness seq(32, _ => false)

  /** The exponents below 32 of the generator polynomial. */
  const GENERATOR: set<nat> := {0, 1, 2, 4, 5, 7, 8, 10, 11, 12, 16, 22, 23, 26}

  function Zeros(): Word {
    seq(32, _ => false)
  }

  function Ones(): Word {
    seq(32, _ => true)
  }

  function Taps(): Word {
    seq(32, i requires 0 <= i < 32 => (31 - i) in GENERATOR)
  }

  function XorBits(u: seq<bool>, v: seq<bool>): (r: seq<bool>)
    requires |u| == |v|
    ensures |r| == |u|
  {
    seq(|u|, i requires 0 <= i < |u| => u[i] != v[i])
  }

  function Xor(a: Word, b: Word): (r: Word) {
    XorBits(a, b)
  }

  function Not(a: Word): (r: Word) {
    seq(32, i requires 0 <= i < 32 => !a[i])
  }

  function Shift(a: Word): (r: Word) {
    a[1..] + [false]
  }

  /** One division step: multiply by x, subtract the generator on carry. */
  function Step(a: Word): (r: Word) {
    if a[0] then Xor(Shift(a), Taps()) else Shift(a)
  }

  function Run(a: Word, n: nat): Word
    decreases n
  {
    if n == 0 then a else Run(Step(a), n - 1)
  }

  function Unit(bit: bool): Word {
    [bit] + seq(31, _ => false)
  }

  /** Bit-at-a-time division of the message `u`, starting from remainder `w`. */
  function Feed(w: Word, u: seq<bool>): Word
    decreases |u|
  {
    if u == [] then w else Feed(Step(Xor(w, Unit(u[0]))), u[1..])
  }

  lemma StepLinear(a: Word, b: Word)
    ensures Step(Xor(a, b)) == Xor(Step(a), Step(b))
  {
    assert Shift(Xor(a, b)) == Xor(Shift(a), Shift(b));
  }

  /** The constant term of the generator makes the carry visible in the result. */
  lemma StepInjective(a: Word, b: Word)
    requires Step(a) == Step(b)
    ensures a == b
  {
    StepCarry(a);
    StepCarry(b);
    forall i | 0 <= i < 31
      ensures Shift(a)[i] == Shift(b)[i]
    {
      assert Step(a)[i] == Step(b)[i];
    }
    forall i | 0 < i < 32
      ensures a[i] == b[i]
    {
      assert a[i] == Shift(a)[i - 1] && b[i] == Shift(b)[i - 1];
    }
  }

  lemma StepCarry(a: Word)
    ensures Step(a)[31] == a[0]
  {
    assert Taps()[31];
  }

  lemma {:induction false} RunLinear(a: Word, b: Word, n: nat)
    ensures Run(Xor(a, b), n) == Xor(Run(a, n), Run(b, n))
    decreases n
  {
    if n > 0 {
      StepLinear(a, b);
      RunLinear(Step(a), Step(b), n - 1);
    }
  }

  lemma {:induction false} RunInjective(a: Word, b: Word, n: nat)
    requires Run(a, n) == Run(b, n)
    ensures a == b
    decreases n
  {
    if n > 0 {
      RunInjective(Step(a), Step(b), n - 1);
      StepInjective(a, b);
    }
  }

  lemma {:induction false} FeedConcat(w: Word, u: seq<bool>, v: seq<bool>)
    ensures Feed(w, u + v) == Feed(Feed(w, u), v)
    decreases |u|
  {
    if u == [] {
      assert u + v == v;
    } else {
      assert (u + v)[1..] == u[1..] + v;
      FeedConcat(Step(Xor(w, Unit(u[0]))), u[1..], v);
    }
  }

  lemma XorCancel(a: Word, b: Word, c: Word)
    requires Xor(a, c) == Xor(b, c)
    ensures a == b
  {
    forall i | 0 <= i < 32
      ensures a[i] == b[i]
    {
      assert Xor(a, c)[i] == Xor(b, c)[i];
    }
  }

  lemma {:induction false} FeedInjective(a: Word, b: Word, u: seq<bool>)
    requires Feed(a, u) == Feed(b, u)
    ensures a == b
    decreases |u|
  {
    if u != [] {
      var e := Unit(u[0]);
      FeedInjective(Step(Xor(a, e)), Step(Xor(b, e)), u[1..]);
      StepInjective(Xor(a, e), Xor(b, e));
      XorCancel(a, b, e);
    }
  }

  /** Division is additive in the remainder and the message together. */
  lemma {:induction false} FeedLinear(a: Word, b: Word, u: seq<bool>, v: seq<bool>)
    requires |u| == |v|
    ensures Feed(Xor(a, b), XorBits(u, v)) == Xor(Feed(a, u), Feed(b, v))
    decreases |u|
  {
    if u != [] {
      var x, y := Xor(a, Unit(u[0])), Xor(b, Unit(v[0]));
      assert Xor(Xor(a, b), Unit(u[0] != v[0])) == Xor(x, y);
      assert XorBits(u, v)[1..] == XorBits(u[1..], v[1..]);
      StepLinear(x, y);
      FeedLinear(Step(x), Step(y), u[1..], v[1..]);
    }
  }

  function Pad(u: seq<bool>): Word
    requires |u| <= 32
  {
    u + seq(32 - |u|, _ => false)
  }

  /** Up to 32 message bits may be added to the remainder at once, before any step. */
  lemma {:induction false} FeedAtOnce(w: Word, u: seq<bool>)
    requires |u| <= 32
    ensures Feed(w, u) == Run(Xor(w, Pad(u)), |u|)
    decreases |u|
  {
    if u == [] {
      assert Xor(w, Pad(u)) == w;
    } else {
      var x, tail := Xor(w, Unit(u[0])), Pad(u[1..]);
      var ahead: Word := [false] + tail[..31];
      assert Shift(ahead) == tail;
      assert Xor(w, Pad(u)) == Xor(x, ahead);
      StepLinear(x, ahead);
      FeedAtOnce(Step(x), u[1..]);
    }
  }

  /** Two messages agree outside the bit window starting at `p` of length `n`. */
  ghost predicate AgreeOutside(u: seq<bool>, v: seq<bool>, p: nat, n: nat)
    requires |u| == |v|
  {
    forall i :: 0 <= i < |u| && !(p <= i < p + n) ==> u[i] == v[i]
  }

  /** From one remainder, up to 32 message bits can be told apart. */
  lemma ShortInjective(c: Word, x: seq<bool>, y: seq<bool>)
    requires |x| == |y| <= 32 && Feed(c, x) == Feed(c, y)
    ensures x == y
  {
    FeedAtOnce(c, x);
    FeedAtOnce(c, y);
    RunInjective(Xor(c, Pad(x)), Xor(c, Pad(y)), |x|);
    XorCommutes(c, Pad(x));
    XorCommutes(c, Pad(y));
    XorCancel(Pad(x), Pad(y), c);
    assert x == Pad(x)[..|x|] == Pad(y)[..|x|] == y;
  }

  /** Every burst of at most 32 bits changes the remainder. */
  lemma BurstDetected(w: Word, u: seq<bool>, v: seq<bool>, p: nat, n: nat)
    requires |u| == |v| && u != v
    requires n <= 32 && AgreeOutside(u, v, p, n)
    ensures Feed(w, u) != Feed(w, v)
  {
    var i := if p <= |u| then p else |u|;
    var j := if p + n <= |u| then p + n else |u|;
    assert u[..i] == v[..i];
    assert u[j..] == v[j..];
    assert u[i..j] != v[i..j] by {
      assert u == u[..i] + u[i..j] + u[j..];
      assert v == v[..i] + v[i..j] + v[j..];
    }
    SplitFeed(w, u, i, j);
    SplitFeed(w, v, i, j);
    var c := Feed(w, u[..i]);
    if Feed(c, u[i..j]) == Feed(c, v[i..j]) {
      ShortInjective(c, u[i..j], v[i..j]);
    } else if Feed(w, u) == Feed(w, v) {
      FeedInjective(Feed(c, u[i..j]), Feed(c, v[i..j]), u[j..]);
    }
  }

  lemma XorCommutes(a: Word, b: Word)
    ensures Xor(a, b) == Xor(b, a)
  {
  }

  lemma SplitFeed(w: Word, u: seq<bool>, i: nat, j: nat)
    requires i <= j <= |u|
    ensures Feed(w, u) == Feed(Feed(Feed(w, u[..i]), u[i..j]), u[j..])
  {
    assert u == u[..i] + (u[i..j] + u[j..]);
    FeedConcat(w, u[..i], u[i..j] + u[j..]);
    FeedConcat(Feed(w, u[..i]), u[i..j], u[j..]);
  }

  // ----- Schoolbook division -----

  /** The remainder of a dividend, highest coefficient first, by long division: the
      leading coefficient is cancelled with a shifted copy of the generator until
      fewer than 33 coefficients are left. */
  function LongDivision(s: seq<bool>): Word
    requires |s| >= 32
    decreases |s|
  {
    if |s| == 32 then s
    else if s[0] then LongDivision(XorBits(s[1..33], Taps()) + s[33..])
    else LongDivision(s[1..])
  }

  /** The message times x^32, plus the starting remainder times x^|u|. */
  function Dividend(w: Word, u: seq<bool>): (s: seq<bool>)
    ensures |s| == |u| + 32
  {
    XorBits(w + seq(|u|, _ => false), u + Zeros())
  }

  lemma DividendTail(x: Word, u: seq<bool>, s: seq<bool>)
    requires u != []
    requires s == Dividend(x, [false] + u[1..])
    ensures s[0] == x[0]
    ensures !x[0] ==> s[1..] == Dividend(Step(x), u[1..])
    ensures x[0] ==> XorBits(s[1..33], Taps()) + s[33..] == Dividend(Step(x), u[1..])
  {
    var t := Dividend(Step(x), u[1..]);
    var cancelled := XorBits(s[1..33], Taps()) + s[33..];
    forall i | 0 <= i < |t|
      ensures !x[0] ==> s[1..][i] == t[i]
      ensures x[0] ==> cancelled[i] == t[i]
    {
      assert s[1..][i] == s[i + 1];
      if i < 31 {
        assert Shift(x)[i] == x[i + 1];
      }
    }
    assert |cancelled| == |t| == |s[1..]|;
  }

  /** Feeding bits one at a time computes the remainder of long division. */
  lemma {:induction false} FeedIsLongDivision(w: Word, u: seq<bool>)
    ensures Feed(w, u) == LongDivision(Dividend(w, u))
    decreases |u|
  {
    if u == [] {
      assert Dividend(w, u) == w;
    } else {
      var x := Xor(w, Unit(u[0]));
      assert Dividend(w, u) == Dividend(x, [false] + u[1..]);
      DividendTail(x, u, Dividend(w, u));
      FeedIsLongDivision(Step(x), u[1..]);
    }
  }
}
