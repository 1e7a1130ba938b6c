/** Replacing several placeholders in a text one after the other, against replacing
    them all at once, for any list of placeholders of one shape: a stem that begins
    with a letter found nowhere else in a placeholder, followed by one digit, and
    replaced by a number.
 */
module Substitution {

  /** The letters that only ever begin a placeholder. */
  predicate IsAnchor(c: char) {
    c == 'H' || c == 'L'
  }

  predicate IsNumeral(c: char) {
    c == '-' || '0' <= c <= '9'
  }

  /** No character of the text can begin a placeholder. */
  predicate Quiet(u: string) {
    forall i :: 0 <= i < |u| ==> !IsAnchor(u[i])
  }

  datatype Key = Key(stem: string, suffix: char) {
    function Text(): (s: string)
      ensures |s| == |stem| + 1
    {
      stem + [suffix]
    }

    ghost predicate Valid() {
      && stem != [] && IsAnchor(stem[0]) && Quiet(stem[1..])
      && (forall i :: 0 <= i < |stem| ==> !IsNumeral(stem[i]))
      && IsNumeral(suffix) && !IsAnchor(suffix)
    }
  }

  datatype Rules = Rules(keys: seq<Key>, values: seq<string>) {
    ghost predicate Valid() {
      && |keys| == |values|
      && (forall k :: 0 <= k < |keys| ==> keys[k].Valid())
      && (forall j, k :: 0 <= j < k < |keys| ==> keys[j] != keys[k])
      && (forall k :: 0 <= k < |values| ==> values[k] != [] && Numeric(values[k]))
    }
  }

  predicate Numeric(r: string) {
    forall i :: 0 <= i < |r| ==> IsNumeral(r[i])
  }

  /** `String.Replace`: from the left, without overlaps. */
  function Replace(s: string, p: string, r: string): string
    requires p != []
    decreases |s|
  {
    if s == [] then []
    else if p <= s then r + Replace(s[|p|..], p, r)
    else [s[0]] + Replace(s[1..], p, r)
  }

  /** The text after the first `n` replacements. */
  function Sequential(s: string, rules: Rules, n: nat): string
    requires n <= |rules.keys| == |rules.values|
    decreases n
  {
    if n == 0 then s
    else Replace(Sequential(s, rules, n - 1), rules.keys[n - 1].Text(), rules.values[n - 1])
  }

  /** One of the first `n` placeholders stands at the start of the text. */
  ghost predicate Starts(s: string, rules: Rules, n: nat, j: nat) {
    j < n <= |rules.keys| && rules.keys[j].Text() <= s
  }

  /** The placeholder that the text starts with, or -1. */
  ghost function Find(s: string, rules: Rules, n: nat): (j: int)
    ensures j == -1 || (j >= 0 && Starts(s, rules, n, j))
    ensures j == -1 ==> forall k: nat :: !Starts(s, rules, n, k)
  {
    if exists k: nat :: Starts(s, rules, n, k)
    then var k: nat :| Starts(s, rules, n, k); k
    else -1
  }

  /** The first `n` placeholders replaced in one pass over the text. */
  ghost function Simultaneous(s: string, rules: Rules, n: nat): string
    requires rules.Valid() && n <= |rules.keys|
    decreases |s|
  {
    if s == [] then []
    else
      var j := Find(s, rules, n);
      if j >= 0 then rules.values[j] + Simultaneous(s[|rules.keys[j].Text()|..], rules, n)
      else [s[0]] + Simultaneous(s[1..], rules, n)
  }

  // ----- Placeholders do not overlap -----

  lemma KeyShape(key: Key)
    requires key.Valid()
    ensures IsAnchor(key.Text()[0]) && Quiet(key.Text()[1..])
    ensures key.Text()[|key.stem|] == key.suffix
    ensures forall i :: 0 <= i < |key.stem| ==> key.Text()[i] == key.stem[i]
  {
    assert key.Text()[1..] == key.stem[1..] + [key.suffix];
  }

  /** A text starts with at most one placeholder. */
  lemma OneKey(s: string, a: Key, b: Key)
    requires a.Valid() && b.Valid() && a.Text() <= s && b.Text() <= s
    ensures a == b
  {
    KeyShape(a);
    KeyShape(b);
    var m, n := |a.stem|, |b.stem|;
    assert s[m] == a.suffix && s[n] == b.suffix;
    assert forall i :: 0 <= i < m ==> s[i] == a.stem[i];
    assert forall i :: 0 <= i < n ==> s[i] == b.stem[i];
    assert m == n;
    assert a.stem == s[..m] == b.stem;
  }

  lemma FindIs(s: string, rules: Rules, n: nat, j: nat)
    requires rules.Valid() && Starts(s, rules, n, j)
    ensures Find(s, rules, n) == j
  {
    var k := Find(s, rules, n);
    OneKey(s, rules.keys[j], rules.keys[k]);
  }

  lemma QuietFront(s: string, key: Key)
    requires key.Valid() && s != [] && !IsAnchor(s[0])
    ensures !(key.Text() <= s)
  {
    KeyShape(key);
  }

  lemma QuietNotFound(s: string, rules: Rules, n: nat)
    requires rules.Valid() && s != [] && !IsAnchor(s[0])
    ensures Find(s, rules, n) == -1
  {
    var j := Find(s, rules, n);
    if j >= 0 {
      QuietFront(s, rules.keys[j]);
    }
  }

  lemma NumericQuiet(r: string)
    requires Numeric(r)
    ensures Quiet(r)
  {
  }

  // ----- Text that cannot begin a placeholder is skipped -----

  lemma Rejoin(out: string, t: string, y: string)
    requires out != [] && t != [] && out[0] == t[0] && out[1..] == t[1..] + y
    ensures out == t + y
  {
    assert out == [out[0]] + out[1..];
  }

  lemma {:induction false} ReplaceSkips(u: string, x: string, key: Key, r: string)
    requires key.Valid() && Quiet(u)
    ensures Replace(u + x, key.Text(), r) == u + Replace(x, key.Text(), r)
    decreases |u|
  {
    if u == [] {
      assert u + x == x;
    } else {
      var out := Replace(u + x, key.Text(), r);
      QuietFront(u + x, key);
      assert (u + x)[1..] == u[1..] + x;
      ReplaceSkips(u[1..], x, key, r);
      assert out[1..] == u[1..] + Replace(x, key.Text(), r);
      Rejoin(out, u, Replace(x, key.Text(), r));
    }
  }

  lemma {:induction false} SimultaneousSkips(u: string, x: string, rules: Rules, n: nat)
    requires rules.Valid() && n <= |rules.keys| && Quiet(u)
    ensures Simultaneous(u + x, rules, n) == u + Simultaneous(x, rules, n)
    decreases |u|
  {
    if u == [] {
      assert u + x == x;
    } else {
      var out := Simultaneous(u + x, rules, n);
      QuietNotFound(u + x, rules, n);
      assert (u + x)[1..] == u[1..] + x;
      SimultaneousSkips(u[1..], x, rules, n);
      assert out[1..] == u[1..] + Simultaneous(x, rules, n);
      Rejoin(out, u, Simultaneous(x, rules, n));
    }
  }

  // ----- A placeholder at the front -----

  lemma SimultaneousKeeps(t: string, x: string, rules: Rules, n: nat)
    requires rules.Valid() && n <= |rules.keys| && t != [] && Quiet(t[1..])
    requires Find(t + x, rules, n) == -1
    ensures Simultaneous(t + x, rules, n) == t + Simultaneous(x, rules, n)
  {
    var out, y := Simultaneous(t + x, rules, n), Simultaneous(x, rules, n);
    assert (t + x)[1..] == t[1..] + x;
    SimultaneousSkips(t[1..], x, rules, n);
    assert out[1..] == t[1..] + y;
    Rejoin(out, t, y);
  }

  lemma SimultaneousAt(x: string, k: nat, rules: Rules, n: nat)
    requires rules.Valid() && n <= |rules.keys| && k < |rules.keys|
    ensures Simultaneous(rules.keys[k].Text() + x, rules, n) ==
            (if k < n then rules.values[k] else rules.keys[k].Text()) + Simultaneous(x, rules, n)
  {
    var p := rules.keys[k].Text();
    var s := p + x;
    if k < n {
      FindIs(s, rules, n, k);
      assert s[|p|..] == x;
    } else {
      var j := Find(s, rules, n);
      if j >= 0 {
        OneKey(s, rules.keys[j], rules.keys[k]);
      }
      KeyShape(rules.keys[k]);
      SimultaneousKeeps(p, x, rules, n);
    }
  }

  lemma ReplaceAt(x: string, a: Key, b: Key, r: string)
    requires a.Valid() && b.Valid()
    ensures Replace(a.Text() + x, b.Text(), r) == (if a == b then r else a.Text()) + Replace(x, b.Text(), r)
  {
    var p := a.Text();
    var s := p + x;
    if a == b {
      assert s[|p|..] == x;
    } else {
      if b.Text() <= s {
        OneKey(s, a, b);
      }
      KeyShape(a);
      assert s[1..] == p[1..] + x;
      ReplaceSkips(p[1..], x, b, r);
      Rejoin(Replace(s, b.Text(), r), p, Replace(x, b.Text(), r));
    }
  }

  lemma FrontOfResult(s: string, rules: Rules, n: nat)
    requires rules.Valid() && n <= |rules.keys| && s != []
    ensures var out, j := Simultaneous(s, rules, n), Find(s, rules, n);
            && out != []
            && (j >= 0 ==> out[0] == rules.values[j][0] && IsNumeral(out[0]))
            && (j < 0 ==> out[0] == s[0] && out[1..] == Simultaneous(s[1..], rules, n))
  {
  }

  lemma PrefixTail(t: string, out: string)
    requires t != [] && t <= out
    ensures t[0] == out[0] && t[1..] <= out[1..]
  {
  }

  /** Text other than numerals survives a simultaneous replacement only as itself. */
  lemma {:induction false} LettersSurvive(t: string, s: string, rules: Rules, n: nat)
    requires rules.Valid() && n <= |rules.keys| && t <= Simultaneous(s, rules, n)
    requires forall i :: 0 <= i < |t| ==> !IsNumeral(t[i])
    ensures t <= s && Simultaneous(s, rules, n) == t + Simultaneous(s[|t|..], rules, n)
    decreases |t|
  {
    if t != [] {
      var out := Simultaneous(s, rules, n);
      FrontOfResult(s, rules, n);
      PrefixTail(t, out);
      LettersSurvive(t[1..], s[1..], rules, n);
      assert s[1..][|t[1..]|..] == s[|t|..];
      Rejoin(out, t, Simultaneous(s[|t|..], rules, n));
      assert t == [s[0]] + t[1..] && s == [s[0]] + s[1..];
    }
  }

  // ----- When a replacement makes a new placeholder -----

  /** The text starts with a bare stem of placeholder `m`, directly followed by one of
      the first `n` placeholders, whose value starts with the digit `m` ends with. */
  ghost predicate HazardAt(s: string, rules: Rules, n: nat, m: nat)
    requires rules.Valid() && m < |rules.keys|
  {
    && rules.keys[m].stem <= s
    && var j := Find(s[|rules.keys[m].stem|..], rules, n);
       j >= 0 && rules.values[j][0] == rules.keys[m].suffix
  }

  ghost predicate Hazard(s: string, rules: Rules, n: nat, m: nat)
    requires rules.Valid() && m < |rules.keys|
    decreases |s|
  {
    s != [] && (HazardAt(s, rules, n, m) || Hazard(s[1..], rules, n, m))
  }

  lemma {:induction false} HazardSkips(u: string, x: string, rules: Rules, n: nat, m: nat)
    requires rules.Valid() && m < |rules.keys| && Quiet(u)
    ensures Hazard(u + x, rules, n, m) == Hazard(x, rules, n, m)
    decreases |u|
  {
    if u == [] {
      assert u + x == x;
    } else {
      assert (u + x)[0] == u[0];
      assert (u + x)[1..] == u[1..] + x;
      HazardSkips(u[1..], x, rules, n, m);
    }
  }

  /** After a whole placeholder comes a digit, not another placeholder. */
  lemma NoHazardInside(x: string, k: nat, rules: Rules, n: nat, m: nat)
    requires rules.Valid() && k < |rules.keys| && m < |rules.keys|
    ensures !HazardAt(rules.keys[k].Text() + x, rules, n, m)
  {
    var a, b := rules.keys[k], rules.keys[m];
    var s := a.Text() + x;
    KeyShape(a);
    if b.stem <= s {
      var i := |b.stem|;
      assert forall h :: 0 <= h < |a.stem| ==> s[h] == a.stem[h];
      assert s[|a.stem|] == a.suffix;
      assert forall h :: 0 <= h < i ==> s[h] == b.stem[h];
      assert i <= |a.stem|;
      var rest := s[i..];
      assert rest[0] == s[i];
      if i < |a.stem| {
        assert a.stem[i] == a.stem[1..][i - 1];
      }
      assert !IsAnchor(rest[0]);
      QuietNotFound(rest, rules, n);
    }
  }

  lemma HazardPass(x: string, k: nat, rules: Rules, n: nat, m: nat)
    requires rules.Valid() && k < |rules.keys| && m < |rules.keys|
    ensures Hazard(rules.keys[k].Text() + x, rules, n, m) == Hazard(x, rules, n, m)
  {
    var p := rules.keys[k].Text();
    KeyShape(rules.keys[k]);
    NoHazardInside(x, k, rules, n, m);
    assert (p + x)[1..] == p[1..] + x;
    HazardSkips(p[1..], x, rules, n, m);
  }

  lemma HazardNotFound(s: string, rules: Rules, n: nat, m: nat)
    requires rules.Valid() && m < |rules.keys| && HazardAt(s, rules, n, m)
    ensures Find(s, rules, n) == -1
  {
    var k := Find(s, rules, n);
    if k >= 0 {
      var p := rules.keys[k].Text();
      assert s == p + s[|p|..];
      NoHazardInside(s[|p|..], k, rules, n, m);
    }
  }

  lemma HazardCreates(s: string, rules: Rules, n: nat, m: nat)
    requires rules.Valid() && n <= |rules.keys| && m < |rules.keys| && HazardAt(s, rules, n, m)
    ensures rules.keys[m].Text() <= Simultaneous(s, rules, n)
  {
    var t := rules.keys[m].stem;
    var rest := s[|t|..];
    HazardNotFound(s, rules, n, m);
    assert s == t + rest;
    SimultaneousKeeps(t, rest, rules, n);
    FrontOfResult(rest, rules, n);
  }

  /** A placeholder at the front of the result was there before, or is a hazard. */
  lemma FrontPlaceholder(s: string, rules: Rules, n: nat, m: nat)
    requires rules.Valid() && n <= |rules.keys| && m < |rules.keys|
    requires rules.keys[m].Text() <= Simultaneous(s, rules, n)
    ensures (rules.keys[m].Text() <= s && m >= n) || HazardAt(s, rules, n, m)
  {
    var out, key := Simultaneous(s, rules, n), rules.keys[m];
    var t := key.stem;
    assert t <= out;
    LettersSurvive(t, s, rules, n);
    var rest := s[|t|..];
    assert out[|t|] == key.suffix == Simultaneous(rest, rules, n)[0];
    FrontOfResult(rest, rules, n);
    if Find(rest, rules, n) < 0 {
      assert key.Text() <= s;
      FrontOfResult(s, rules, n);
      if m < n {
        FindIs(s, rules, n, m);
      }
    }
  }

  /** One more replacement extends the simultaneous one, unless it finds a hazard. */
  lemma {:induction false} OneMoreReplacement(s: string, rules: Rules, k: nat)
    requires rules.Valid() && k < |rules.keys| && !Hazard(s, rules, k, k)
    ensures Replace(Simultaneous(s, rules, k), rules.keys[k].Text(), rules.values[k]) == Simultaneous(s, rules, k + 1)
    decreases |s|
  {
    if s != [] {
      var key, r, j := rules.keys[k], rules.values[k], Find(s, rules, k + 1);
      if j >= 0 {
        var p := rules.keys[j].Text();
        var x := s[|p|..];
        assert s == p + x;
        HazardPass(x, j, rules, k, k);
        OneMoreReplacement(x, rules, k);
        SimultaneousAt(x, j, rules, k);
        SimultaneousAt(x, j, rules, k + 1);
        if j == k {
          ReplaceAt(Simultaneous(x, rules, k), key, key, r);
        } else {
          NumericQuiet(rules.values[j]);
          ReplaceSkips(rules.values[j], Simultaneous(x, rules, k), key, r);
        }
      } else {
        NotFoundBelow(s, rules, k);
        var out := Simultaneous(s, rules, k);
        OneMoreReplacement(s[1..], rules, k);
        if key.Text() <= out {
          FrontPlaceholder(s, rules, k, k);
        }
        assert out[1..] == Simultaneous(s[1..], rules, k);
      }
    }
  }

  // ----- Counting -----

  /** How often a placeholder occurs. */
  function Occurrences(s: string, key: Key): nat
    decreases |s|
  {
    if s == [] then 0
    else if key.Text() <= s then 1 + Occurrences(s[|key.Text()|..], key)
    else Occurrences(s[1..], key)
  }

  function Anchors(s: string): nat {
    if s == [] then 0 else (if IsAnchor(s[0]) then 1 else 0) + Anchors(s[1..])
  }

  lemma {:induction false} AnchorsConcat(u: string, x: string)
    ensures Anchors(u + x) == Anchors(u) + Anchors(x)
    decreases |u|
  {
    if u == [] {
      assert u + x == x;
    } else {
      assert (u + x)[1..] == u[1..] + x;
      AnchorsConcat(u[1..], x);
    }
  }

  lemma {:induction false} QuietHasNone(u: string)
    requires Quiet(u)
    ensures Anchors(u) == 0
    decreases |u|
  {
    if u != [] {
      QuietHasNone(u[1..]);
    }
  }

  lemma KeyHasOne(key: Key)
    requires key.Valid()
    ensures Anchors(key.Text()) == 1
  {
    KeyShape(key);
    QuietHasNone(key.Text()[1..]);
  }

  lemma {:induction false} OccurrencesSkip(u: string, x: string, key: Key)
    requires key.Valid() && Quiet(u)
    ensures Occurrences(u + x, key) == Occurrences(x, key)
    decreases |u|
  {
    if u == [] {
      assert u + x == x;
    } else {
      QuietFront(u + x, key);
      assert (u + x)[1..] == u[1..] + x;
      OccurrencesSkip(u[1..], x, key);
    }
  }

  lemma OccurrencesAt(x: string, a: Key, b: Key)
    requires a.Valid() && b.Valid()
    ensures Occurrences(a.Text() + x, b) == Occurrences(x, b) + (if a == b then 1 else 0)
  {
    var p := a.Text();
    var s := p + x;
    if a == b {
      assert s[|p|..] == x;
    } else {
      if b.Text() <= s {
        OneKey(s, a, b);
      }
      KeyShape(a);
      assert s[1..] == p[1..] + x;
      OccurrencesSkip(p[1..], x, b);
    }
  }

  /** Putting a character in front hides no occurrence, and can complete one. */
  lemma OccurrencesCons(c: char, y: string, key: Key)
    requires key.Valid()
    ensures Occurrences([c] + y, key) == Occurrences(y, key) + (if key.Text() <= [c] + y then 1 else 0)
  {
    var s, p := [c] + y, key.Text();
    assert s[1..] == y;
    if p <= s {
      var x := s[|p|..];
      KeyShape(key);
      assert y == p[1..] + x;
      OccurrencesSkip(p[1..], x, key);
    }
  }

  /** A replacement takes away one anchor for each occurrence. */
  lemma {:induction false} ReplaceCounts(x: string, key: Key, r: string)
    requires key.Valid() && Quiet(r)
    ensures Anchors(Replace(x, key.Text(), r)) + Occurrences(x, key) == Anchors(x)
    decreases |x|
  {
    if x != [] {
      var p := key.Text();
      if p <= x {
        var y := x[|p|..];
        assert x == p + y;
        ReplaceCounts(y, key, r);
        QuietHasNone(r);
        KeyHasOne(key);
        AnchorsConcat(p, y);
        AnchorsConcat(r, Replace(y, p, r));
      } else {
        ReplaceCounts(x[1..], key, r);
        AnchorsConcat([x[0]], Replace(x[1..], p, r));
      }
    }
  }

  /** Replacing one placeholder loses no occurrence of another. */
  lemma {:induction false} ReplaceKeepsOthers(x: string, a: Key, b: Key, r: string)
    requires a.Valid() && b.Valid() && a != b && Quiet(r)
    ensures Occurrences(Replace(x, a.Text(), r), b) >= Occurrences(x, b)
    decreases |x|
  {
    if x != [] {
      var p, q := a.Text(), b.Text();
      if p <= x {
        var y := x[|p|..];
        assert x == p + y;
        ReplaceKeepsOthers(y, a, b, r);
        OccurrencesAt(y, a, b);
        OccurrencesSkip(r, Replace(y, p, r), b);
      } else if q <= x {
        var y := x[|q|..];
        assert x == q + y;
        ReplaceKeepsOthers(y, a, b, r);
        ReplaceAt(y, b, a, r);
        OccurrencesAt(Replace(y, p, r), b, b);
      } else {
        ReplaceKeepsOthers(x[1..], a, b, r);
        OccurrencesCons(x[0], Replace(x[1..], p, r), b);
      }
    }
  }

  lemma PlainFront(s: string, rules: Rules, n: nat, m: nat)
    requires rules.Valid() && n <= |rules.keys| && m < |rules.keys| && s != [] && Find(s, rules, |rules.keys|) < 0
    ensures Occurrences(s, rules.keys[m]) == Occurrences(s[1..], rules.keys[m])
    ensures Occurrences(Simultaneous(s, rules, n), rules.keys[m]) ==
            Occurrences(Simultaneous(s[1..], rules, n), rules.keys[m]) + (if HazardAt(s, rules, n, m) then 1 else 0)
  {
    var all, key, j := |rules.keys|, rules.keys[m], Find(s, rules, n);
    assert j >= 0 ==> Starts(s, rules, all, j);
    assert !Starts(s, rules, all, m);
    var out, y := Simultaneous(s, rules, n), Simultaneous(s[1..], rules, n);
    assert out == [s[0]] + y;
    OccurrencesCons(s[0], y, key);
    if HazardAt(s, rules, n, m) {
      HazardCreates(s, rules, n, m);
    } else if key.Text() <= out {
      FrontPlaceholder(s, rules, n, m);
    }
  }

  /** After a simultaneous replacement, a placeholder not yet replaced occurs more often
      than before, and one already replaced occurs at all, exactly for a hazard. */
  lemma {:induction false} SimultaneousOccurrences(s: string, rules: Rules, n: nat, m: nat)
    requires rules.Valid() && n <= |rules.keys| && m < |rules.keys|
    ensures var before := if m >= n then Occurrences(s, rules.keys[m]) else 0;
            var after := Occurrences(Simultaneous(s, rules, n), rules.keys[m]);
            after >= before && (after > before <==> Hazard(s, rules, n, m))
    decreases |s|
  {
    if s != [] {
      var key, j := rules.keys[m], Find(s, rules, |rules.keys|);
      if j >= 0 {
        var p := rules.keys[j].Text();
        var x := s[|p|..];
        assert s == p + x;
        SimultaneousOccurrences(x, rules, n, m);
        SimultaneousAt(x, j, rules, n);
        OccurrencesAt(x, rules.keys[j], key);
        HazardPass(x, j, rules, n, m);
        if j < n {
          OccurrencesSkip(rules.values[j], Simultaneous(x, rules, n), key);
        } else {
          OccurrencesAt(Simultaneous(x, rules, n), rules.keys[j], key);
        }
      } else {
        SimultaneousOccurrences(s[1..], rules, n, m);
        PlainFront(s, rules, n, m);
      }
    }
  }

  /** A replaced placeholder at the front loses its anchor, another keeps it. */
  lemma AnchorsAt(x: string, k: nat, rules: Rules, n: nat)
    requires rules.Valid() && n <= |rules.keys| && k < |rules.keys|
    ensures Anchors(Simultaneous(rules.keys[k].Text() + x, rules, n)) ==
            Anchors(Simultaneous(x, rules, n)) + (if k < n then 0 else 1)
  {
    var y := Simultaneous(x, rules, n);
    SimultaneousAt(x, k, rules, n);
    if k < n {
      NumericQuiet(rules.values[k]);
      QuietHasNone(rules.values[k]);
      AnchorsConcat(rules.values[k], y);
    } else {
      KeyHasOne(rules.keys[k]);
      AnchorsConcat(rules.keys[k].Text(), y);
    }
  }

  lemma NotFoundBelow(s: string, rules: Rules, n: nat)
    requires rules.Valid() && n < |rules.keys| && s != [] && Find(s, rules, n + 1) < 0
    ensures Find(s, rules, n) < 0 && !(rules.keys[n].Text() <= s)
  {
    var i := Find(s, rules, n);
    assert i >= 0 ==> Starts(s, rules, n + 1, i);
    assert !Starts(s, rules, n + 1, n);
  }

  ghost predicate CountsAgree(s: string, rules: Rules, n: nat)
    requires rules.Valid() && n < |rules.keys|
  {
    Anchors(Simultaneous(s, rules, n + 1)) + Occurrences(s, rules.keys[n]) == Anchors(Simultaneous(s, rules, n))
  }

  lemma CountsAgreeAt(x: string, j: nat, rules: Rules, n: nat)
    requires rules.Valid() && j <= n < |rules.keys| && CountsAgree(x, rules, n)
    ensures CountsAgree(rules.keys[j].Text() + x, rules, n)
  {
    AnchorsAt(x, j, rules, n);
    AnchorsAt(x, j, rules, n + 1);
    OccurrencesAt(x, rules.keys[j], rules.keys[n]);
  }

  lemma CountsAgreePlain(s: string, rules: Rules, n: nat)
    requires rules.Valid() && n < |rules.keys| && s != [] && Find(s, rules, n + 1) < 0
    requires CountsAgree(s[1..], rules, n)
    ensures CountsAgree(s, rules, n)
  {
    NotFoundBelow(s, rules, n);
    AnchorsConcat([s[0]], Simultaneous(s[1..], rules, n));
    AnchorsConcat([s[0]], Simultaneous(s[1..], rules, n + 1));
  }

  lemma {:induction false} SimultaneousCounts(s: string, rules: Rules, n: nat)
    requires rules.Valid() && n < |rules.keys|
    ensures CountsAgree(s, rules, n)
    decreases |s|
  {
    if s != [] {
      var j := Find(s, rules, n + 1);
      if j >= 0 {
        var p := rules.keys[j].Text();
        assert s == p + s[|p|..];
        SimultaneousCounts(s[|p|..], rules, n);
        CountsAgreeAt(s[|p|..], j, rules, n);
      } else {
        SimultaneousCounts(s[1..], rules, n);
        CountsAgreePlain(s, rules, n);
      }
    }
  }

  // ----- The theorems -----

  /** A hazard for one of the first `n` replacements by the time its turn comes. */
  ghost predicate AnyHazard(s: string, rules: Rules, n: nat)
    requires rules.Valid() && n <= |rules.keys|
  {
    exists k :: 0 <= k < n && Hazard(s, rules, k, k)
  }

  lemma AnyHazardStep(s: string, rules: Rules, n: nat)
    requires rules.Valid() && 0 < n <= |rules.keys|
    ensures AnyHazard(s, rules, n) <==> AnyHazard(s, rules, n - 1) || Hazard(s, rules, n - 1, n - 1)
  {
    if AnyHazard(s, rules, n) {
      var k :| 0 <= k < n && Hazard(s, rules, k, k);
      assert k < n - 1 || k == n - 1;
    }
  }

  lemma {:induction false} LaterOccurrences(s: string, rules: Rules, k: nat, m: nat)
    requires rules.Valid() && k <= m < |rules.keys|
    ensures Occurrences(Sequential(s, rules, k), rules.keys[m]) >= Occurrences(s, rules.keys[m])
    decreases k
  {
    if k > 0 {
      LaterOccurrences(s, rules, k - 1, m);
      ReplaceKeepsOthers(Sequential(s, rules, k - 1), rules.keys[k - 1], rules.keys[m], rules.values[k - 1]);
    }
  }

  lemma {:induction false} NothingToReplace(s: string, rules: Rules)
    requires rules.Valid()
    ensures Simultaneous(s, rules, 0) == s
    decreases |s|
  {
    if s != [] {
      NothingToReplace(s[1..], rules);
    }
  }

  lemma CompareStep(s: string, rules: Rules, k: nat)
    requires rules.Valid() && k < |rules.keys|
    ensures Anchors(Sequential(s, rules, k + 1)) + Occurrences(Sequential(s, rules, k), rules.keys[k])
            == Anchors(Sequential(s, rules, k))
    ensures Occurrences(Sequential(s, rules, k), rules.keys[k]) >= Occurrences(s, rules.keys[k])
  {
    ReplaceCounts(Sequential(s, rules, k), rules.keys[k], rules.values[k]);
    LaterOccurrences(s, rules, k, k);
  }

  /** Up to the first hazard the two agree; from there on the sequential text has
      lost more anchors. */
  lemma {:induction false} Compare(s: string, rules: Rules, n: nat)
    requires rules.Valid() && n <= |rules.keys|
    ensures !AnyHazard(s, rules, n) ==> Sequential(s, rules, n) == Simultaneous(s, rules, n)
    ensures AnyHazard(s, rules, n) ==> Anchors(Sequential(s, rules, n)) < Anchors(Simultaneous(s, rules, n))
    decreases n
  {
    if n == 0 {
      NothingToReplace(s, rules);
    } else {
      var k := n - 1;
      AnyHazardStep(s, rules, n);
      Compare(s, rules, k);
      if AnyHazard(s, rules, n) {
        CompareStep(s, rules, k);
        SimultaneousCounts(s, rules, k);
        SimultaneousOccurrences(s, rules, k, k);
      } else {
        OneMoreReplacement(s, rules, k);
      }
    }
  }

  /** Replacing the placeholders one after the other is replacing them all at once,
      exactly for the texts and values without a hazard. */
  lemma SequentialIsSimultaneous(s: string, rules: Rules)
    requires rules.Valid()
    ensures Sequential(s, rules, |rules.keys|) == Simultaneous(s, rules, |rules.keys|)
            <==> !AnyHazard(s, rules, |rules.keys|)
  {
    Compare(s, rules, |rules.keys|);
  }

  /** A placeholder directly follows the bare stem of placeholder `m` at position `i`. */
  ghost predicate StemBeforeKey(s: string, rules: Rules, i: nat, m: nat)
    requires m < |rules.keys|
  {
    && i <= |s| && rules.keys[m].stem <= s[i..]
    && Find(s[i..][|rules.keys[m].stem|..], rules, |rules.keys|) >= 0
  }

  lemma {:induction false} HazardNeedsStem(s: string, rules: Rules, n: nat, m: nat) returns (i: nat)
    requires rules.Valid() && n <= |rules.keys| && m < |rules.keys| && Hazard(s, rules, n, m)
    ensures StemBeforeKey(s, rules, i, m)
    decreases |s|
  {
    if HazardAt(s, rules, n, m) {
      i := 0;
      var rest := s[|rules.keys[m].stem|..];
      var j := Find(rest, rules, n);
      assert Starts(rest, rules, |rules.keys|, j);
      assert s[0..] == s;
    } else {
      var i' := HazardNeedsStem(s[1..], rules, n, m);
      i := i' + 1;
      assert s[1..][i'..] == s[i..];
    }
  }

  /** Where no placeholder follows a bare stem, whatever the values: one pass, and no
      placeholder left. */
  lemma PlainTextReplaced(s: string, rules: Rules)
    requires rules.Valid()
    requires forall i: nat, m: nat :: m < |rules.keys| ==> !StemBeforeKey(s, rules, i, m)
    ensures Sequential(s, rules, |rules.keys|) == Simultaneous(s, rules, |rules.keys|)
    ensures forall m :: 0 <= m < |rules.keys| ==> Occurrences(Sequential(s, rules, |rules.keys|), rules.keys[m]) == 0
  {
    var n := |rules.keys|;
    if AnyHazard(s, rules, n) {
      var k :| 0 <= k < n && Hazard(s, rules, k, k);
      var i := HazardNeedsStem(s, rules, k, k);
    }
    SequentialIsSimultaneous(s, rules);
    forall m | 0 <= m < n
      ensures Occurrences(Sequential(s, rules, n), rules.keys[m]) == 0
    {
      SimultaneousOccurrences(s, rules, n, m);
      if Hazard(s, rules, n, m) {
        var i := HazardNeedsStem(s, rules, n, m);
      }
    }
  }
}
