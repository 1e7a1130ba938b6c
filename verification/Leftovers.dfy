/** What the replacements leave behind. Replacing placeholders one after the other can
    complete a bare stem into a new placeholder; whether that one is consumed by a
    later replacement or stays in the text depends on the order of the rules. Here the
    text after any number of replacements is unfolded from its front, and the
    placeholders that are left over are exactly characterised.
 */
module Leftovers {
  import opened Substitution

  /** When its turn comes, placeholder `k` stands at the front of the text: it is there
      from the start, or its stem is there and an earlier replacement behind the stem
      supplies the digit. */
  ghost predicate Becomes(s: string, rules: Rules, k: nat)
    requires rules.Valid()
    decreases |s|, 0
  {
    && k < |rules.keys|
    && var key := rules.keys[k];
       || key.Text() <= s
       || (key.Valid() && key.stem <= s && exists i :: 0 <= i < k && Supplies(s[|key.stem|..], rules, i, key.suffix))
  }

  /** The front of the text turns into the value of placeholder `i`, which starts with `c`. */
  ghost predicate Supplies(s: string, rules: Rules, i: nat, c: char)
    requires rules.Valid()
    decreases |s|, 1
  {
    Becomes(s, rules, i) && rules.values[i][0] == c
  }

  // ----- At most one placeholder can stand at the front -----

  lemma BecomesAnchored(s: string, rules: Rules, k: nat)
    requires rules.Valid() && Becomes(s, rules, k)
    ensures s != [] && IsAnchor(s[0])
  {
    KeyShape(rules.keys[k]);
  }

  lemma StemLetter(key: Key, i: nat)
    requires key.Valid() && 0 < i < |key.stem|
    ensures !IsAnchor(key.stem[i])
  {
    assert key.stem[i] == key.stem[1..][i - 1];
  }

  /** Only one stem at the front can be directly followed by an anchor. */
  lemma SameStem(s: string, a: Key, b: Key)
    requires a.Valid() && b.Valid() && a.stem <= s && b.stem <= s
    requires |a.stem| < |s| && IsAnchor(s[|a.stem|]) && |b.stem| < |s| && IsAnchor(s[|b.stem|])
    ensures a.stem == b.stem
  {
    var m, n := |a.stem|, |b.stem|;
    assert forall i :: 0 < i < m ==> !IsAnchor(s[i]) by {
      assert forall i :: 0 < i < m ==> s[i] == a.stem[1..][i - 1];
    }
    assert forall i :: 0 < i < n ==> !IsAnchor(s[i]) by {
      assert forall i :: 0 < i < n ==> s[i] == b.stem[1..][i - 1];
    }
  }

  /** A whole placeholder at the front leaves no room for a stem followed by an anchor. */
  lemma NoStemInKey(s: string, a: Key, b: Key)
    requires a.Valid() && b.Valid() && a.Text() <= s && b.stem <= s
    requires |b.stem| < |s|
    ensures !IsAnchor(s[|b.stem|])
  {
    KeyShape(a);
    var i := |b.stem|;
    assert s[|a.stem|] == a.suffix;
    assert forall h :: 0 <= h < i ==> s[h] == b.stem[h];
    assert i <= |a.stem|;
    if i < |a.stem| {
      StemLetter(a, i);
    }
  }

  lemma {:induction false} BecomesUnique(s: string, rules: Rules, j: nat, k: nat)
    requires rules.Valid() && Becomes(s, rules, j) && Becomes(s, rules, k)
    ensures j == k
    decreases |s|
  {
    var a, b := rules.keys[j], rules.keys[k];
    if a.Text() <= s && b.Text() <= s {
      OneKey(s, a, b);
    } else if a.Text() <= s {
      var i :| 0 <= i < k && Supplies(s[|b.stem|..], rules, i, b.suffix);
      BecomesAnchored(s[|b.stem|..], rules, i);
      NoStemInKey(s, a, b);
    } else if b.Text() <= s {
      var i :| 0 <= i < j && Supplies(s[|a.stem|..], rules, i, a.suffix);
      BecomesAnchored(s[|a.stem|..], rules, i);
      NoStemInKey(s, b, a);
    } else {
      var i :| 0 <= i < j && Supplies(s[|a.stem|..], rules, i, a.suffix);
      var h :| 0 <= h < k && Supplies(s[|b.stem|..], rules, h, b.suffix);
      BecomesAnchored(s[|a.stem|..], rules, i);
      BecomesAnchored(s[|b.stem|..], rules, h);
      SameStem(s, a, b);
      BecomesUnique(s[|a.stem|..], rules, i, h);
      assert a == b;
    }
  }

  // ----- The sequential text from the front -----

  lemma {:induction false} SequentialOfNothing(rules: Rules, n: nat)
    requires rules.Valid() && n <= |rules.keys|
    ensures Sequential([], rules, n) == []
  {
    if n > 0 {
      SequentialOfNothing(rules, n - 1);
    }
  }

  lemma {:induction false} SequentialSkips(u: string, x: string, rules: Rules, n: nat)
    requires rules.Valid() && n <= |rules.keys| && Quiet(u)
    ensures Sequential(u + x, rules, n) == u + Sequential(x, rules, n)
    decreases n
  {
    if n > 0 {
      SequentialSkips(u, x, rules, n - 1);
      ReplaceSkips(u, Sequential(x, rules, n - 1), rules.keys[n - 1], rules.values[n - 1]);
    }
  }

  /** A placeholder at the front waits for its turn and then gives way to its value. */
  lemma {:induction false} SequentialAt(x: string, k: nat, rules: Rules, n: nat)
    requires rules.Valid() && k < |rules.keys| && n <= |rules.keys|
    ensures Sequential(rules.keys[k].Text() + x, rules, n) ==
            (if n <= k then rules.keys[k].Text() else rules.values[k]) + Sequential(x, rules, n)
    decreases n
  {
    if n > 0 {
      var y := Sequential(x, rules, n - 1);
      SequentialAt(x, k, rules, n - 1);
      if n - 1 <= k {
        ReplaceAt(y, rules.keys[k], rules.keys[n - 1], rules.values[n - 1]);
      } else {
        NumericQuiet(rules.values[k]);
        ReplaceSkips(rules.values[k], y, rules.keys[n - 1], rules.values[n - 1]);
      }
    }
  }

  /** A key at the front of a stem and more text is the stem with the next character. */
  lemma KeyOverStem(t: Key, y: string, key: Key)
    requires t.Valid() && key.Valid() && y != [] && key.Text() <= t.stem + y
    requires IsAnchor(y[0]) || IsNumeral(y[0])
    ensures key.stem == t.stem && key.suffix == y[0] && IsNumeral(y[0])
  {
    var s, m, n := t.stem + y, |t.stem|, |key.stem|;
    KeyShape(key);
    assert s[n] == key.suffix;
    assert forall h :: 0 <= h < n ==> s[h] == key.stem[h];
    assert n >= m;
    if n > m {
      StemLetter(key, m);
    }
    assert key.stem == s[..n] == t.stem;
  }

  // ----- A placeholder that becomes -----

  /** While placeholder `k` is in the making, the stem stays; then it gives way to the
      value, and of the text behind only the digit it took is gone. */
  ghost predicate Unfolds(s: string, rules: Rules, k: nat, rest: string, n: nat)
    requires rules.Valid() && k < |rules.keys| && n <= |rules.keys|
  {
    var y, z := Sequential(s, rules, n), Sequential(rest, rules, n);
    if n <= k then y == rules.keys[k].stem + z
    else z != [] && y == rules.values[k] + z[1..]
  }

  /** The first character while waiting, and after the turn of `k`. */
  ghost predicate Fronted(s: string, rules: Rules, k: nat, n: nat)
    requires rules.Valid() && k < |rules.keys| && n <= |rules.keys|
  {
    var y := Sequential(s, rules, n);
    s != [] && y != [] && y[0] == if n <= k then s[0] else rules.values[k][0]
  }

  lemma CascadeStep(s: string, rules: Rules, k: nat, i: nat, rest: string, n: nat)
    requires rules.Valid() && i < k < |rules.keys| && n < |rules.keys|
    requires rules.values[i][0] == rules.keys[k].suffix && Becomes(rest, rules, i)
    requires Unfolds(s, rules, k, rest, n) && Fronted(rest, rules, i, n) && Fronted(rest, rules, i, n + 1)
    ensures Unfolds(s, rules, k, rest, n + 1)
  {
    var key, y, z, r := rules.keys[k], Sequential(s, rules, n), Sequential(rest, rules, n), rules.values[n];
    var p := rules.keys[n].Text();
    if n < k {
      BecomesAnchored(rest, rules, i);
      if p <= y {
        KeyOverStem(key, z, rules.keys[n]);
      }
      StemStays(key, z, rules.keys[n], r);
    } else if n == k {
      assert y == key.Text() + z[1..];
      ReplaceAt(z[1..], key, key, r);
      DigitDropped(z, key, r);
    } else {
      NumericQuiet(rules.values[k]);
      ReplaceSkips(rules.values[k], z[1..], rules.keys[n], r);
      DigitDropped(z, rules.keys[n], r);
    }
  }

  /** Replacing behind a numeral at the front leaves it where it is. */
  lemma DigitDropped(z: string, key: Key, r: string)
    requires key.Valid() && z != [] && IsNumeral(z[0])
    ensures Replace(z, key.Text(), r) == [z[0]] + Replace(z[1..], key.Text(), r)
  {
    QuietFront(z, key);
  }

  lemma StemStays(t: Key, z: string, key: Key, r: string)
    requires t.Valid() && key.Valid() && !(key.Text() <= t.stem + z)
    ensures Replace(t.stem + z, key.Text(), r) == t.stem + Replace(z, key.Text(), r)
  {
    var s, p := t.stem + z, key.Text();
    assert s[1..] == t.stem[1..] + z;
    ReplaceSkips(t.stem[1..], z, key, r);
    Rejoin(Replace(s, p, r), t.stem, Replace(z, p, r));
  }

  lemma {:induction false} CascadeUnfolds(s: string, rules: Rules, k: nat, i: nat, n: nat)
    requires rules.Valid() && i < k < |rules.keys| && n <= |rules.keys| && rules.keys[k].stem <= s
    requires var rest := s[|rules.keys[k].stem|..];
             Supplies(rest, rules, i, rules.keys[k].suffix)
    ensures Unfolds(s, rules, k, s[|rules.keys[k].stem|..], n)
    decreases |s|, 0, n
  {
    var t := rules.keys[k].stem;
    var rest := s[|t|..];
    if n == 0 {
      assert s == t + rest;
    } else {
      CascadeUnfolds(s, rules, k, i, n - 1);
      BecomesFronted(rest, rules, i, n - 1);
      BecomesFronted(rest, rules, i, n);
      CascadeStep(s, rules, k, i, rest, n - 1);
    }
  }

  lemma {:induction false} BecomesFronted(s: string, rules: Rules, k: nat, n: nat)
    requires rules.Valid() && Becomes(s, rules, k) && n <= |rules.keys|
    ensures Fronted(s, rules, k, n)
    decreases |s|, 1
  {
    var key := rules.keys[k];
    BecomesAnchored(s, rules, k);
    if key.Text() <= s {
      var x := s[|key.Text()|..];
      assert s == key.Text() + x;
      SequentialAt(x, k, rules, n);
    } else {
      var i :| 0 <= i < k && Supplies(s[|key.stem|..], rules, i, key.suffix);
      CascadeUnfolds(s, rules, k, i, n);
    }
  }

  // ----- A front that becomes nothing -----

  /** None of the first `n` placeholders comes to stand at the front. */
  ghost predicate Inert(s: string, rules: Rules, n: nat)
    requires rules.Valid()
  {
    forall k :: 0 <= k < n ==> !Becomes(s, rules, k)
  }

  ghost predicate Letters(t: string) {
    forall i :: 0 <= i < |t| ==> !IsNumeral(t[i])
  }

  /** Text other than numerals survives the replacements only as itself. */
  lemma {:induction false} StemSurvives(t: string, s: string, rules: Rules, n: nat)
    requires rules.Valid() && n <= |rules.keys| && Letters(t) && t <= Sequential(s, rules, n)
    ensures t <= s && Sequential(s, rules, n) == t + Sequential(s[|t|..], rules, n)
    decreases n, 1, |t|
  {
    if t != [] {
      var y := Sequential(s, rules, n);
      if s == [] {
        SequentialOfNothing(rules, n);
      } else {
        FrontKept(s, rules, n, t[0]);
        PrefixTail(t, y);
        StemSurvives(t[1..], s[1..], rules, n);
        assert s[1..][|t[1..]|..] == s[|t|..];
        Rejoin(y, t, Sequential(s[|t|..], rules, n));
        assert t == [s[0]] + t[1..] && s == [s[0]] + s[1..];
      }
    }
  }

  /** A letter at the front of the result is the letter that was there. */
  lemma {:induction false} FrontKept(s: string, rules: Rules, n: nat, c: char)
    requires rules.Valid() && n <= |rules.keys| && s != [] && !IsNumeral(c) && [c] <= Sequential(s, rules, n)
    ensures Sequential(s, rules, n) == [s[0]] + Sequential(s[1..], rules, n)
    decreases n, 1, 0
  {
    forall k | 0 <= k < n ensures !Becomes(s, rules, k) {
      if Becomes(s, rules, k) {
        BecomesFronted(s, rules, k, n);
      }
    }
    InertFront(s, rules, n);
  }

  lemma SourceBecomes(s: string, rules: Rules, k: nat, i: int)
    requires rules.Valid() && i < k < |rules.keys| && rules.keys[k].stem <= s
    requires if i < 0 then rules.keys[k].Text() <= s
             else Supplies(s[|rules.keys[k].stem|..], rules, i, rules.keys[k].suffix)
    ensures Becomes(s, rules, k)
  {
  }

  lemma {:induction false} InertFront(s: string, rules: Rules, n: nat)
    requires rules.Valid() && n <= |rules.keys| && s != [] && Inert(s, rules, n)
    ensures Sequential(s, rules, n) == [s[0]] + Sequential(s[1..], rules, n)
    decreases n, 0, 0
  {
    if n == 0 {
      assert s == [s[0]] + s[1..];
    } else {
      var k := n - 1;
      InertFront(s, rules, k);
      var y, p := Sequential(s, rules, k), rules.keys[k].Text();
      assert y[1..] == Sequential(s[1..], rules, k);
      if p <= y {
        var i := FrontSource(s, rules, k, k);
        SourceBecomes(s, rules, k, i);
      }
    }
  }

  /** Where a placeholder at the front of the text comes from: it was there, or its stem
      was there and one of the first `n` replacements supplied the digit. */
  lemma {:induction false} FrontSource(s: string, rules: Rules, n: nat, m: nat) returns (i: int)
    requires rules.Valid() && n <= |rules.keys| && m < |rules.keys|
    requires rules.keys[m].Text() <= Sequential(s, rules, n)
    ensures rules.keys[m].stem <= s && i < n
    ensures if i < 0 then rules.keys[m].Text() <= s
            else Supplies(s[|rules.keys[m].stem|..], rules, i, rules.keys[m].suffix)
    decreases n, 2
  {
    var key, y := rules.keys[m], Sequential(s, rules, n);
    var t := key.stem;
    assert t <= y;
    StemSurvives(t, s, rules, n);
    var rest := s[|t|..];
    var z := Sequential(rest, rules, n);
    assert y[|t|] == key.suffix == z[0];
    i := -1;
    if rest == [] {
      SequentialOfNothing(rules, n);
    } else if Inert(rest, rules, n) {
      InertFront(rest, rules, n);
      assert key.Text() <= s;
    } else {
      i :| 0 <= i < n && Becomes(rest, rules, i);
      BecomesFronted(rest, rules, i, n);
    }
  }

  // ----- What is left over -----

  /** The text starts with the bare stem of placeholder `m`, and the replacement that
      supplies the digit comes at or after the turn of `m`, which is then over. */
  ghost predicate LeftAt(s: string, rules: Rules, m: nat)
    requires rules.Valid() && m < |rules.keys|
  {
    && rules.keys[m].stem <= s
    && exists j :: m <= j < |rules.keys| && Supplies(s[|rules.keys[m].stem|..], rules, j, rules.keys[m].suffix)
  }

  ghost predicate Left(s: string, rules: Rules, m: nat)
    requires rules.Valid() && m < |rules.keys|
    decreases |s|
  {
    s != [] && (LeftAt(s, rules, m) || Left(s[1..], rules, m))
  }

  lemma NotLeftAt(s: string, rules: Rules, m: nat)
    requires rules.Valid() && m < |rules.keys| && s != [] && !IsAnchor(s[0])
    ensures !LeftAt(s, rules, m)
  {
  }

  lemma {:induction false} LeftSkips(u: string, x: string, rules: Rules, m: nat)
    requires rules.Valid() && m < |rules.keys| && Quiet(u)
    ensures Left(u + x, rules, m) == Left(x, rules, m)
    decreases |u|
  {
    if u == [] {
      assert u + x == x;
    } else {
      assert (u + x)[1..] == u[1..] + x;
      NotLeftAt(u + x, rules, m);
      LeftSkips(u[1..], x, rules, m);
    }
  }

  /** A front that is consumed is not left over. */
  lemma ConsumedNotLeft(s: string, rules: Rules, k: nat, m: nat)
    requires rules.Valid() && Becomes(s, rules, k) && m < |rules.keys|
    ensures !LeftAt(s, rules, m)
  {
    var a, b := rules.keys[k], rules.keys[m];
    if LeftAt(s, rules, m) {
      var j :| m <= j < |rules.keys| && Supplies(s[|b.stem|..], rules, j, b.suffix);
      BecomesAnchored(s[|b.stem|..], rules, j);
      if a.Text() <= s {
        NoStemInKey(s, a, b);
      } else {
        var i :| 0 <= i < k && Supplies(s[|a.stem|..], rules, i, a.suffix);
        BecomesAnchored(s[|a.stem|..], rules, i);
        SameStem(s, a, b);
        BecomesUnique(s[|a.stem|..], rules, i, j);
      }
    }
  }

  lemma DigitNotCounted(z: string, v: string, key: Key)
    requires key.Valid() && z != [] && IsNumeral(z[0]) && Quiet(v)
    ensures Occurrences(v + z[1..], key) == Occurrences(z, key)
  {
    QuietFront(z, key);
    OccurrencesSkip(v, z[1..], key);
  }

  /** Where a placeholder is consumed at the front, nothing is left over there, and what
      is left over is left over behind it. */
  lemma LeftBehind(s: string, rules: Rules, k: nat, m: nat) returns (rest: string)
    requires rules.Valid() && Becomes(s, rules, k) && m < |rules.keys|
    ensures |rest| < |s| && Left(s, rules, m) == Left(rest, rules, m)
    ensures var n := |rules.keys|;
            Occurrences(Sequential(s, rules, n), rules.keys[m]) == Occurrences(Sequential(rest, rules, n), rules.keys[m])
  {
    var key, n := rules.keys[k], |rules.keys|;
    ConsumedNotLeft(s, rules, k, m);
    KeyShape(key);
    NumericQuiet(rules.values[k]);
    if key.Text() <= s {
      rest := s[|key.Text()|..];
      assert s == key.Text() + rest;
      assert s[1..] == key.Text()[1..] + rest;
      LeftSkips(key.Text()[1..], rest, rules, m);
      SequentialAt(rest, k, rules, n);
      OccurrencesSkip(rules.values[k], Sequential(rest, rules, n), rules.keys[m]);
    } else {
      rest := s[|key.stem|..];
      assert s == key.stem + rest;
      assert s[1..] == key.stem[1..] + rest;
      LeftSkips(key.stem[1..], rest, rules, m);
      var i :| 0 <= i < k && Supplies(s[|key.stem|..], rules, i, key.suffix);
      CascadeUnfolds(s, rules, k, i, n);
      BecomesFronted(rest, rules, i, n);
      DigitNotCounted(Sequential(rest, rules, n), rules.values[k], rules.keys[m]);
    }
  }

  lemma LeftoverSource(s: string, rules: Rules, m: nat)
    requires rules.Valid() && m < |rules.keys| && Inert(s, rules, |rules.keys|)
    requires rules.keys[m].Text() <= Sequential(s, rules, |rules.keys|)
    ensures LeftAt(s, rules, m)
  {
    var i := FrontSource(s, rules, |rules.keys|, m);
    if i < m {
      SourceBecomes(s, rules, m, i);
    }
  }

  lemma LeftoverCompleted(s: string, rules: Rules, m: nat)
    requires rules.Valid() && m < |rules.keys| && Inert(s, rules, |rules.keys|) && LeftAt(s, rules, m)
    ensures rules.keys[m].Text() <= Sequential(s, rules, |rules.keys|)
  {
    var key, n := rules.keys[m], |rules.keys|;
    var j :| m <= j < n && Supplies(s[|key.stem|..], rules, j, key.suffix);
    var rest := s[|key.stem|..];
    var y, z := Sequential(s, rules, n), Sequential(rest, rules, n);
    assert s[1..] == key.stem[1..] + rest;
    InertFront(s, rules, n);
    SequentialSkips(key.stem[1..], rest, rules, n);
    BecomesFronted(rest, rules, j, n);
    Rejoin(y, key.stem, z);
    CompletedKey(key, z);
  }

  lemma CompletedKey(key: Key, z: string)
    requires z != [] && z[0] == key.suffix
    ensures key.Text() <= key.stem + z
  {
    assert key.stem + z == key.Text() + z[1..];
  }

  /** Exactly which placeholders the replacements leave in the text: those whose bare stem
      stands before something that turns, at or after their own turn, into a value that
      starts with their digit. */
  lemma {:induction false} PlaceholderLeft(s: string, rules: Rules, m: nat)
    requires rules.Valid() && m < |rules.keys|
    ensures Occurrences(Sequential(s, rules, |rules.keys|), rules.keys[m]) > 0 <==> Left(s, rules, m)
    decreases |s|
  {
    var key, n := rules.keys[m], |rules.keys|;
    if s == [] {
      SequentialOfNothing(rules, n);
    } else if Inert(s, rules, n) {
      PlaceholderLeft(s[1..], rules, m);
      InertFront(s, rules, n);
      OccurrencesCons(s[0], Sequential(s[1..], rules, n), key);
      if LeftAt(s, rules, m) {
        LeftoverCompleted(s, rules, m);
      } else if key.Text() <= Sequential(s, rules, n) {
        LeftoverSource(s, rules, m);
      }
    } else {
      var k :| 0 <= k < n && Becomes(s, rules, k);
      var rest := LeftBehind(s, rules, k, m);
      PlaceholderLeft(rest, rules, m);
    }
  }
}
