/** The port placeholders of a cache XML: the eight replacements that
    `createDuplicateXMLFile` makes, as an instance of `Substitution`.
 */
module Placeholders {
  import opened Decimals
  import opened Leftovers
  import opened Substitution

  const HOST := "HOST_PORT"
  const LOC := "LOC_PORT"

  const KEYS: seq<Key> := [
    Key(HOST, '1'), Key(HOST, '2'), Key(HOST, '3'), Key(HOST, '4'),
    Key(LOC, '1'), Key(LOC, '2'), Key(LOC, '3'), Key(LOC, '4')]

  /** The four host ports and the four locator ports. */
  type Ports = p: seq<int> | |p| == 8 witness [0, 0, 0, 0, 0, 0, 0, 0]

  function PortRules(ports: Ports): Rules {
    Rules(KEYS, [Decimal(ports[0]), Decimal(ports[1]), Decimal(ports[2]), Decimal(ports[3]),
                 Decimal(ports[4]), Decimal(ports[5]), Decimal(ports[6]), Decimal(ports[7])])
  }

  lemma {:induction false} DigitsNumeric(n: nat)
    ensures Numeric(Digits(n))
  {
    if n >= 10 {
      DigitsNumeric(n / 10);
    }
  }

  lemma DecimalNumeric(n: int)
    ensures Numeric(Decimal(n))
  {
    DigitsNumeric(if n < 0 then -n else n);
  }

  lemma StemsValid()
    ensures HOST != [] && LOC != [] && IsAnchor(HOST[0]) && IsAnchor(LOC[0]) && Quiet(HOST[1..]) && Quiet(LOC[1..])
    ensures forall i :: 0 <= i < |HOST| ==> !IsNumeral(HOST[i])
    ensures forall i :: 0 <= i < |LOC| ==> !IsNumeral(LOC[i])
  {
  }

  lemma KeysValid(k: nat)
    requires k < 8
    ensures KEYS[k].Valid()
  {
    StemsValid();
  }

  lemma KeysDistinct(j: nat, k: nat)
    requires j < k < 8
    ensures KEYS[j] != KEYS[k]
  {
    assert HOST[0] != LOC[0];
  }

  lemma PortRulesValid(ports: Ports)
    ensures PortRules(ports).Valid()
  {
    forall k | 0 <= k < 8
      ensures KEYS[k].Valid()
    {
      KeysValid(k);
    }
    forall j, k | 0 <= j < k < 8
      ensures KEYS[j] != KEYS[k]
    {
      KeysDistinct(j, k);
    }
    var rules := PortRules(ports);
    forall k | 0 <= k < 8
      ensures Numeric(rules.values[k])
    {
      DecimalNumeric(ports[k]);
    }
  }

  // ----- Which port goes where -----

  /** The number of a port: four host ports, then four locator ports. */
  type PortIndex = k: nat | k < 8 witness 0

  /** The name under which a text refers to a port. */
  function Name(k: PortIndex): string {
    if k < 4 then "HOST_PORT" + Digits(k + 1) else "LOC_PORT" + Digits(k - 3)
  }

  lemma NameIsKey(ports: Ports, k: PortIndex)
    ensures Name(k) == KEYS[k].Text() && PortRules(ports).values[k] == Decimal(ports[k])
  {
    assert Digits(1) == "1" && Digits(2) == "2" && Digits(3) == "3" && Digits(4) == "4";
  }

  /** The text holds neither stem. */
  ghost predicate Stemless(u: string) {
    forall i :: 0 <= i <= |u| ==> !("HOST_PORT" <= u[i..]) && !("LOC_PORT" <= u[i..])
  }

  /** A reference to a port, and the text up to the next one. */
  datatype Piece = Piece(port: PortIndex, after: string)

  /** A text cut at its references, with the first `n` ports shown as numbers and the
      others by name. */
  ghost function Rendered(before: string, pieces: seq<Piece>, ports: Ports, n: nat): string
    decreases |pieces|
  {
    if pieces == [] then before
    else
      var k := pieces[0].port;
      before + ((if k < n then Decimal(ports[k]) else Name(k)) + Rendered(pieces[0].after, pieces[1..], ports, n))
  }

  /** Between its references a text is free of stems. */
  ghost predicate AllStemless(before: string, pieces: seq<Piece>) {
    Stemless(before) && forall i :: 0 <= i < |pieces| ==> Stemless(pieces[i].after)
  }

  /** What follows a text without stems: nothing, a reference or a number. */
  ghost predicate Breaks(x: string) {
    x == [] || IsAnchor(x[0]) || IsNumeral(x[0])
  }

  /** No placeholder starts in a text without stems. */
  lemma StemlessFront(u: string, x: string, k: PortIndex)
    requires u != [] && Stemless(u) && Breaks(x)
    ensures !(KEYS[k].Text() <= u + x)
  {
    var t, s := KEYS[k].stem, u + x;
    KeysValid(k);
    KeyShape(KEYS[k]);
    if |t| <= |u| {
      assert u[0..] == u;
      assert t <= s ==> t <= u;
    } else {
      assert t[|u|] == t[1..][|u| - 1];
      assert x != [] ==> s[|u|] == x[0];
    }
  }

  lemma StemlessTail(u: string)
    requires u != [] && Stemless(u)
    ensures Stemless(u[1..])
  {
    forall i | 0 <= i <= |u[1..]| ensures !("HOST_PORT" <= u[1..][i..]) && !("LOC_PORT" <= u[1..][i..]) {
      assert u[1..][i..] == u[i + 1..];
    }
  }

  lemma {:induction false} ReplaceSkipsStemless(u: string, x: string, k: PortIndex, r: string)
    requires Stemless(u) && Breaks(x)
    ensures Replace(u + x, KEYS[k].Text(), r) == u + Replace(x, KEYS[k].Text(), r)
    decreases |u|
  {
    var p := KEYS[k].Text();
    if u == [] {
      assert u + x == x;
    } else {
      var out := Replace(u + x, p, r);
      StemlessFront(u, x, k);
      StemlessTail(u);
      assert (u + x)[1..] == u[1..] + x;
      ReplaceSkipsStemless(u[1..], x, k, r);
      Rejoin(out, u, Replace(x, p, r));
    }
  }

  /** A reference shown either way. */
  lemma ShownBreaks(k: PortIndex, ports: Ports, n: nat, rest: string)
    ensures Breaks((if k < n then Decimal(ports[k]) else Name(k)) + rest)
  {
    DecimalNumeric(ports[k]);
    NameIsKey(ports, k);
    KeysValid(k);
    KeyShape(KEYS[k]);
  }

  /** One replacement, at a reference. */
  lemma ReplaceShown(k: PortIndex, ports: Ports, n: PortIndex, rest: string)
    ensures Replace((if k < n then Decimal(ports[k]) else Name(k)) + rest, KEYS[n].Text(), Decimal(ports[n])) ==
            (if k < n + 1 then Decimal(ports[k]) else Name(k)) + Replace(rest, KEYS[n].Text(), Decimal(ports[n]))
  {
    KeysValid(k);
    KeysValid(n);
    NameIsKey(ports, k);
    if k < n {
      DecimalNumeric(ports[k]);
      NumericQuiet(Decimal(ports[k]));
      ReplaceSkips(Decimal(ports[k]), rest, KEYS[n], Decimal(ports[n]));
    } else {
      if n < k {
        KeysDistinct(n, k);
      }
      ReplaceAt(rest, KEYS[k], KEYS[n], Decimal(ports[n]));
    }
  }

  lemma {:induction false} ReplaceRendered(before: string, pieces: seq<Piece>, ports: Ports, n: PortIndex)
    requires AllStemless(before, pieces)
    ensures Replace(Rendered(before, pieces, ports, n), KEYS[n].Text(), Decimal(ports[n])) ==
            Rendered(before, pieces, ports, n + 1)
    decreases |pieces|
  {
    if pieces == [] {
      assert before + [] == before;
      ReplaceSkipsStemless(before, [], n, Decimal(ports[n]));
    } else {
      var k, rest := pieces[0].port, Rendered(pieces[0].after, pieces[1..], ports, n);
      ReplaceRendered(pieces[0].after, pieces[1..], ports, n);
      ShownBreaks(k, ports, n, rest);
      ReplaceShown(k, ports, n, rest);
      ReplaceSkipsStemless(before, (if k < n then Decimal(ports[k]) else Name(k)) + rest, n, Decimal(ports[n]));
    }
  }

  lemma SequentialNext(text: string, ports: Ports, n: PortIndex)
    ensures Sequential(text, PortRules(ports), n + 1) ==
            Replace(Sequential(text, PortRules(ports), n), KEYS[n].Text(), Decimal(ports[n]))
  {
    NameIsKey(ports, n);
  }

  /** After `n` replacements the first `n` ports are shown as numbers. */
  lemma {:induction false} SequentialRendered(before: string, pieces: seq<Piece>, ports: Ports, n: nat)
    requires AllStemless(before, pieces) && n <= 8
    ensures Sequential(Rendered(before, pieces, ports, 0), PortRules(ports), n) == Rendered(before, pieces, ports, n)
    decreases n
  {
    if n > 0 {
      SequentialRendered(before, pieces, ports, n - 1);
      SequentialNext(Rendered(before, pieces, ports, 0), ports, n - 1);
      ReplaceRendered(before, pieces, ports, n - 1);
    }
  }

  /** The eight replacements, in the order of the source. In a text whose references stand
      apart from bare stems, each reference gives way to the port it names. */
  method CreateDuplicateXml(text: string, ports: Ports) returns (xml: string)
    ensures xml == Sequential(text, PortRules(ports), 8)
    ensures PortRules(ports).Valid()
    ensures !AnyHazard(text, PortRules(ports), 8) <==> xml == Simultaneous(text, PortRules(ports), 8)
    ensures forall m :: 0 <= m < 8 ==> (Occurrences(xml, KEYS[m]) > 0 <==> Left(text, PortRules(ports), m))
    ensures forall before, pieces :: AllStemless(before, pieces) && text == Rendered(before, pieces, ports, 0) ==>
              xml == Rendered(before, pieces, ports, 8)
    ensures forall k: PortIndex, u, v :: Stemless(u) && Stemless(v) && text == u + (Name(k) + v) ==>
              xml == u + (Decimal(ports[k]) + v)
  {
    PortRulesValid(ports);
    SequentialIsSimultaneous(text, PortRules(ports));
    forall m | 0 <= m < 8
      ensures Occurrences(Sequential(text, PortRules(ports), 8), KEYS[m]) > 0 <==> Left(text, PortRules(ports), m)
    {
      PlaceholderLeft(text, PortRules(ports), m);
    }
    forall before, pieces | AllStemless(before, pieces) && text == Rendered(before, pieces, ports, 0)
      ensures Sequential(text, PortRules(ports), 8) == Rendered(before, pieces, ports, 8)
    {
      SequentialRendered(before, pieces, ports, 8);
    }
    forall k: PortIndex, u, v | Stemless(u) && Stemless(v) && text == u + (Name(k) + v)
      ensures Sequential(text, PortRules(ports), 8) == u + (Decimal(ports[k]) + v)
    {
      PortReplaced(ports, k, u, v);
    }
    xml := EightReplacements(text, ports);
  }

  /** A single reference gives way to its port. */
  lemma PortReplaced(ports: Ports, k: PortIndex, u: string, v: string)
    requires Stemless(u) && Stemless(v)
    ensures Sequential(u + (Name(k) + v), PortRules(ports), 8) == u + (Decimal(ports[k]) + v)
  {
    var pieces := [Piece(k, v)];
    assert pieces[1..] == [];
    SequentialRendered(u, pieces, ports, 8);
  }

  method EightReplacements(text: string, ports: Ports) returns (xml: string)
    ensures xml == Sequential(text, PortRules(ports), 8)
  {
    xml := text;
    xml := Replace(xml, "HOST_PORT" + "1", Decimal(ports[0]));
    assert xml == Sequential(text, PortRules(ports), 1);
    xml := Replace(xml, "HOST_PORT" + "2", Decimal(ports[1]));
    assert xml == Sequential(text, PortRules(ports), 2);
    xml := Replace(xml, "HOST_PORT" + "3", Decimal(ports[2]));
    assert xml == Sequential(text, PortRules(ports), 3);
    xml := Replace(xml, "HOST_PORT" + "4", Decimal(ports[3]));
    assert xml == Sequential(text, PortRules(ports), 4);
    xml := Replace(xml, "LOC_PORT" + "1", Decimal(ports[4]));
    assert xml == Sequential(text, PortRules(ports), 5);
    xml := Replace(xml, "LOC_PORT" + "2", Decimal(ports[5]));
    assert xml == Sequential(text, PortRules(ports), 6);
    xml := Replace(xml, "LOC_PORT" + "3", Decimal(ports[6]));
    assert xml == Sequential(text, PortRules(ports), 7);
    xml := Replace(xml, "LOC_PORT" + "4", Decimal(ports[7]));
  }

  /** The eight replacements are not a simultaneous one on HOST_PORTHOST_PORT1 when the
      first port starts with a 2: the stem in front turns into HOST_PORT2. */
  lemma HazardExample(ports: Ports)
    requires Decimal(ports[0])[0] == '2'
    ensures PortRules(ports).Valid()
    ensures var text := HOST + KEYS[0].Text(); Sequential(text, PortRules(ports), 8) != Simultaneous(text, PortRules(ports), 8)
  {
    var rules := PortRules(ports);
    PortRulesValid(ports);
    var text := HOST + KEYS[0].Text();
    assert text[|HOST|..] == KEYS[0].Text();
    assert Starts(KEYS[0].Text(), rules, 1, 0);
    FindIs(KEYS[0].Text(), rules, 1, 0);
    assert HazardAt(text, rules, 1, 1);
    assert Hazard(text, rules, 1, 1);
    SequentialIsSimultaneous(text, rules);
  }

  /** They leave HOST_PORT3 in HOST_PORTLOC_PORT1 when the first locator port starts with a
      3: the turn of HOST_PORT3 is over when the locator port is put in. */
  lemma LeftoverExample(ports: Ports)
    requires Decimal(ports[4])[0] == '3'
    ensures Occurrences(Sequential(HOST + KEYS[4].Text(), PortRules(ports), 8), KEYS[2]) > 0
  {
    var rules, text := PortRules(ports), HOST + KEYS[4].Text();
    PortRulesValid(ports);
    assert text[|HOST|..] == KEYS[4].Text();
    assert Supplies(KEYS[4].Text(), rules, 4, '3');
    assert LeftAt(text, rules, 2);
    assert Left(text, rules, 2);
    PlaceholderLeft(text, rules, 2);
  }

  /** They leave nothing in HOST_PORTHOST_PORT1 when the first port starts with a 2: the
      HOST_PORT2 that arises is consumed by the next replacement. */
  lemma ConsumedExample(ports: Ports, m: nat)
    requires Decimal(ports[0])[0] == '2' && m < 8
    ensures Occurrences(Sequential(HOST + KEYS[0].Text(), PortRules(ports), 8), KEYS[m]) == 0
  {
    var rules, text := PortRules(ports), HOST + KEYS[0].Text();
    PortRulesValid(ports);
    assert text[|HOST|..] == KEYS[0].Text();
    assert Supplies(KEYS[0].Text(), rules, 0, '2');
    assert Becomes(text, rules, 1);
    ConsumedNotLeft(text, rules, 1, m);
    assert Becomes(KEYS[0].Text(), rules, 0);
    ConsumedNotLeft(KEYS[0].Text(), rules, 0, m);
    StemsValid();
    assert text[1..] == HOST[1..] + KEYS[0].Text();
    LeftSkips(HOST[1..], KEYS[0].Text(), rules, m);
    KeyShape(KEYS[0]);
    assert KEYS[0].Text()[1..] + [] == KEYS[0].Text()[1..];
    LeftSkips(KEYS[0].Text()[1..], [], rules, m);
    PlaceholderLeft(text, rules, m);
  }
}
