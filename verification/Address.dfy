/** The parser of server addresses (transport.cpp): one pass over the characters with a state and
    the texts collected so far. */
module Addresses {

  datatype Mode = InName | InKey | InValue

  /** A transport as the parser returns it. */
  datatype Transport = Transport(name: string, config: map<string, string>)

  datatype Machine = Machine(mode: Mode, name: string, key: string, value: string,
                             config: map<string, string>, found: seq<Transport>)

  const FRESH := Machine(InName, "", "", "", map[], [])

  /** One round of the loop. */
  function Step(m: Machine, c: char): Machine {
    match m.mode
    case InName => if c == ':' then m.(mode := InKey) else m.(name := m.name + [c])
    case InKey => if c == '=' then m.(mode := InValue) else m.(key := m.key + [c])
    case InValue =>
      if c == ',' then m.(mode := InKey, config := m.config[m.key := m.value], key := "", value := "")
      else if c == ';' then
        Machine(InName, "", "", "", map[], m.found + [Transport(m.name, m.config[m.key := m.value])])
      else m.(value := m.value + [c])
  }

  function Scan(m: Machine, s: string): Machine
    decreases |s|
  {
    if s == [] then m else Scan(Step(m, s[0]), s[1..])
  }

  /** After the last character: a transport without a name is dropped. */
  function Finish(m: Machine): seq<Transport> {
    if m.name == "" then m.found else m.found + [Transport(m.name, m.config[m.key := m.value])]
  }

  function Parse(s: string): seq<Transport> { Finish(Scan(FRESH, s)) }

  lemma {:induction false} ScanSplit(m: Machine, a: string, b: string)
    ensures Scan(m, a + b) == Scan(Scan(m, a), b)
    decreases |a|
  {
    if a == [] {
      assert [] + b == b;
    } else {
      assert (a + b)[0] == a[0] && (a + b)[1..] == a[1..] + b;
      ScanSplit(Step(m, a[0]), a[1..], b);
    }
  }

  /** `parseTransports`. */
  method ParseTransports(s: string) returns (r: seq<Transport>)
    ensures r == Parse(s)
  {
    var mode, name, key, value := InName, "", "", "";
    var config: map<string, string>, found := map[], [];
    for i := 0 to |s|
      invariant Scan(FRESH, s) == Scan(Machine(mode, name, key, value, config, found), s[i..])
    {
      assert s[i..][0] == s[i] && s[i..][1..] == s[i + 1..];
      var c := s[i];
      if mode == InName {
        if c == ':' {
          mode := InKey;
          continue;
        }
        name := name + [c];
      }
      if mode == InKey {
        if c == '=' {
          mode := InValue;
          continue;
        }
        key := key + [c];
      }
      if mode == InValue {
        if c == ',' {
          mode := InKey;
          config := config[key := value];
          key, value := "", "";
          continue;
        }
        if c == ';' {
          mode := InName;
          config := config[key := value];
          found := found + [Transport(name, config)];
          key, value, config, name := "", "", map[], "";
          continue;
        }
        value := value + [c];
      }
    }
    config := config[key := value];
    r := if name != "" then found + [Transport(name, config)] else found;
  }

  // ----- the text form -----

  /** A server address: a transport name and its pairs, in order. */
  datatype Address = Address(name: string, pairs: seq<(string, string)>)

  function PairText(p: (string, string)): string { p.0 + (['='] + p.1) }

  function PairsText(ps: seq<(string, string)>): string
    requires ps != []
  {
    if |ps| == 1 then PairText(ps[0]) else PairText(ps[0]) + ([','] + PairsText(ps[1..]))
  }

  function Text(a: Address): string
    requires a.pairs != []
  {
    a.name + ([':'] + PairsText(a.pairs))
  }

  function ListText(addrs: seq<Address>): string
    requires forall a :: a in addrs ==> a.pairs != []
  {
    if addrs == [] then []
    else if |addrs| == 1 then Text(addrs[0])
    else Text(addrs[0]) + ([';'] + ListText(addrs[1..]))
  }

  /** The delimiters a part of the text must not contain. */
  predicate Clean(a: Address) {
    && ':' !in a.name && a.pairs != []
    && forall p :: p in a.pairs ==> '=' !in p.0 && ',' !in p.1 && ';' !in p.1
  }

  /** The map of the pairs, entered in order over `c`. */
  function Entered(c: map<string, string>, ps: seq<(string, string)>): map<string, string>
    decreases |ps|
  {
    if ps == [] then c else Entered(c[ps[0].0 := ps[0].1], ps[1..])
  }

  /** Of two pairs with the same key the later one counts. */
  lemma {:induction false} LaterPairCounts(c: map<string, string>, ps: seq<(string, string)>, p: (string, string))
    ensures Entered(c, ps + [p]) == Entered(c, ps)[p.0 := p.1]
    decreases |ps|
  {
    if ps == [] {
      assert [] + [p] == [p] && [p][1..] == [];
    } else {
      assert (ps + [p])[1..] == ps[1..] + [p];
      LaterPairCounts(c[ps[0].0 := ps[0].1], ps[1..], p);
    }
  }

  function Meaning(a: Address): Transport { Transport(a.name, Entered(map[], a.pairs)) }

  function Meanings(addrs: seq<Address>): seq<Transport> {
    if addrs == [] then [] else [Meaning(addrs[0])] + Meanings(addrs[1..])
  }

  /** With distinct keys, the map holds exactly the pairs. */
  lemma {:induction false} EnteredExactly(c: map<string, string>, ps: seq<(string, string)>)
    requires forall i, j :: 0 <= i < j < |ps| ==> ps[i].0 != ps[j].0
    requires forall p :: p in ps ==> p.0 !in c
    ensures forall p :: p in ps ==> p.0 in Entered(c, ps) && Entered(c, ps)[p.0] == p.1
    ensures forall k :: k in c ==> k in Entered(c, ps) && Entered(c, ps)[k] == c[k]
    ensures forall k :: k in Entered(c, ps) ==> k in c || exists p :: p in ps && p.0 == k
    decreases |ps|
  {
    if ps != [] {
      var d := c[ps[0].0 := ps[0].1];
      forall p | p in ps[1..] ensures p.0 !in d {
        var i :| 0 <= i < |ps[1..]| && ps[1..][i] == p;
        assert ps[i + 1] == p;
      }
      EnteredExactly(d, ps[1..]);
      assert ps == [ps[0]] + ps[1..];
      forall k | k in Entered(c, ps) && k !in c ensures exists p :: p in ps && p.0 == k {
        if k in d { assert ps[0] in ps && ps[0].0 == k; }
        else { var p :| p in ps[1..] && p.0 == k; assert p in ps; }
      }
    }
  }

  // ----- the parser on the text form -----

  lemma {:induction false} ScanName(m: Machine, w: string)
    requires m.mode == InName && ':' !in w
    ensures Scan(m, w) == m.(name := m.name + w)
    decreases |w|
  {
    if w == [] {
      assert m.name + [] == m.name;
    } else {
      ScanName(m.(name := m.name + [w[0]]), w[1..]);
      assert m.name + [w[0]] + w[1..] == m.name + w;
    }
  }

  lemma {:induction false} ScanKey(m: Machine, w: string)
    requires m.mode == InKey && '=' !in w
    ensures Scan(m, w) == m.(key := m.key + w)
    decreases |w|
  {
    if w == [] {
      assert m.key + [] == m.key;
    } else {
      ScanKey(m.(key := m.key + [w[0]]), w[1..]);
      assert m.key + [w[0]] + w[1..] == m.key + w;
    }
  }

  lemma {:induction false} ScanValue(m: Machine, w: string)
    requires m.mode == InValue && ',' !in w && ';' !in w
    ensures Scan(m, w) == m.(value := m.value + w)
    decreases |w|
  {
    if w == [] {
      assert m.value + [] == m.value;
    } else {
      ScanValue(m.(value := m.value + [w[0]]), w[1..]);
      assert m.value + [w[0]] + w[1..] == m.value + w;
    }
  }

  lemma ScanOne(m: Machine, c: char, rest: string)
    ensures Scan(m, [c] + rest) == Scan(Step(m, c), rest)
  {
    assert ([c] + rest)[1..] == rest;
  }

  lemma ScanPair(m: Machine, p: (string, string))
    requires m.mode == InKey && m.key == "" && m.value == ""
    requires '=' !in p.0 && ',' !in p.1 && ';' !in p.1
    ensures Scan(m, PairText(p)) == m.(mode := InValue, key := p.0, value := p.1)
  {
    hide Scan;
    ScanSplit(m, p.0, ['='] + p.1);
    ScanKey(m, p.0);
    assert "" + p.0 == p.0 && "" + p.1 == p.1;
    ScanOne(m.(key := p.0), '=', p.1);
    ScanValue(m.(mode := InValue, key := p.0), p.1);
  }

  lemma {:induction false} ScanPairs(m: Machine, ps: seq<(string, string)>)
    requires m.mode == InKey && m.key == "" && m.value == "" && ps != []
    requires forall p :: p in ps ==> '=' !in p.0 && ',' !in p.1 && ';' !in p.1
    ensures var last, r := ps[|ps| - 1], Scan(m, PairsText(ps));
            && r == m.(mode := InValue, key := last.0, value := last.1, config := r.config)
            && r.config[last.0 := last.1] == Entered(m.config, ps)
    decreases |ps|
  {
    hide Scan, PairText;
    ScanPair(m, ps[0]);
    if |ps| == 1 {
      assert Entered(m.config, ps) == Entered(m.config[ps[0].0 := ps[0].1], ps[1..]);
    } else {
      var after := m.(mode := InValue, key := ps[0].0, value := ps[0].1);
      var next := m.(config := m.config[ps[0].0 := ps[0].1]);
      ScanSplit(m, PairText(ps[0]), [','] + PairsText(ps[1..]));
      ScanOne(after, ',', PairsText(ps[1..]));
      assert Step(after, ',') == next;
      ScanPairs(next, ps[1..]);
    }
  }

  lemma ScanAddress(found: seq<Transport>, a: Address)
    requires Clean(a)
    ensures var r := Scan(FRESH.(found := found), Text(a));
            && r.mode == InValue && r.name == a.name && r.found == found
            && Transport(r.name, r.config[r.key := r.value]) == Meaning(a)
  {
    hide Scan;
    var m := FRESH.(found := found);
    ScanSplit(m, a.name, [':'] + PairsText(a.pairs));
    ScanName(m, a.name);
    assert "" + a.name == a.name;
    ScanOne(m.(name := a.name), ':', PairsText(a.pairs));
    ScanPairs(m.(name := a.name, mode := InKey), a.pairs);
  }

  predicate AllClean(addrs: seq<Address>) { forall a :: a in addrs ==> Clean(a) }

  lemma {:induction false} ScanList(found: seq<Transport>, addrs: seq<Address>)
    requires AllClean(addrs) && addrs != []
    ensures Finish(Scan(FRESH.(found := found), ListText(addrs)))
         == found + if addrs[|addrs| - 1].name == "" then Meanings(addrs[..|addrs| - 1]) else Meanings(addrs)
    decreases |addrs|
  {
    hide Scan, Text, Meaning, Finish, ListText, Meanings;
    ListTextByHead(addrs);
    var a := addrs[0];
    ScanAddress(found, a);
    if |addrs| == 1 {
      OneMeaning(found, addrs, Scan(FRESH.(found := found), Text(a)));
    } else {
      var rest := addrs[1..];
      assert forall x :: x in rest ==> x in addrs && Clean(x);
      var r := Scan(FRESH.(found := found), Text(a));
      ScanSplit(FRESH.(found := found), Text(a), [';'] + ListText(rest));
      ScanOne(r, ';', ListText(rest));
      ScanList(found + [Meaning(a)], rest);
      var init := addrs[..|addrs| - 1];
      assert init[1..] == rest[..|rest| - 1] && init[0] == a;
      MeaningsByHead(addrs, found);
      MeaningsByHead(init, found);
    }
  }

  lemma ListTextByHead(addrs: seq<Address>)
    requires AllClean(addrs) && addrs != []
    ensures forall x :: x in addrs ==> x.pairs != []
    ensures ListText(addrs) == if |addrs| == 1 then Text(addrs[0]) else Text(addrs[0]) + ([';'] + ListText(addrs[1..]))
  {
    hide Text;
  }

  lemma {:induction false} OneMeaning(found: seq<Transport>, addrs: seq<Address>, r: Machine)
    requires |addrs| == 1 && r.found == found && r.name == addrs[0].name
    requires Transport(r.name, r.config[r.key := r.value]) == Meaning(addrs[0])
    ensures Finish(r) == found + if addrs[0].name == "" then Meanings(addrs[..0]) else Meanings(addrs)
  {
    hide Meaning, Meanings;
    MeaningsOfOne(addrs);
    assert found + [] == found;
  }

  lemma MeaningsOfOne(addrs: seq<Address>)
    requires |addrs| == 1
    ensures Meanings(addrs) == [Meaning(addrs[0])] && Meanings(addrs[..0]) == []
  {
    hide Meaning;
    assert addrs[1..] == [];
  }

  lemma MeaningsByHead(addrs: seq<Address>, found: seq<Transport>)
    requires addrs != []
    ensures found + Meanings(addrs) == found + [Meaning(addrs[0])] + Meanings(addrs[1..])
  {
    hide Meaning;
    var rest := Meanings(addrs[1..]);
    assert Meanings(addrs) == [Meaning(addrs[0])] + rest;
    hide Meanings;
    Regroup(found, Meaning(addrs[0]), rest);
  }

  lemma Regroup(a: seq<Transport>, b: Transport, c: seq<Transport>)
    ensures a + ([b] + c) == a + [b] + c
  {
  }

  lemma {:induction false} MeaningsLength(addrs: seq<Address>)
    ensures |Meanings(addrs)| == |addrs|
  {
    if addrs != [] { MeaningsLength(addrs[1..]); }
  }

  /** Parsing the text of a list of addresses gives the list, with the map of each one's pairs, if
      and only if the last name is not empty; every other name may be. */
  lemma ParsesListIff(addrs: seq<Address>)
    requires AllClean(addrs)
    ensures Parse(ListText(addrs)) == Meanings(addrs) <==> (addrs == [] || addrs[|addrs| - 1].name != "")
  {
    if addrs != [] {
      hide Scan, Finish, Meaning;
      ScanList([], addrs);
      assert FRESH.(found := []) == FRESH;
      MeaningsLength(addrs);
      MeaningsLength(addrs[..|addrs| - 1]);
      assert [] + Meanings(addrs) == Meanings(addrs);
      assert [] + Meanings(addrs[..|addrs| - 1]) == Meanings(addrs[..|addrs| - 1]);
    }
  }
}
