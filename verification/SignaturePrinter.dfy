/** The signature iterator and its printer (signatureiterator.cpp), and when printing the tree
    of a parsed signature gives its text back. */
module SignaturePrinter {
  import opened Types
  import opened Signatures
  import opened SignatureGrammar

  // ----- what the printer prints -----

  function Codes(n: Node): string
    decreases n, 0
  {
    (match TypeToChar(n.dt) case Some(c) => [c] case None => []) + SubText(n.sub)
  }

  function Chain(ns: seq<Node>): string
    decreases ns, 0
  {
    if ns == [] then [] else Codes(ns[0]) + Chain(ns[1..])
  }

  /** `iterate_over_subsig`: braces go around the whole chain when its first node is a dict entry. */
  function SubText(ns: seq<Node>): string
    decreases ns, 1
  {
    if ns != [] && ns[0].dt == DICT_ENTRY then ['{'] + (Chain(ns) + ['}']) else Chain(ns)
  }

  /** `SignatureIterator`: a chain, a place in it, and a flag. The place is the number of nodes
      already passed; past the last node it stands for the null pointer. */
  class SignatureIterator {
    const first: seq<Node>
    var current: nat
    var valid: bool

    ghost predicate Invariant()
      reads this
    {
      current <= |first| && (valid ==> current < |first|)
    }

    constructor (startnode: seq<Node>)
      ensures Invariant() && first == startnode && current == 0 && valid == (startnode != [])
    {
      first := startnode;
      current := 0;
      valid := startnode != [];
    }

    function Type(): DataType
      requires Invariant()
      reads this
    {
      if valid then first[current].dt else INVALID
    }

    /** Steps to the next node; at the last node, or on an invalid node, it reports the end. */
    method Next() returns (more: bool)
      requires Invariant()
      modifies this
      ensures Invariant()
      ensures more <==> old(valid && Type() != INVALID) && old(current) + 1 < |first|
      ensures current == if old(valid && Type() != INVALID) then old(current) + 1 else old(current)
      ensures valid == (old(valid) && (more || old(Type()) == INVALID))
    {
      if !(valid && Type() != INVALID) { return false; }
      if current + 1 == |first| {
        current := |first|;
        valid := false;
        return false;
      }
      current := current + 1;
      return true;
    }

    method Recurse() returns (sub: SignatureIterator)
      requires Invariant()
      ensures fresh(sub) && sub.Invariant() && sub.current == 0
      ensures sub.first == (if IsContainer(Type()) then first[current].sub else [])
    {
      if !IsContainer(Type()) {
        sub := new SignatureIterator([]);
      } else {
        sub := new SignatureIterator(first[current].sub);
      }
    }

    /** `signature`: prints from the first node, wherever the iterator stands. */
    method Signature() returns (text: string)
      ensures text == Chain(first)
    {
      text := [];
      var k := 0;
      while k < |first|
        invariant 0 <= k <= |first|
        invariant text + Chain(first[k..]) == Chain(first)
        decreases |first| - k
      {
        ghost var head, tail := Codes(first[k]), Chain(first[k + 1..]);
        assert first[k..][1..] == first[k + 1..];
        assert text + (head + tail) == text + head + tail;
        var c := TypeToChar(first[k].dt);
        var sub := IterateOverSubsig(first[k].sub);
        text := text + ((if c.Some? then [c.value] else []) + sub);
        k := k + 1;
      }
    }

    method IterateOverSubsig(start: seq<Node>) returns (text: string)
      ensures text == SubText(start)
      decreases start
    {
      if start == [] { return []; }
      var inner := [];
      var k := 0;
      while k < |start|
        invariant 0 <= k <= |start|
        invariant inner + Chain(start[k..]) == Chain(start)
        decreases |start| - k
      {
        ghost var head, tail := Codes(start[k]), Chain(start[k + 1..]);
        assert start[k..][1..] == start[k + 1..];
        assert inner + (head + tail) == inner + head + tail;
        var c := TypeToChar(start[k].dt);
        var sub := IterateOverSubsig(start[k].sub);
        inner := inner + ((if c.Some? then [c.value] else []) + sub);
        k := k + 1;
      }
      text := if start[0].dt == DICT_ENTRY then ['{'] + (inner + ['}']) else inner;
    }
  }

  // ----- what is printed of any type list -----

  predicate IsBracket(c: char) { c in "(){}" }

  /** A text without its brackets. */
  function Stripped(s: string): string {
    if s == [] then [] else (if IsBracket(s[0]) then [] else [s[0]]) + Stripped(s[1..])
  }

  lemma {:induction false} StrippedSplit(a: string, b: string)
    ensures Stripped(a + b) == Stripped(a) + Stripped(b)
  {
    hide IsBracket;
    if a == [] {
      assert [] + b == b;
    } else {
      assert (a + b)[1..] == a[1..] + b;
      StrippedSplit(a[1..], b);
    }
  }

  /** The tree of any type list is printed with all its type codes, in order; only brackets differ. */
  lemma {:induction false} PrintKeepsCodes(ts: seq<Ty>)
    ensures Stripped(Chain(Trees(ts))) == Stripped(Texts(ts))
  {
    hide Codes, Text;
    if ts != [] {
      assert Trees(ts)[0] == Tree(ts[0]) && Trees(ts)[1..] == Trees(ts[1..]);
      NodeKeepsCodes(ts[0]);
      PrintKeepsCodes(ts[1..]);
      StrippedSplit(Codes(Tree(ts[0])), Chain(Trees(ts[1..])));
      StrippedSplit(Text(ts[0]), Texts(ts[1..]));
    }
  }

  lemma {:induction false} NodeKeepsCodes(t: Ty)
    ensures Stripped(Codes(Tree(t))) == Stripped(Text(t))
  {
    hide *;
    NodeForms(t);
    match t
    case Leaf(_) =>
    case Arr(e) =>
      OnePrinted(Tree(e));
      NodeKeepsCodes(e);
      SubKeepsCodes([Tree(e)]);
      StrippedSplit(['a'], SubText([Tree(e)]));
      StrippedSplit(['a'], Text(e));
    case Group(dict, ms) =>
      PrintKeepsCodes(ms);
      SubKeepsCodes(Trees(ms));
      Bracketed(Opener(dict), Texts(ms), Closer(dict));
  }

  lemma NodeForms(t: Ty)
    ensures t.Leaf? ==> Codes(Tree(t)) == Text(t)
    ensures t.Arr? ==> Codes(Tree(t)) == ['a'] + SubText([Tree(t.elem)]) && Text(t) == ['a'] + Text(t.elem)
    ensures t.Group? ==> Codes(Tree(t)) == SubText(Trees(t.members)) && IsBracket(Opener(t.dict))
    ensures t.Group? ==> Text(t) == [Opener(t.dict)] + (Texts(t.members) + [Closer(t.dict)]) && IsBracket(Closer(t.dict))
  {
    hide Texts, Trees, Chain;
    if t.Leaf? {
      assert SubText([]) == [] by { NothingPrinted(); }
      assert Codes(Tree(t)) == [TypeToChar(t.dt).value] + [];
    } else if t.Group? {
      assert [] + SubText(Trees(t.members)) == SubText(Trees(t.members));
    }
  }

  lemma NothingPrinted()
    ensures Chain([]) == [] && SubText([]) == []
  {
  }

  lemma OnePrinted(n: Node)
    ensures Chain([n]) == Codes(n)
  {
    hide Codes;
    assert [n][1..] == [] && Chain([]) == [] && Codes(n) + [] == Codes(n);
  }

  lemma Bracketed(open: char, s: string, close: char)
    requires IsBracket(open) && IsBracket(close)
    ensures Stripped([open] + (s + [close])) == Stripped(s)
  {
    StrippedSplit([open], s + [close]);
    StrippedSplit(s, [close]);
    assert [open][1..] == [] && [close][1..] == [] && Stripped([]) == [];
    assert Stripped([open]) == [] && Stripped([close]) == [] && Stripped(s) + [] == Stripped(s);
    assert [] + Stripped(s) == Stripped(s);
  }

  lemma SubKeepsCodes(ns: seq<Node>)
    ensures Stripped(SubText(ns)) == Stripped(Chain(ns))
  {
    hide Chain;
    Bracketed('{', Chain(ns), '}');
  }

  /** Parentheses are never printed, and braces exactly around a chain that starts with a dict entry. */
  lemma {:induction false} NoParentheses(ns: seq<Node>)
    ensures '(' !in Chain(ns) && ')' !in Chain(ns)
    ensures ns != [] && ns[0].dt == DICT_ENTRY ==> SubText(ns) == "{" + Chain(ns) + "}"
    ensures ns == [] || ns[0].dt != DICT_ENTRY ==> SubText(ns) == Chain(ns)
    decreases ns
  {
    if ns != [] {
      NoParentheses(ns[0].sub);
      NoParentheses(ns[1..]);
      NoCode(ns[0].dt);
      assert "{" + Chain(ns) + "}" == ['{'] + (Chain(ns) + ['}']);
    }
  }

  lemma NoCode(dt: DataType)
    ensures TypeToChar(dt).Some? ==> TypeToChar(dt).value != '(' && TypeToChar(dt).value != ')'
  {
  }

  // ----- when printing undoes parsing -----

  /** The characters whose nodes the printer cannot tell from others, or never prints. */
  predicate NoStructs(s: string) {
    forall i :: 0 <= i < |s| ==> s[i] != '(' && s[i] != ')' && s[i] != 'r' && s[i] != 'e'
  }

  predicate Inside(s: string, i: int) { 0 < i <= |s| && (s[i - 1] == 'a' || s[i - 1] == '{') }

  /** Every dict entry in the range opens directly after an array or after another dict entry. */
  predicate Neat(s: string, lo: nat, hi: nat)
    requires hi <= |s|
  {
    forall i :: lo <= i < hi && s[i] == '{' ==> Inside(s, i)
  }

  /** The print of a chain: the first chain of a nested frame may get braces. */
  function Piece(first: bool, ns: seq<Node>): string { if first then SubText(ns) else Chain(ns) }

  /** A stretch of text and the nodes parsed from it: the print is the stretch when the stretch is
      neat, and shorter otherwise. */
  ghost predicate Printed(s: string, lo: nat, hi: nat, text: string)
    requires lo <= hi <= |s|
  {
    && (lo < hi ==> !Inside(s, hi))
    && if Neat(s, lo, hi) then text == s[lo..hi] else |text| < hi - lo
  }

  lemma Concatenated(s: string, lo: nat, mid: nat, hi: nat, a: string, b: string)
    requires lo < mid <= hi <= |s|
    requires Printed(s, lo, mid, a) && Printed(s, mid, hi, b)
    ensures Printed(s, lo, hi, a + b)
  {
    assert Neat(s, lo, hi) <==> Neat(s, lo, mid) && Neat(s, mid, hi);
    assert s[lo..hi] == s[lo..mid] + s[mid..hi];
  }

  lemma PieceOfPlain(first: bool, n: Node, rest: seq<Node>)
    requires n.dt != DICT_ENTRY
    ensures Piece(first, [n] + rest) == Codes(n) + Chain(rest)
  {
    var ns := [n] + rest;
    assert ns[0] == n && ns[1..] == rest;
    assert Chain(ns) == Codes(ns[0]) + Chain(ns[1..]);
  }

  /** What a frame that keeps the flag adds to its chain, against the text it consumes. */
  ghost predicate Reprints(s: string, it: nat, nested: bool, nodes: seq<Node>, r: Frame) {
    r.ok ==>
      && nodes <= r.nodes
      && it <= r.it <= |s|
      && Printed(s, it, r.it, Piece(nested && nodes == [], r.nodes[|nodes|..]))
  }

  lemma {:induction false} CreateReprints(s: string, it: nat, stack: seq<ContainerType>, ok: bool)
    requires NoStructs(s) && it <= |s|
    requires stack != [] <==> Inside(s, it)
    ensures Reprints(s, it, stack != [], [], Create(s, it, stack, ok))
    decreases |s| - it, 1
  {
    if |stack| <= MAX_OPEN && it < |s| {
      LoopReprints(s, it, stack, [], ok);
    } else {
      assert s[it..it] == [];
    }
  }

  lemma {:induction false} LoopReprints(s: string, it: nat, stack: seq<ContainerType>, nodes: seq<Node>, ok: bool)
    requires NoStructs(s) && it < |s|
    requires stack != [] && nodes == [] <==> Inside(s, it)
    ensures Reprints(s, it, stack != [], nodes, Loop(s, it, stack, nodes, ok))
    decreases |s| - it, 0
  {
    var t := CharToType(s[it]);
    if t == INVALID {
    } else if IsEnding(s[it]) {
      assert nodes[|nodes|..] == [] && s[it..it] == [];
      assert Piece(stack != [] && nodes == [], []) == [];
    } else if IsContainer(t) && t != VARIANT {
      ContainerReprints(s, it, stack, nodes, ok);
    } else {
      LeafReprints(s, it, stack, nodes, ok, t);
    }
  }

  lemma LeafPrinted(s: string, it: nat, t: DataType)
    requires NoStructs(s) && it < |s| && t == CharToType(s[it]) && t != INVALID && !IsEnding(s[it])
    requires !(IsContainer(t) && t != VARIANT)
    ensures Printed(s, it, it + 1, Codes(Node(t, []))) && t != DICT_ENTRY
  {
    assert Codes(Node(t, [])) == [s[it]] == s[it..it + 1];
  }

  /** After a node that is not a dict entry, the frame either stops or goes on. */
  lemma {:induction false} NodeThenLoop(s: string, it: nat, mid: nat, stack: seq<ContainerType>, nodes: seq<Node>,
          ok: bool, n: Node, r: Frame)
    requires NoStructs(s) && it < mid <= |s|
    requires n.dt != DICT_ENTRY && Printed(s, it, mid, Codes(n))
    requires r == Frame(nodes + [n], mid, stack, ok) || (mid < |s| && r == Loop(s, mid, stack, nodes + [n], ok))
    ensures Reprints(s, it, stack != [], nodes, r)
    decreases |s| - it, 0, 0
  {
    hide Loop, Codes, Chain, SubText, Neat, CharToType;
    var first := stack != [] && nodes == [];
    if r == Frame(nodes + [n], mid, stack, ok) {
      assert r.nodes[|nodes|..] == [n] + [];
      PieceOfPlain(first, n, []);
      ChainOfNone(Codes(n));
    } else {
      LoopReprints(s, mid, stack, nodes + [n], ok);
      if r.ok {
        var rest := r.nodes[|nodes| + 1..];
        assert r.nodes[|nodes|..] == [n] + rest;
        PieceOfPlain(first, n, rest);
        Concatenated(s, it, mid, r.it, Codes(n), Chain(rest));
      }
    }
  }

  lemma ChainOfNone(a: string)
    ensures a + Chain([]) == a
  {
  }

  lemma LeafStops(s: string, it: nat, stack: seq<ContainerType>, nodes: seq<Node>, ok: bool, t: DataType)
    requires it < |s| && t == CharToType(s[it]) && t != INVALID && !IsEnding(s[it])
    requires !(IsContainer(t) && t != VARIANT)
    ensures var r := Loop(s, it, stack, nodes, ok);
            || r == Frame(nodes + [Node(t, [])], it + 1, stack, ok)
            || (it + 1 < |s| && r == Loop(s, it + 1, stack, nodes + [Node(t, [])], ok))
  {
  }

  lemma {:induction false} LeafReprints(s: string, it: nat, stack: seq<ContainerType>, nodes: seq<Node>, ok: bool,
          t: DataType)
    requires NoStructs(s) && it < |s| && t == CharToType(s[it]) && t != INVALID && !IsEnding(s[it])
    requires !(IsContainer(t) && t != VARIANT)
    ensures Reprints(s, it, stack != [], nodes, Loop(s, it, stack, nodes, ok))
    decreases |s| - it, 0, 2
  {
    hide *;
    LeafPrinted(s, it, t);
    LeafStops(s, it, stack, nodes, ok, t);
    NodeThenLoop(s, it, it + 1, stack, nodes, ok, Node(t, []), Loop(s, it, stack, nodes, ok));
  }

  lemma OpenerKinds(s: string, it: nat)
    requires NoStructs(s) && it < |s| && !IsEnding(s[it])
    requires IsContainer(CharToType(s[it])) && CharToType(s[it]) != VARIANT
    ensures s[it] == 'a' || s[it] == '{'
    ensures s[it] == 'a' ==> CharToType(s[it]) == ARRAY && CharToContainer(s[it]) == ARRAY_C
    ensures s[it] == '{' ==> CharToType(s[it]) == DICT_ENTRY && CharToContainer(s[it]) == DICT_ENTRY_C
    ensures Inside(s, it + 1)
  {
  }

  lemma {:induction false} ContainerReprints(s: string, it: nat, stack: seq<ContainerType>, nodes: seq<Node>,
          ok: bool)
    requires NoStructs(s) && it < |s| && !IsEnding(s[it])
    requires IsContainer(CharToType(s[it])) && CharToType(s[it]) != VARIANT
    requires stack != [] && nodes == [] <==> Inside(s, it)
    ensures Reprints(s, it, stack != [], nodes, Loop(s, it, stack, nodes, ok))
    decreases |s| - it, 0, 2
  {
    hide Loop, Create, CharToType, CharToContainer, Codes, Chain, SubText, Neat, Printed, AfterContainer;
    OpenerKinds(s, it);
    LoopAtContainer(s, it, stack, nodes, ok);
    var toPush := CharToContainer(s[it]);
    var sub := Create(s, it + 1, stack + [toPush], ok);
    CreateReprints(s, it + 1, stack + [toPush], ok);
    AfterStays(s, it, stack, toPush, nodes + [Node(CharToType(s[it]), sub.nodes)], sub);
    if sub.ok {
      if s[it] == 'a' {
        ArrayReprints(s, it, stack, nodes, sub, Loop(s, it, stack, nodes, ok));
      } else {
        DictReprints(s, it, stack, nodes, sub);
      }
    }
  }

  lemma {:induction false} ArrayReprints(s: string, it: nat, stack: seq<ContainerType>, nodes: seq<Node>,
          sub: Frame, r: Frame)
    requires NoStructs(s) && it < |s| && s[it] == 'a'
    requires sub.ok && it + 1 <= sub.it <= |s| && sub.stack == stack + [ARRAY_C]
    requires sub.nodes != [] ==> it + 1 < sub.it
    requires Printed(s, it + 1, sub.it, SubText(sub.nodes))
    requires r == AfterContainer(s, it, stack, ARRAY_C, nodes + [Node(ARRAY, sub.nodes)], sub)
    ensures Reprints(s, it, stack != [], nodes, r)
    decreases |s| - it, 0, 1
  {
    assert Pop(sub.stack) == stack;
    hide Codes, Chain, SubText, Neat, Reprints, Loop;
    if r.ok {
      ArrayPrinted(s, it, sub.it, sub.nodes);
      NodeThenLoop(s, it, sub.it, stack, nodes, sub.ok, Node(ARRAY, sub.nodes), r);
    } else {
      Failed(s, it, stack != [], nodes, r);
    }
  }

  lemma Failed(s: string, it: nat, nested: bool, nodes: seq<Node>, r: Frame)
    requires !r.ok
    ensures Reprints(s, it, nested, nodes, r)
  {
  }

  lemma ArrayPrinted(s: string, it: nat, hi: nat, sub: seq<Node>)
    requires it + 1 < hi <= |s| && s[it] == 'a'
    requires Printed(s, it + 1, hi, SubText(sub))
    ensures Printed(s, it, hi, Codes(Node(ARRAY, sub)))
  {
    hide SubText;
    assert s[it..hi] == ['a'] + s[it + 1..hi];
    assert Neat(s, it, hi) <==> Neat(s, it + 1, hi);
  }

  lemma DictReprints(s: string, it: nat, stack: seq<ContainerType>, nodes: seq<Node>, sub: Frame)
    requires NoStructs(s) && it < |s| && s[it] == '{'
    requires sub.ok && it + 1 <= sub.it <= |s| && sub.stack == stack + [DICT_ENTRY_C]
    requires Printed(s, it + 1, sub.it, SubText(sub.nodes))
    requires stack != [] && nodes == [] <==> Inside(s, it)
    ensures Reprints(s, it, stack != [], nodes,
                     AfterContainer(s, it, stack, DICT_ENTRY_C, nodes + [Node(DICT_ENTRY, sub.nodes)], sub))
  {
    hide Printed, SubText, Chain, Codes, Loop, Neat;
    var n := Node(DICT_ENTRY, sub.nodes);
    assert Pop(sub.stack) == stack;
    if IsEnding(CharAt(s, sub.it)) {
      assert s[sub.it] == '}';
      assert (nodes + [n])[|nodes|..] == [n];
      DictPrinted(s, it, sub.it, sub.nodes, stack != [] && nodes == []);
    }
  }

  lemma DictPrinted(s: string, it: nat, close: nat, sub: seq<Node>, first: bool)
    requires it < close < |s| && s[it] == '{' && s[close] == '}'
    requires Printed(s, it + 1, close, SubText(sub))
    requires first <==> Inside(s, it)
    ensures Printed(s, it, close + 1, Piece(first, [Node(DICT_ENTRY, sub)]))
  {
    var text := SubText(sub);
    DictForms(sub);
    hide SubText, Chain, Codes;
    assert Neat(s, it, close + 1) <==> first && Neat(s, it + 1, close) by {
      assert s[it] == '{';
      assert Inside(s, it + 1);
    }
    assert s[it..close + 1] == ['{'] + (s[it + 1..close] + ['}']);
  }

  lemma DictForms(sub: seq<Node>)
    ensures Chain([Node(DICT_ENTRY, sub)]) == SubText(sub)
    ensures SubText([Node(DICT_ENTRY, sub)]) == ['{'] + (SubText(sub) + ['}'])
  {
    var n := Node(DICT_ENTRY, sub);
    assert [n][1..] == [];
    assert Codes(n) == [] + SubText(sub) == SubText(sub);
    assert Chain([n]) == Codes(n) + [];
  }

  // ----- the whole signature -----

  lemma {:induction false} NeverPrinted(ns: seq<Node>)
    ensures NoStructs(Chain(ns)) && NoStructs(SubText(ns))
    decreases ns, 1
  {
    if ns != [] {
      NeverPrintedNode(ns[0]);
      NeverPrinted(ns[1..]);
    }
  }

  lemma {:induction false} NeverPrintedNode(n: Node)
    ensures NoStructs(Codes(n))
    decreases n, 0
  {
    NeverPrinted(n.sub);
  }

  /** Printing the tree of an accepted signature gives its text back exactly when the text has no
      struct brackets or letters for structs and dict entries, and each dict entry opens directly
      after an array or another dict entry. */
  lemma PrintUndoesParseIff(s: string)
    requires Valid(s)
    ensures Chain(Parse(s).nodes) == s <==> NoStructs(s) && Neat(s, 0, |s|)
  {
    hide Loop, Create, Chain, SubText;
    var ns := Parse(s).nodes;
    NeverPrinted(ns);
    if NoStructs(s) {
      assert Parse(s) == Create(s, 0, [], true);
      CreateReprints(s, 0, [], true);
      assert ns[0..] == ns && s[0..|s|] == s;
    }
  }

  /** For the signatures that the D-Bus type system knows without structs: dict entries only
      directly inside arrays. */
  lemma PrintUndoesParse(s: string)
    requires Valid(s) && NoStructs(s)
    requires forall i :: 0 <= i < |s| && s[i] == '{' ==> i > 0 && s[i - 1] == 'a'
    ensures Chain(Parse(s).nodes) == s
  {
    PrintUndoesParseIff(s);
  }
}
