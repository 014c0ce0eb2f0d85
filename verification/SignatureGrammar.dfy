/** The signature parser against the grammar of D-Bus types: which type lists it turns into
    their own tree, exactly. */
module SignatureGrammar {
  import opened Bytes
  import opened Types
  import opened Signatures

  /** A type code that stands alone: every basic type, booleans, doubles and variants. */
  type LeafType = d: DataType | TypeToChar(d).Some? && d != ARRAY witness BYTE

  /** A D-Bus type. A `Group` is a struct, or a dict entry when `dict` holds. */
  datatype Ty =
    | Leaf(dt: LeafType)
    | Arr(elem: Ty)
    | Group(dict: bool, members: seq<Ty>)

  // ----- the text and the tree of a type -----

  function Text(t: Ty): (s: string)
    ensures |s| > 0 && !IsEnding(s[0])
  {
    match t
    case Leaf(dt) => [TypeToChar(dt).value]
    case Arr(e) => ['a'] + Text(e)
    case Group(dict, ms) => [Opener(dict)] + (Texts(ms) + [Closer(dict)])
  }

  function Opener(dict: bool): char { if dict then '{' else '(' }

  function Closer(dict: bool): char { if dict then '}' else ')' }

  function Kind(dict: bool): ContainerType { if dict then DICT_ENTRY_C else STRUCT_C }

  function GroupType(dict: bool): DataType { if dict then DICT_ENTRY else STRUCT }

  function Texts(ts: seq<Ty>): (s: string)
    ensures ts != [] ==> |s| > 0 && !IsEnding(s[0])
  {
    if ts == [] then [] else Text(ts[0]) + Texts(ts[1..])
  }

  function Tree(t: Ty): Node {
    match t
    case Leaf(dt) => Node(dt, [])
    case Arr(e) => Node(ARRAY, [Tree(e)])
    case Group(dict, ms) => Node(GroupType(dict), Trees(ms))
  }

  function Trees(ts: seq<Ty>): (ns: seq<Node>)
    ensures |ns| == |ts|
  {
    if ts == [] then [] else [Tree(ts[0])] + Trees(ts[1..])
  }

  // ----- the types the parser is right about -----

  /** A type list of a signature (`inner` false) or of a bracket (`inner` true), with `room`
      containers left to open. A struct inside brackets, and a dict entry outside an array,
      ends the frame of the parser, so it must come last. */
  predicate Fits(ts: seq<Ty>, inner: bool, room: int) {
    ts != [] ==> FitsHead(ts[0], inner, |ts| == 1, room) && Fits(ts[1..], inner, room)
  }

  predicate FitsHead(t: Ty, inner: bool, last: bool, room: int) {
    match t
    case Leaf(_) => true
    case Arr(e) => room >= 1 && FitsElem(e, !inner && last, room - 1)
    case Group(dict, ms) => room >= 1 && Fits(ms, true, room - 1) && (last || (!inner && !dict))
  }

  /** An array element. Booleans, doubles and variants do not end the array for the parser, so
      they only fit where the whole text ends (`end`). */
  predicate FitsElem(t: Ty, end: bool, room: int) {
    match t
    case Leaf(dt) => IsBasic(dt) || end
    case Arr(e) => room >= 1 && FitsElem(e, end, room - 1)
    case Group(_, ms) => room >= 1 && Fits(ms, true, room - 1)
  }

  // ----- trees that no type has -----

  predicate Bad(ns: seq<Node>) {
    ns != [] && (BadNode(ns[0]) || Bad(ns[1..]))
  }

  predicate BadNode(n: Node) {
    (n.dt == ARRAY && |n.sub| != 1) || Bad(n.sub)
  }

  lemma {:induction false} TreeIsGood(t: Ty)
    ensures !BadNode(Tree(t))
  {
    match t
    case Leaf(_) =>
    case Arr(e) =>
      TreeIsGood(e);
      assert [Tree(e)][1..] == [] && !Bad([Tree(e)]);
    case Group(dict, ms) =>
      TreesAreGood(ms);
      assert Tree(t).dt != ARRAY && Tree(t).sub == Trees(ms);
  }

  lemma {:induction false} TreesAreGood(ts: seq<Ty>)
    ensures !Bad(Trees(ts))
  {
    if ts != [] {
      TreeIsGood(ts[0]);
      TreesAreGood(ts[1..]);
      assert Trees(ts)[1..] == Trees(ts[1..]);
    }
  }

  lemma {:induction false} BadStays(ns: seq<Node>, more: seq<Node>)
    requires ns <= more && Bad(ns)
    ensures Bad(more)
  {
    if !BadNode(ns[0]) { BadStays(ns[1..], more[1..]); }
  }

  lemma {:induction false} BadLast(ns: seq<Node>, n: Node)
    requires BadNode(n)
    ensures Bad(ns + [n])
  {
    if ns != [] {
      BadLast(ns[1..], n);
      assert (ns + [n])[1..] == ns[1..] + [n];
    }
  }

  /** A round that keeps the flag keeps the chain it was given, and inside an array adds to it. */
  lemma {:induction false} ChainStays(s: string, it: nat, stack: seq<ContainerType>, nodes: seq<Node>, ok: bool)
    requires it < |s|
    ensures var r := Loop(s, it, stack, nodes, ok);
            r.ok ==> nodes <= r.nodes && (TopIs(stack, ARRAY_C) ==> |r.nodes| > |nodes|)
    decreases |s| - it, 0
  {
    var t := CharToType(s[it]);
    if t == INVALID || IsEnding(s[it]) || (TopIs(stack, ARRAY_C) && IsBasic(t)) {
    } else if IsContainer(t) && t != VARIANT {
      LoopAtContainer(s, it, stack, nodes, ok);
      var toPush := CharToContainer(s[it]);
      var sub := Create(s, it + 1, stack + [toPush], ok);
      hide Loop, Create;
      AfterStays(s, it, stack, toPush, nodes + [Node(t, sub.nodes)], sub);
    } else {
      AdvanceStays(s, it, it, stack, nodes + [Node(t, [])], ok);
    }
  }

  lemma {:induction false} AdvanceStays(s: string, start: nat, it: nat, stack: seq<ContainerType>, nodes: seq<Node>,
          ok: bool)
    requires start <= it < |s|
    ensures var r := Advance(s, start, it, stack, nodes, ok); r.ok ==> nodes <= r.nodes
    decreases |s| - start, 0, 0
  {
    if it + 1 != |s| { ChainStays(s, it + 1, stack, nodes, ok); }
  }

  lemma {:induction false} AfterStays(s: string, start: nat, stack: seq<ContainerType>, toPush: ContainerType,
          nodes: seq<Node>, sub: Frame)
    requires start < sub.it <= |s| && nodes != []
    requires stack + [toPush] <= sub.stack
    requires sub.ok ==> sub.stack == stack + [toPush]
    ensures var r := AfterContainer(s, start, stack, toPush, nodes, sub); r.ok ==> sub.ok && nodes <= r.nodes
    decreases |s| - start, 0, 1
  {
    var r := AfterContainer(s, start, stack, toPush, nodes, sub);
    if r.ok {
      var ending := IsEnding(CharAt(s, sub.it));
      if ending && toPush == STRUCT_C {
        if Pop(sub.stack) == [] { AdvanceStays(s, start, sub.it, Pop(sub.stack), nodes, sub.ok); }
      } else if toPush == ARRAY_C && !(TopIs(Pop(sub.stack), ARRAY_C) || sub.it == |s|) {
        ChainStays(s, sub.it, Pop(sub.stack), nodes, sub.ok);
      }
    }
  }

  // ----- the two-way correspondence, frame by frame -----

  /** A frame of a type list went wrong in a way that the caller cannot undo. */
  ghost predicate Doomed(s: string, inner: bool, r: Frame) {
    !r.ok || Bad(r.nodes) || (if inner then !IsEnding(CharAt(s, r.it)) else r.it != |s|)
  }

  ghost predicate DoomedElem(r: Frame) {
    !r.ok || |r.nodes| != 1 || Bad(r.nodes)
  }

  /** Where a type list stands: at `it`, up to the end of the text or to its closing bracket. */
  ghost predicate Placed(ts: seq<Ty>, s: string, it: nat, stack: seq<ContainerType>, inner: bool) {
    var end := it + |Texts(ts)|;
    && At(s, it, Texts(ts)) && it < |s| && |stack| <= MAX_OPEN
    && if inner then end < |s| && IsEnding(s[end]) && Closes(stack, CharToType(s[end]))
       else end == |s| && stack == []
  }

  ghost predicate ListOutcome(ts: seq<Ty>, s: string, it: nat, stack: seq<ContainerType>, nodes: seq<Node>,
          ok: bool, inner: bool, r: Frame) {
    if Fits(ts, inner, MAX_OPEN - |stack|)
    then r == Frame(nodes + Trees(ts), it + |Texts(ts)|, stack, ok)
    else Doomed(s, inner, r)
  }

  lemma {:induction false} ListFrame(ts: seq<Ty>, s: string, it: nat, stack: seq<ContainerType>, nodes: seq<Node>,
          ok: bool, inner: bool)
    requires Placed(ts, s, it, stack, inner)
    ensures ListOutcome(ts, s, it, stack, nodes, ok, inner, Loop(s, it, stack, nodes, ok))
    decreases |s| - it, 3
  {
    if ts == [] {
      assert nodes + Trees(ts) == nodes;
    } else {
      AtSplit(s, it, Text(ts[0]), Texts(ts[1..]));
      assert s[it] == Text(ts[0])[0];
      match ts[0]
      case Leaf(dt) => LeafRound(ts, dt, s, it, stack, nodes, ok, inner);
      case Arr(e) => ArrayRound(ts, e, s, it, stack, nodes, ok, inner);
      case Group(dict, ms) => GroupRound(ts, dict, ms, s, it, stack, nodes, ok, inner);
    }
  }

  lemma LoopAtArray(s: string, it: nat, stack: seq<ContainerType>, nodes: seq<Node>, ok: bool)
    requires it < |s| && s[it] == 'a'
    ensures var sub := Create(s, it + 1, stack + [ARRAY_C], ok);
            Loop(s, it, stack, nodes, ok) == AfterContainer(s, it, stack, ARRAY_C, nodes + [Node(ARRAY, sub.nodes)], sub)
  {
    LoopAtContainer(s, it, stack, nodes, ok);
  }

  lemma LoopAtGroup(s: string, it: nat, stack: seq<ContainerType>, nodes: seq<Node>, ok: bool, dict: bool)
    requires it < |s| && s[it] == Opener(dict)
    ensures var sub := Create(s, it + 1, stack + [Kind(dict)], ok);
            Loop(s, it, stack, nodes, ok)
              == AfterContainer(s, it, stack, Kind(dict), nodes + [Node(GroupType(dict), sub.nodes)], sub)
  {
    LoopAtContainer(s, it, stack, nodes, ok);
  }

  lemma LeafChar(dt: LeafType)
    ensures CharToType(TypeToChar(dt).value) == dt && !IsEnding(TypeToChar(dt).value)
    ensures dt != INVALID && !(IsContainer(dt) && dt != VARIANT)
  {
  }

  /** After the head of a list, in a frame that goes on. */
  lemma {:induction false} TailFrame(ts: seq<Ty>, s: string, it: nat, mid: nat, stack: seq<ContainerType>,
          nodes: seq<Node>, ok: bool, inner: bool, r: Frame)
    requires ts != [] && Placed(ts, s, it, stack, inner)
    requires it < mid == it + |Text(ts[0])|
    requires r == if mid == |s| then Frame(nodes + [Tree(ts[0])], mid, stack, ok)
                  else Loop(s, mid, stack, nodes + [Tree(ts[0])], ok)
    requires FitsHead(ts[0], inner, |ts| == 1, MAX_OPEN - |stack|)
    ensures ListOutcome(ts, s, it, stack, nodes, ok, inner, r)
    decreases |s| - it, 0
  {
    hide Fits, Trees, Text, Texts, Tree, FitsHead, Placed, Loop;
    var first, rest, room := Tree(ts[0]), ts[1..], MAX_OPEN - |stack|;
    TailPlaced(ts, s, it, stack, inner);
    FitsByHead(ts, inner, room);
    TreesOfTail(ts, nodes);
    if mid < |s| { ListFrame(rest, s, mid, stack, nodes + [first], ok, inner); }
  }

  lemma FitsByHead(ts: seq<Ty>, inner: bool, room: int)
    requires ts != []
    ensures Fits(ts, inner, room) == (FitsHead(ts[0], inner, |ts| == 1, room) && Fits(ts[1..], inner, room))
    ensures ts[1..] == [] ==> Fits(ts[1..], inner, room)
  {
    assert Fits([], inner, room);
  }

  lemma TextsByHead(ts: seq<Ty>)
    requires ts != []
    ensures Texts(ts) == Text(ts[0]) + Texts(ts[1..])
    ensures |Texts(ts)| == |Text(ts[0])| + |Texts(ts[1..])|
    ensures ts[1..] == [] ==> |Texts(ts[1..])| == 0
  {
    assert Texts([]) == [];
  }

  lemma NotInArray(ts: seq<Ty>, s: string, it: nat, stack: seq<ContainerType>, inner: bool)
    requires Placed(ts, s, it, stack, inner)
    ensures !TopIs(stack, ARRAY_C) && |stack| <= MAX_OPEN && it < |s| && (inner <==> stack != [])
  {
  }

  lemma TreesOfTail(ts: seq<Ty>, nodes: seq<Node>)
    requires ts != []
    ensures nodes + Trees(ts) == nodes + [Tree(ts[0])] + Trees(ts[1..])
    ensures ts[1..] == [] ==> nodes + Trees(ts) == nodes + [Tree(ts[0])]
  {
    hide Tree;
    assert nodes + ([Tree(ts[0])] + Trees(ts[1..])) == nodes + [Tree(ts[0])] + Trees(ts[1..]);
  }

  lemma TailPlaced(ts: seq<Ty>, s: string, it: nat, stack: seq<ContainerType>, inner: bool)
    requires ts != [] && Placed(ts, s, it, stack, inner)
    ensures var mid := it + |Text(ts[0])|;
            && it + |Texts(ts)| == mid + |Texts(ts[1..])|
            && if mid < |s| then Placed(ts[1..], s, mid, stack, inner) else ts[1..] == [] && |Texts(ts[1..])| == 0
  {
    hide Texts, Text, Closes, CharToType, IsEnding;
    TextsByHead(ts);
    AtSplit(s, it, Text(ts[0]), Texts(ts[1..]));
  }

  lemma LastAtEnd(ts: seq<Ty>, s: string, it: nat, stack: seq<ContainerType>, inner: bool)
    requires ts != [] && Placed(ts, s, it, stack, inner)
    ensures At(s, it, Text(ts[0]))
    ensures it + |Text(ts[0])| <= |s|
    ensures it + |Text(ts[0])| == |s| <==> !inner && |ts| == 1
  {
    hide Texts, Text, Closes, CharToType, IsEnding;
    TextsByHead(ts);
    AtSplit(s, it, Text(ts[0]), Texts(ts[1..]));
    if |ts| == 1 { assert ts[1..] == []; }
  }

  lemma {:induction false} LeafRound(ts: seq<Ty>, dt: LeafType, s: string, it: nat, stack: seq<ContainerType>,
          nodes: seq<Node>, ok: bool, inner: bool)
    requires Placed(ts, s, it, stack, inner)
    requires ts != [] && ts[0] == Leaf(dt) && s[it] == TypeToChar(dt).value
    ensures ListOutcome(ts, s, it, stack, nodes, ok, inner, Loop(s, it, stack, nodes, ok))
    decreases |s| - it, 2
  {
    hide Loop, Text, Texts, Tree, FitsHead, Fits, Placed, CharToType;
    NotInArray(ts, s, it, stack, inner);
    LeafStep(dt, s, it, stack, nodes, ok);
    LeafForms(dt, inner, |ts| == 1, MAX_OPEN - |stack|);
    TailFrame(ts, s, it, it + 1, stack, nodes, ok, inner, Loop(s, it, stack, nodes, ok));
  }

  lemma LeafForms(dt: LeafType, inner: bool, last: bool, room: int)
    ensures Tree(Leaf(dt)) == Node(dt, []) && FitsHead(Leaf(dt), inner, last, room) && |Text(Leaf(dt))| == 1
  {
  }

  lemma LeafStep(dt: LeafType, s: string, it: nat, stack: seq<ContainerType>, nodes: seq<Node>, ok: bool)
    requires it < |s| && s[it] == TypeToChar(dt).value
    requires !TopIs(stack, ARRAY_C) || !IsBasic(dt)
    ensures Loop(s, it, stack, nodes, ok)
         == if it + 1 == |s| then Frame(nodes + [Node(dt, [])], it + 1, stack, ok)
            else Loop(s, it + 1, stack, nodes + [Node(dt, [])], ok)
  {
    LeafChar(dt);
  }

  lemma {:induction false} ArrayRound(ts: seq<Ty>, e: Ty, s: string, it: nat, stack: seq<ContainerType>,
          nodes: seq<Node>, ok: bool, inner: bool)
    requires Placed(ts, s, it, stack, inner)
    requires ts != [] && ts[0] == Arr(e) && s[it] == 'a'
    ensures ListOutcome(ts, s, it, stack, nodes, ok, inner, Loop(s, it, stack, nodes, ok))
    decreases |s| - it, 2
  {
    hide Loop, Create, Text, Texts, Fits, FitsElem, FitsHead, Tree, Trees, Bad, BadNode, Placed, Doomed, AfterContainer,
         CharToType, IsEnding;
    NotInArray(ts, s, it, stack, inner);
    var sub := Create(s, it + 1, stack + [ARRAY_C], ok);
    var r := Loop(s, it, stack, nodes, ok);
    var n := Node(ARRAY, sub.nodes);
    FitsByHead(ts, inner, MAX_OPEN - |stack|);
    ArrayContents(ts, e, s, it, stack, ok, inner);
    LoopAtArray(s, it, stack, nodes, ok);
    if FitsHead(ts[0], inner, |ts| == 1, MAX_OPEN - |stack|) {
      ArrayClosed(s, it, stack, nodes, n, sub);
      TailFrame(ts, s, it, it + |Text(ts[0])|, stack, nodes, ok, inner, r);
    } else {
      SpoiledArray(s, it, stack, nodes, ok, inner);
    }
  }

  lemma SpoiledArray(s: string, it: nat, stack: seq<ContainerType>, nodes: seq<Node>, ok: bool, inner: bool)
    requires it < |s| && s[it] == 'a'
    requires var sub := Create(s, it + 1, stack + [ARRAY_C], ok); !sub.ok || BadNode(Node(ARRAY, sub.nodes))
    ensures var r := Loop(s, it, stack, nodes, ok); Doomed(s, inner, r) && (!r.ok || Bad(r.nodes))
  {
    hide Loop, Create, BadNode;
    var sub := Create(s, it + 1, stack + [ARRAY_C], ok);
    var n := Node(ARRAY, sub.nodes);
    LoopAtArray(s, it, stack, nodes, ok);
    AfterStays(s, it, stack, ARRAY_C, nodes + [n], sub);
    DoomedSub(s, inner, nodes, n, sub, Loop(s, it, stack, nodes, ok));
  }

  lemma {:induction false} ArrayContents(ts: seq<Ty>, e: Ty, s: string, it: nat, stack: seq<ContainerType>,
          ok: bool, inner: bool)
    requires Placed(ts, s, it, stack, inner)
    requires ts != [] && ts[0] == Arr(e)
    ensures var sub := Create(s, it + 1, stack + [ARRAY_C], ok);
            var n := Node(ARRAY, sub.nodes);
            && it + |Text(ts[0])| <= |s|
            && if FitsHead(ts[0], inner, |ts| == 1, MAX_OPEN - |stack|)
               then sub.nodes != [] && sub == Frame(sub.nodes, it + |Text(ts[0])|, stack + [ARRAY_C], ok) && n == Tree(ts[0])
               else !sub.ok || BadNode(n)
    decreases |s| - it, 1
  {
    LastAtEnd(ts, s, it, stack, inner);
    AtSplit(s, it, ['a'], Text(e));
    ElemFrame(e, s, it + 1, stack + [ARRAY_C], ok);
  }

  lemma ArrayClosed(s: string, it: nat, stack: seq<ContainerType>, nodes: seq<Node>, n: Node, sub: Frame)
    requires it < sub.it <= |s|
    requires sub.stack == stack + [ARRAY_C] && !TopIs(stack, ARRAY_C) && sub.nodes != []
    requires n == Node(ARRAY, sub.nodes)
    ensures AfterContainer(s, it, stack, ARRAY_C, nodes + [n], sub)
         == if sub.it == |s| then Frame(nodes + [n], sub.it, stack, sub.ok)
            else Loop(s, sub.it, stack, nodes + [n], sub.ok)
  {
    assert Pop(sub.stack) == stack;
  }

  /** A container whose contents went wrong spoils the frame that holds it. */
  lemma DoomedSub(s: string, inner: bool, nodes: seq<Node>, n: Node, sub: Frame, r: Frame)
    requires r.ok ==> sub.ok && nodes + [n] <= r.nodes
    requires !sub.ok || BadNode(n)
    ensures Doomed(s, inner, r) && (!r.ok || Bad(r.nodes))
  {
    if r.ok {
      BadLast(nodes, n);
      BadStays(nodes + [n], r.nodes);
    }
  }

  lemma {:induction false} GroupFrame(dict: bool, ms: seq<Ty>, s: string, it: nat, stack: seq<ContainerType>,
          ok: bool)
    requires At(s, it, Text(Group(dict, ms)))
    ensures it + 1 < |s|
    ensures var close := it + |Text(Group(dict, ms))| - 1;
            var room := MAX_OPEN - |stack|;
            var sub := Create(s, it + 1, stack + [Kind(dict)], ok);
            && IsEnding(s[close])
            && if room >= 1 && Fits(ms, true, room - 1)
               then sub == Frame(Trees(ms), close, stack + [Kind(dict)], ok)
               else !sub.ok || Bad(sub.nodes) || !IsEnding(CharAt(s, sub.it))
    decreases |s| - it, 0
  {
    hide Text, Texts, Fits, Bad, Loop, Create, Closes, CharToType, IsEnding, TopIs, Kind;
    GroupPlaced(dict, ms, s, it, stack);
    CreateByLoop(s, it + 1, stack + [Kind(dict)], ok);
    if |stack| + 1 <= MAX_OPEN {
      ListFrame(ms, s, it + 1, stack + [Kind(dict)], [], ok, true);
      assert [] + Trees(ms) == Trees(ms);
    }
  }

  lemma CreateByLoop(s: string, it: nat, stack: seq<ContainerType>, ok: bool)
    requires it < |s|
    ensures Create(s, it, stack, ok) == if |stack| > MAX_OPEN then Frame([], it, stack, false) else Loop(s, it, stack, [], ok)
  {
  }

  /** The members of a bracketed group stand between its brackets. */
  lemma GroupPlaced(dict: bool, ms: seq<Ty>, s: string, it: nat, stack: seq<ContainerType>)
    requires At(s, it, Text(Group(dict, ms)))
    ensures it + 1 < |s|
    ensures it + |Text(Group(dict, ms))| - 1 == it + 1 + |Texts(ms)| < |s|
    ensures IsEnding(s[it + 1 + |Texts(ms)|])
    ensures |stack| + 1 <= MAX_OPEN ==> Placed(ms, s, it + 1, stack + [Kind(dict)], true)
  {
    hide Texts;
    var closer := Closer(dict);
    AtSplit(s, it, [Opener(dict)], Texts(ms) + [closer]);
    AtSplit(s, it + 1, Texts(ms), [closer]);
    var close := it + 1 + |Texts(ms)|;
    assert s[close] == s[close..close + 1][0] == closer;
  }

  lemma {:induction false} GroupRound(ts: seq<Ty>, dict: bool, ms: seq<Ty>, s: string, it: nat,
          stack: seq<ContainerType>, nodes: seq<Node>, ok: bool, inner: bool)
    requires Placed(ts, s, it, stack, inner)
    requires ts != [] && ts[0] == Group(dict, ms) && s[it] == Opener(dict)
    ensures ListOutcome(ts, s, it, stack, nodes, ok, inner, Loop(s, it, stack, nodes, ok))
    decreases |s| - it, 2
  {
    hide Loop, Create, Text, Texts, Fits, FitsHead, Tree, Trees, Bad, BadNode, Placed, Closes, Doomed, AfterContainer,
         CharToType, IsEnding;
    NotInArray(ts, s, it, stack, inner);
    var toPush, room := Kind(dict), MAX_OPEN - |stack|;
    var sub := Create(s, it + 1, stack + [toPush], ok);
    var r := Loop(s, it, stack, nodes, ok);
    var n := Node(GroupType(dict), sub.nodes);
    FitsByHead(ts, inner, room);
    FitsGroup(ts[0], inner, |ts| == 1, room);
    LastAtEnd(ts, s, it, stack, inner);
    GroupFrame(dict, ms, s, it, stack, ok);
    LoopAtGroup(s, it, stack, nodes, ok, dict);
    if room >= 1 && Fits(ms, true, room - 1) {
      GroupClosed(s, it, stack, toPush, nodes, n, sub);
      if stack == [] && !dict {
        TailFrame(ts, s, it, it + |Text(ts[0])|, stack, nodes, ok, inner, r);
      } else {
        ClosedEarly(ts, s, it, stack, nodes, ok, inner);
      }
    } else {
      SpoiledGroup(s, it, stack, toPush, nodes, n, sub, inner);
    }
  }

  lemma SpoiledGroup(s: string, it: nat, stack: seq<ContainerType>, toPush: ContainerType, nodes: seq<Node>,
          n: Node, sub: Frame, inner: bool)
    requires it < sub.it <= |s|
    requires stack + [toPush] <= sub.stack && (sub.ok ==> sub.stack == stack + [toPush])
    requires n == Node(n.dt, sub.nodes) && (toPush == STRUCT_C || toPush == DICT_ENTRY_C)
    requires !sub.ok || Bad(sub.nodes) || !IsEnding(CharAt(s, sub.it))
    ensures Doomed(s, inner, AfterContainer(s, it, stack, toPush, nodes + [n], sub))
  {
    hide Bad, Loop, BadNode;
    AfterStays(s, it, stack, toPush, nodes + [n], sub);
    if sub.ok && Bad(sub.nodes) {
      BadInside(n);
      DoomedSub(s, inner, nodes, n, sub, AfterContainer(s, it, stack, toPush, nodes + [n], sub));
    }
  }

  lemma FitsGroup(t: Ty, inner: bool, last: bool, room: int)
    requires t.Group?
    ensures FitsHead(t, inner, last, room)
        <==> room >= 1 && Fits(t.members, true, room - 1) && (last || (!inner && !t.dict))
    ensures Tree(t) == Node(GroupType(t.dict), Trees(t.members))
  {
  }

  lemma BadInside(n: Node)
    requires Bad(n.sub)
    ensures BadNode(n)
  {
  }

  lemma GroupClosed(s: string, it: nat, stack: seq<ContainerType>, toPush: ContainerType, nodes: seq<Node>, n: Node,
          sub: Frame)
    requires it < sub.it < |s| && IsEnding(s[sub.it])
    requires sub.stack == stack + [toPush] && (toPush == STRUCT_C || toPush == DICT_ENTRY_C)
    ensures AfterContainer(s, it, stack, toPush, nodes + [n], sub)
         == if stack == [] && toPush == STRUCT_C && sub.it + 1 != |s|
            then Loop(s, sub.it + 1, stack, nodes + [n], sub.ok)
            else Frame(nodes + [n], sub.it + 1, stack, sub.ok)
  {
    assert Pop(sub.stack) == stack;
  }

  /** A group that ends its frame is the right end only when it is the last of its list. */
  lemma ClosedEarly(ts: seq<Ty>, s: string, it: nat, stack: seq<ContainerType>, nodes: seq<Node>, ok: bool,
          inner: bool)
    requires ts != [] && ts[0].Group? && Placed(ts, s, it, stack, inner)
    requires inner || ts[0].dict
    requires FitsHead(ts[0], inner, true, MAX_OPEN - |stack|)
    ensures ListOutcome(ts, s, it, stack, nodes, ok, inner,
                        Frame(nodes + [Tree(ts[0])], it + |Text(ts[0])|, stack, ok))
  {
    var mid := it + |Text(ts[0])|;
    AtSplit(s, it, Text(ts[0]), Texts(ts[1..]));
    if |ts| == 1 {
      assert ts[1..] == [] && Trees(ts) == [Tree(ts[0])];
      assert Fits(ts[1..], inner, MAX_OPEN - |stack|);
    } else {
      assert !FitsHead(ts[0], inner, false, MAX_OPEN - |stack|);
      assert s[mid] == s[mid..mid + |Texts(ts[1..])|][0] == Texts(ts[1..])[0];
    }
  }

  lemma {:induction false} ElemFrame(e: Ty, s: string, it: nat, stack: seq<ContainerType>, ok: bool)
    requires At(s, it, Text(e)) && TopIs(stack, ARRAY_C)
    ensures var r := Create(s, it, stack, ok);
            if |stack| <= MAX_OPEN && FitsElem(e, it + |Text(e)| == |s|, MAX_OPEN - |stack|)
            then r == Frame([Tree(e)], it + |Text(e)|, stack, ok)
            else DoomedElem(r)
    decreases |s| - it, 2
  {
    if |stack| <= MAX_OPEN {
      assert s[it] == Text(e)[0];
      assert Create(s, it, stack, ok) == Loop(s, it, stack, [], ok);
      match e
      case Leaf(dt) => LeafElem(dt, s, it, stack, ok);
      case Arr(e') => ArrayElem(e', s, it, stack, ok);
      case Group(dict, ms) => GroupElem(dict, ms, s, it, stack, ok);
    }
  }

  lemma LeafElem(dt: LeafType, s: string, it: nat, stack: seq<ContainerType>, ok: bool)
    requires At(s, it, Text(Leaf(dt))) && TopIs(stack, ARRAY_C) && s[it] == TypeToChar(dt).value
    ensures var r := Loop(s, it, stack, [], ok);
            if IsBasic(dt) || it + 1 == |s| then r == Frame([Node(dt, [])], it + 1, stack, ok) else DoomedElem(r)
  {
    LeafChar(dt);
    var n := Node(dt, []);
    assert [] + [n] == [n];
    if !IsBasic(dt) {
      LeafStep(dt, s, it, stack, [], ok);
      if it + 1 != |s| { ChainStays(s, it + 1, stack, [n], ok); }
    }
  }

  lemma {:induction false} ArrayElem(e: Ty, s: string, it: nat, stack: seq<ContainerType>, ok: bool)
    requires At(s, it, Text(Arr(e))) && TopIs(stack, ARRAY_C) && |stack| <= MAX_OPEN && s[it] == 'a'
    ensures var r := Loop(s, it, stack, [], ok);
            if FitsElem(Arr(e), it + |Text(Arr(e))| == |s|, MAX_OPEN - |stack|)
            then r == Frame([Tree(Arr(e))], it + |Text(Arr(e))|, stack, ok)
            else DoomedElem(r)
    decreases |s| - it, 1
  {
    hide Loop, Create, Text, Fits, FitsElem, Tree, Bad, BadNode, AfterContainer, CharToType, IsEnding, Doomed;
    ArrayForms(e, MAX_OPEN - |stack|, it + |Text(Arr(e))| == |s|);
    AtSplit(s, it, ['a'], Text(e));
    ElemFrame(e, s, it + 1, stack + [ARRAY_C], ok);
    LoopAtArray(s, it, stack, [], ok);
    var sub := Create(s, it + 1, stack + [ARRAY_C], ok);
    var r := Loop(s, it, stack, [], ok);
    var n := Node(ARRAY, sub.nodes);
    assert [] + [n] == [n];
    if FitsElem(Arr(e), it + |Text(Arr(e))| == |s|, MAX_OPEN - |stack|) {
      NestedArrayClosed(s, it, stack, n, sub);
    } else {
      SpoiledNode(sub.nodes);
      SpoiledArray(s, it, stack, [], ok, true);
    }
  }

  lemma ArrayForms(e: Ty, room: int, end: bool)
    ensures Text(Arr(e)) == ['a'] + Text(e) && Tree(Arr(e)) == Node(ARRAY, [Tree(e)])
    ensures FitsElem(Arr(e), end, room) <==> room >= 1 && FitsElem(e, end, room - 1)
  {
  }

  lemma SpoiledNode(ns: seq<Node>)
    ensures |ns| != 1 || Bad(ns) ==> BadNode(Node(ARRAY, ns))
  {
  }

  lemma NestedArrayClosed(s: string, it: nat, stack: seq<ContainerType>, n: Node, sub: Frame)
    requires it < sub.it <= |s|
    requires sub.stack == stack + [ARRAY_C] && TopIs(stack, ARRAY_C) && sub.nodes != []
    requires n == Node(ARRAY, sub.nodes)
    ensures AfterContainer(s, it, stack, ARRAY_C, [n], sub) == Frame([n], sub.it, stack, sub.ok)
  {
    assert Pop(sub.stack) == stack;
  }

  lemma {:induction false} GroupElem(dict: bool, ms: seq<Ty>, s: string, it: nat, stack: seq<ContainerType>, ok: bool)
    requires At(s, it, Text(Group(dict, ms))) && TopIs(stack, ARRAY_C) && |stack| <= MAX_OPEN
    requires s[it] == Opener(dict)
    ensures var r := Loop(s, it, stack, [], ok);
            if FitsElem(Group(dict, ms), false, MAX_OPEN - |stack|)
            then r == Frame([Tree(Group(dict, ms))], it + |Text(Group(dict, ms))|, stack, ok)
            else DoomedElem(r)
    decreases |s| - it, 1
  {
    hide Loop, Create, Text, Texts, Fits, Bad, BadNode, CharToType, IsEnding, Tree, Trees, FitsElem;
    var toPush := Kind(dict);
    GroupFrame(dict, ms, s, it, stack, ok);
    LoopAtGroup(s, it, stack, [], ok, dict);
    GroupForms(dict, ms, MAX_OPEN - |stack|);
    var sub := Create(s, it + 1, stack + [toPush], ok);
    var r := Loop(s, it, stack, [], ok);
    var n := Node(GroupType(dict), sub.nodes);
    assert [] + [n] == [n];
    if FitsElem(Group(dict, ms), false, MAX_OPEN - |stack|) {
      GroupClosed(s, it, stack, toPush, [], n, sub);
    } else {
      AfterStays(s, it, stack, toPush, [n], sub);
      if sub.ok && Bad(sub.nodes) { BadInside(n); DoomedSub(s, true, [], n, sub, r); }
    }
  }

  lemma GroupForms(dict: bool, ms: seq<Ty>, room: int)
    ensures FitsElem(Group(dict, ms), false, room) <==> room >= 1 && Fits(ms, true, room - 1)
    ensures Tree(Group(dict, ms)) == Node(GroupType(dict), Trees(ms))
  {
  }

  // ----- the whole signature -----

  /** Parsing the text of a type list is valid and yields that list's tree exactly when the
      list fits. */
  lemma ParsesExactly(ts: seq<Ty>)
    ensures Fits(ts, false, 64) <==> Valid(Texts(ts)) && Parse(Texts(ts)).nodes == Trees(ts)
  {
    var s := Texts(ts);
    TreesAreGood(ts);
    if ts != [] {
      assert s[0..] == s;
      ListFrame(ts, s, 0, [], [], true, false);
      assert [] + Trees(ts) == Trees(ts);
    }
  }

  // ----- a fragment that fits -----

  /** The types whose dict entries stand directly inside arrays and have a single-code key,
      whose structs hold no struct directly, and whose arrays hold no boolean, double or
      variant directly. */
  predicate Standard(t: Ty) {
    match t
    case Leaf(_) => true
    case Arr(e) => StandardElem(e)
    case Group(dict, ms) => !dict && Members(ms)
  }

  predicate StandardElem(e: Ty) {
    match e
    case Leaf(dt) => IsBasic(dt)
    case Arr(e') => StandardElem(e')
    case Group(dict, ms) =>
      if dict then |ms| == 2 && ms[0].Leaf? && Standard(ms[1]) else Members(ms)
  }

  predicate Members(ms: seq<Ty>) {
    ms != [] ==> !ms[0].Group? && Standard(ms[0]) && Members(ms[1..])
  }

  predicate Standards(ts: seq<Ty>) {
    ts != [] ==> Standard(ts[0]) && Standards(ts[1..])
  }

  function Depth(t: Ty): nat {
    match t case Leaf(_) => 0 case Arr(e) => 1 + Depth(e) case Group(_, ms) => 1 + Depths(ms)
  }

  function Depths(ts: seq<Ty>): nat {
    if ts == [] then 0
    else if Depth(ts[0]) < Depths(ts[1..]) then Depths(ts[1..]) else Depth(ts[0])
  }

  lemma {:induction false} MembersFit(ms: seq<Ty>, room: int)
    requires Members(ms) && Depths(ms) <= room
    ensures Fits(ms, true, room)
  {
    if ms != [] {
      StandardFits(ms[0], true, room);
      MembersFit(ms[1..], room);
    }
  }

  lemma {:induction false} ElemFits(e: Ty, room: int)
    requires StandardElem(e) && Depth(e) <= room
    ensures FitsElem(e, false, room) && FitsElem(e, true, room)
  {
    match e
    case Leaf(_) =>
    case Arr(e') => ElemFits(e', room - 1);
    case Group(dict, ms) =>
      if dict {
        assert ms[1..] == [ms[1]] && ms[1..][1..] == [];
        DepthOfPair(ms);
        StandardFits(ms[1], true, room - 1);
        assert Fits(ms[1..], true, room - 1);
      } else {
        MembersFit(ms, room - 1);
      }
  }

  lemma DepthOfPair(ms: seq<Ty>)
    requires |ms| == 2
    ensures Depth(ms[1]) <= Depths(ms)
  {
    assert ms[1..][0] == ms[1];
    assert Depth(ms[1..][0]) <= Depths(ms[1..]);
  }

  lemma {:induction false} StandardFits(t: Ty, inner: bool, room: int)
    requires Standard(t) && Depth(t) <= room
    ensures FitsHead(t, inner, true, room)
    ensures !(inner && t.Group?) ==> FitsHead(t, inner, false, room)
  {
    match t
    case Leaf(_) =>
    case Arr(e) => ElemFits(e, room - 1);
    case Group(_, ms) => MembersFit(ms, room - 1);
  }

  lemma {:induction false} StandardsFit(ts: seq<Ty>, room: int)
    requires Standards(ts) && Depths(ts) <= room
    ensures Fits(ts, false, room)
  {
    if ts != [] {
      StandardFits(ts[0], false, room);
      StandardsFit(ts[1..], room);
    }
  }

  /** Every list of standard types nested at most 64 deep is valid and is parsed to its own tree. */
  lemma StandardParses(ts: seq<Ty>)
    requires Standards(ts) && Depths(ts) <= 64
    ensures Valid(Texts(ts)) && Parse(Texts(ts)).nodes == Trees(ts)
  {
    StandardsFit(ts, MAX_OPEN);
    ParsesExactly(ts);
  }
}
