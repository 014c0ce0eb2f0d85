/** What an array whose element does not end it does to the types after it: booleans, doubles and
    variants leave the parser in the frame of the array, which takes the next types too. */
module OpenArrays {
  import opened Bytes
  import opened Types
  import opened Signatures
  import opened SignatureGrammar

  /** A type that ends the array frame it is met in. */
  predicate Ends(t: Ty) {
    match t
    case Leaf(dt) => IsBasic(dt)
    case Arr(e) => Ends(e)
    case Group(_, _) => true
  }

  /** What an array frame leaves of a list: it takes types up to the first that ends it. */
  function Left(ts: seq<Ty>): (rest: seq<Ty>)
    ensures |rest| <= |ts| && (ts != [] ==> |rest| < |ts|)
  {
    if ts == [] then [] else if Ends(ts[0]) then ts[1..] else Left(ts[1..])
  }

  /** How many nodes a list gets: one for each type, except those an open array takes. */
  function NodeCount(ts: seq<Ty>): nat
    decreases |ts|
  {
    if ts == [] then 0 else 1 + NodeCount(if ts[0].Arr? then Left(ts) else ts[1..])
  }

  // ----- where lists stand -----

  /** A list stands at `it`, up to the end of the text or to a closing bracket. */
  ghost predicate Standing(ts: seq<Ty>, s: string, it: nat) {
    var end := it + |Texts(ts)|;
    At(s, it, Texts(ts)) && end <= |s| && (end < |s| ==> IsEnding(s[end]))
  }

  lemma StandingTail(ts: seq<Ty>, s: string, it: nat)
    requires ts != [] && Standing(ts, s, it)
    ensures var mid := it + |Text(ts[0])|;
            && Standing(ts[1..], s, mid) && mid + |Texts(ts[1..])| == it + |Texts(ts)|
            && At(s, it, Text(ts[0])) && it < |s| && s[it] == Text(ts[0])[0]
            && (mid == |s| ==> ts[1..] == [])
            && (mid < |s| && ts[1..] != [] ==> !IsEnding(s[mid]))
  {
    hide Texts, Text, IsEnding;
    TextsByHead(ts);
    AtSplit(s, it, Text(ts[0]), Texts(ts[1..]));
    FirstOf(s, it, Text(ts[0]));
    if ts[1..] != [] { FirstOf(s, it + |Text(ts[0])|, Texts(ts[1..])); }
  }

  lemma FirstOf(s: string, it: nat, part: string)
    requires At(s, it, part) && part != []
    ensures it < |s| && s[it] == part[0]
  {
    assert s[it] == s[it..it + |part|][0];
  }

  lemma {:induction false} StandingLeft(ts: seq<Ty>, s: string, it: nat, mid: nat)
    requires Standing(ts, s, it) && mid + |Texts(Left(ts))| == it + |Texts(ts)|
    ensures it <= mid && Standing(Left(ts), s, mid)
  {
    hide Text, Texts, Standing;
    if ts != [] {
      StandingTail(ts, s, it);
      if !Ends(ts[0]) { StandingLeft(ts[1..], s, it + |Text(ts[0])|, mid); }
    }
  }

  /** Inside its brackets an array stands as its element followed by the rest of the list. */
  lemma StandingElem(ts: seq<Ty>, s: string, it: nat)
    requires ts != [] && ts[0].Arr? && Standing(ts, s, it)
    ensures var inner := [ts[0].elem] + ts[1..];
            && Standing(inner, s, it + 1) && it + 1 + |Texts(inner)| == it + |Texts(ts)|
            && Left(inner) == Left(ts) && it + 1 < |s| && s[it] == 'a'
  {
    hide *;
    StandingTail(ts, s, it);
    StandsAt(ts, s, it);
    ElemForms(ts);
    TextsByHead(ts);
    TextsByHead([ts[0].elem] + ts[1..]);
    AtSplit(s, it, ['a'], Texts([ts[0].elem] + ts[1..]));
    ElemStands(ts, s, it);
  }

  lemma StandsAt(ts: seq<Ty>, s: string, it: nat)
    requires Standing(ts, s, it)
    ensures At(s, it, Texts(ts)) && it + |Texts(ts)| <= |s|
  {
    hide Texts;
  }

  lemma ElemForms(ts: seq<Ty>)
    requires ts != [] && ts[0].Arr?
    ensures var inner := [ts[0].elem] + ts[1..];
            && inner != [] && inner[0] == ts[0].elem && inner[1..] == ts[1..] && Left(inner) == Left(ts)
            && Texts(ts) == ['a'] + Texts(inner) && |Texts(ts)| == 1 + |Texts(inner)|
            && Text(ts[0])[0] == 'a' && Texts(inner) != []
  {
    var inner := [ts[0].elem] + ts[1..];
    assert inner[1..] == ts[1..];
    assert Texts(inner) == Text(inner[0]) + Texts(ts[1..]);
  }

  lemma ElemStands(ts: seq<Ty>, s: string, it: nat)
    requires ts != [] && ts[0].Arr? && Standing(ts, s, it)
    requires var inner := [ts[0].elem] + ts[1..]; |Texts(ts)| == 1 + |Texts(inner)| && At(s, it + 1, Texts(inner))
    ensures Standing([ts[0].elem] + ts[1..], s, it + 1)
  {
    hide Texts, IsEnding;
  }

  // ----- what follows a recursive call that went well -----

  lemma AfterArray(s: string, it: nat, stack: seq<ContainerType>, nodes: seq<Node>, ok: bool)
    requires it < |s| && s[it] == 'a'
    ensures var sub := Create(s, it + 1, stack + [ARRAY_C], ok);
            var r := Loop(s, it, stack, nodes, ok);
            r.ok ==> sub.ok && r == if TopIs(stack, ARRAY_C) || sub.it == |s|
                                    then Frame(nodes + [Node(ARRAY, sub.nodes)], sub.it, stack, true)
                                    else Loop(s, sub.it, stack, nodes + [Node(ARRAY, sub.nodes)], true)
  {
    hide Loop, Create;
    var sub := Create(s, it + 1, stack + [ARRAY_C], ok);
    LoopAtArray(s, it, stack, nodes, ok);
    if Loop(s, it, stack, nodes, ok).ok {
      AfterStays(s, it, stack, ARRAY_C, nodes + [Node(ARRAY, sub.nodes)], sub);
      PopKeeps(stack, ARRAY_C, sub.stack);
    }
  }

  lemma AfterGroup(s: string, it: nat, stack: seq<ContainerType>, nodes: seq<Node>, ok: bool, dict: bool)
    requires it < |s| && s[it] == Opener(dict)
    ensures var sub := Create(s, it + 1, stack + [Kind(dict)], ok);
            var n := Node(GroupType(dict), sub.nodes);
            var r := Loop(s, it, stack, nodes, ok);
            r.ok ==> sub.ok && IsEnding(CharAt(s, sub.it)) && sub.it < |s|
                     && r == if stack == [] && !dict && sub.it + 1 != |s|
                             then Loop(s, sub.it + 1, stack, nodes + [n], true)
                             else Frame(nodes + [n], sub.it + 1, stack, true)
  {
    hide Loop, Create, AfterContainer;
    var sub := Create(s, it + 1, stack + [Kind(dict)], ok);
    var n := Node(GroupType(dict), sub.nodes);
    LoopAtGroup(s, it, stack, nodes, ok, dict);
    if Loop(s, it, stack, nodes, ok).ok {
      AfterStays(s, it, stack, Kind(dict), nodes + [n], sub);
      ClosesWell(s, it, stack, Kind(dict), nodes, n, sub);
      GroupClosed(s, it, stack, Kind(dict), nodes, n, sub);
    }
  }

  lemma ClosesWell(s: string, it: nat, stack: seq<ContainerType>, toPush: ContainerType, nodes: seq<Node>, n: Node,
          sub: Frame)
    requires it < sub.it <= |s| && sub.stack == stack + [toPush] && (toPush == STRUCT_C || toPush == DICT_ENTRY_C)
    requires AfterContainer(s, it, stack, toPush, nodes + [n], sub).ok
    ensures sub.it < |s| && IsEnding(s[sub.it])
  {
  }

  // ----- where frames end -----

  /** A frame inside an array that keeps the flag ends after the types it takes. */
  lemma {:induction false} ArrayFrameEnds(ts: seq<Ty>, s: string, it: nat, stack: seq<ContainerType>, nodes: seq<Node>,
          ok: bool)
    requires Standing(ts, s, it) && it < |s| && TopIs(stack, ARRAY_C)
    ensures var r := Loop(s, it, stack, nodes, ok); r.ok ==> r.it + |Texts(Left(ts))| == it + |Texts(ts)|
    decreases |s| - it, 2
  {
    hide Loop, Create, Text, Texts, CharToType, IsEnding, AfterContainer;
    if ts == [] {
      NothingLeft(s, it, stack, nodes, ok);
    } else {
      StandingTail(ts, s, it);
      match ts[0]
      case Leaf(dt) => LeafInArray(ts, dt, s, it, stack, nodes, ok);
      case Arr(e) =>
        ArrayEnds(ts, s, it, stack, ok);
        AfterArray(s, it, stack, nodes, ok);
      case Group(dict, ms) =>
        GroupEnds(dict, ms, s, it, stack, ok);
        GroupHead(ts[0], s, it);
        AfterGroup(s, it, stack, nodes, ok, dict);
    }
  }

  lemma NothingLeft(s: string, it: nat, stack: seq<ContainerType>, nodes: seq<Node>, ok: bool)
    requires Standing([], s, it) && it < |s| && stack != []
    ensures var r := Loop(s, it, stack, nodes, ok); r.ok ==> !TopIs(stack, ARRAY_C) && r.it == it
  {
  }

  lemma {:induction false} LeafInArray(ts: seq<Ty>, dt: LeafType, s: string, it: nat, stack: seq<ContainerType>,
          nodes: seq<Node>, ok: bool)
    requires Standing(ts, s, it) && it < |s| && TopIs(stack, ARRAY_C) && ts != [] && ts[0] == Leaf(dt)
    ensures var r := Loop(s, it, stack, nodes, ok); r.ok ==> r.it + |Texts(Left(ts))| == it + |Texts(ts)|
    decreases |s| - it, 1
  {
    hide Loop, Texts, CharToType, IsEnding;
    StandingTail(ts, s, it);
    if IsBasic(dt) {
      BasicInArray(dt, s, it, stack, nodes, ok);
    } else {
      LeafStep(dt, s, it, stack, nodes, ok);
      if it + 1 < |s| { ArrayFrameEnds(ts[1..], s, it + 1, stack, nodes + [Node(dt, [])], ok); }
    }
  }

  lemma BasicInArray(dt: LeafType, s: string, it: nat, stack: seq<ContainerType>, nodes: seq<Node>, ok: bool)
    requires it < |s| && s[it] == TypeToChar(dt).value && TopIs(stack, ARRAY_C) && IsBasic(dt)
    ensures Loop(s, it, stack, nodes, ok).it == it + 1
  {
    LeafChar(dt);
  }

  lemma GroupHead(t: Ty, s: string, it: nat)
    requires t.Group? && it < |s| && s[it] == Text(t)[0]
    ensures s[it] == Opener(t.dict)
  {
  }

  /** The frame of an array at the head of a list. */
  lemma {:induction false} ArrayEnds(ts: seq<Ty>, s: string, it: nat, stack: seq<ContainerType>, ok: bool)
    requires ts != [] && ts[0].Arr? && Standing(ts, s, it)
    ensures it < |s| && s[it] == 'a'
    ensures var sub := Create(s, it + 1, stack + [ARRAY_C], ok);
            sub.ok ==> sub.it + |Texts(Left(ts))| == it + |Texts(ts)|
    decreases |s| - it, 1
  {
    hide Loop, Create, Text, Texts, Left, Standing;
    StandingElem(ts, s, it);
    CreateByLoop(s, it + 1, stack + [ARRAY_C], ok);
    ArrayFrameEnds([ts[0].elem] + ts[1..], s, it + 1, stack + [ARRAY_C], [], ok);
  }

  /** The frame of a bracket that keeps the flag and stops at a closing one stops at its own. */
  lemma {:induction false} GroupEnds(dict: bool, ms: seq<Ty>, s: string, it: nat, stack: seq<ContainerType>, ok: bool)
    requires At(s, it, Text(Group(dict, ms)))
    ensures it + 1 < |s|
    ensures var sub := Create(s, it + 1, stack + [Kind(dict)], ok);
            sub.ok && IsEnding(CharAt(s, sub.it)) ==> sub.it + 1 == it + |Text(Group(dict, ms))|
    decreases |s| - it, 1
  {
    hide Loop, Create, Text, Texts, IsEnding, CharToType;
    GroupPlaced(dict, ms, s, it, stack);
    CreateByLoop(s, it + 1, stack + [Kind(dict)], ok);
    if |stack| + 1 <= MAX_OPEN { BracketFrameEnds(ms, s, it + 1, stack + [Kind(dict)], [], ok); }
  }

  lemma {:induction false} BracketFrameEnds(ms: seq<Ty>, s: string, it: nat, stack: seq<ContainerType>,
          nodes: seq<Node>, ok: bool)
    requires Standing(ms, s, it) && it + |Texts(ms)| < |s| && stack != [] && !TopIs(stack, ARRAY_C)
    ensures var r := Loop(s, it, stack, nodes, ok);
            r.ok && IsEnding(CharAt(s, r.it)) ==> r.it == it + |Texts(ms)|
    decreases |s| - it, 2
  {
    hide Loop, Create, Text, Texts, CharToType, IsEnding, AfterContainer, Left;
    if ms == [] {
      NothingLeft(s, it, stack, nodes, ok);
      NoText();
    } else {
      StandingTail(ms, s, it);
      match ms[0]
      case Leaf(dt) =>
        LeafText(dt);
        LeafStep(dt, s, it, stack, nodes, ok);
        BracketFrameEnds(ms[1..], s, it + 1, stack, nodes + [Node(dt, [])], ok);
      case Arr(e) =>
        ArrayEnds(ms, s, it, stack, ok);
        AfterArray(s, it, stack, nodes, ok);
        var sub := Create(s, it + 1, stack + [ARRAY_C], ok);
        if sub.ok {
          StandingLeft(ms, s, it, sub.it);
          BracketFrameEnds(Left(ms), s, sub.it, stack, nodes + [Node(ARRAY, sub.nodes)], true);
        }
      case Group(dict, ms') =>
        GroupEnds(dict, ms', s, it, stack, ok);
        GroupHead(ms[0], s, it);
        AfterGroup(s, it, stack, nodes, ok, dict);
        if ms[1..] == [] { NoText(); }
    }
  }

  lemma NoText()
    ensures Texts([]) == []
  {
  }

  lemma LeafText(dt: LeafType)
    ensures Text(Leaf(dt)) == [TypeToChar(dt).value]
  {
  }

  // ----- the whole signature -----

  lemma {:induction false} TopFrameCounts(ts: seq<Ty>, s: string, it: nat, nodes: seq<Node>, ok: bool)
    requires Standing(ts, s, it) && it + |Texts(ts)| == |s| && it < |s|
    ensures var r := Loop(s, it, [], nodes, ok); r.ok && r.it == |s| ==> |r.nodes| == |nodes| + NodeCount(ts)
    decreases |s| - it
  {
    hide Loop, Create, Text, Texts, CharToType, IsEnding, AfterContainer, Left;
    if ts == [] { NoText(); }
    StandingTail(ts, s, it);
    match ts[0]
    case Leaf(dt) =>
      LeafText(dt);
      LeafStep(dt, s, it, [], nodes, ok);
      if it + 1 < |s| { TopFrameCounts(ts[1..], s, it + 1, nodes + [Node(dt, [])], ok); }
    case Arr(e) =>
      ArrayEnds(ts, s, it, [], ok);
      AfterArray(s, it, [], nodes, ok);
      var sub := Create(s, it + 1, [] + [ARRAY_C], ok);
      if sub.ok {
        StandingLeft(ts, s, it, sub.it);
        if sub.it < |s| { TopFrameCounts(Left(ts), s, sub.it, nodes + [Node(ARRAY, sub.nodes)], true); }
        else { EmptyText(Left(ts)); }
      }
    case Group(dict, ms) =>
      GroupEnds(dict, ms, s, it, [], ok);
      GroupHead(ts[0], s, it);
      AfterGroup(s, it, [], nodes, ok, dict);
      var sub := Create(s, it + 1, [] + [Kind(dict)], ok);
      if sub.ok && IsEnding(CharAt(s, sub.it)) && !dict && sub.it + 1 < |s| {
        TopFrameCounts(ts[1..], s, sub.it + 1, nodes + [Node(GroupType(dict), sub.nodes)], true);
      }
  }

  lemma EmptyText(ts: seq<Ty>)
    requires Texts(ts) == []
    ensures ts == []
  {
  }

  /** A valid signature gets exactly this many nodes at its top. */
  lemma NodesOfValid(ts: seq<Ty>)
    requires Valid(Texts(ts))
    ensures |Parse(Texts(ts)).nodes| == NodeCount(ts)
  {
    var s := Texts(ts);
    if ts != [] {
      assert s[0..] == s;
      assert Parse(s) == Loop(s, 0, [], [], true);
      hide Loop, Texts;
      TopFrameCounts(ts, s, 0, [], true);
    }
  }

  /** No array before the last type leaves its frame open. */
  predicate NoneOpen(ts: seq<Ty>) {
    forall i :: 0 <= i < |ts| - 1 && ts[i].Arr? ==> Ends(ts[i])
  }

  /** There is a node for each type exactly when no array before the last one stays open. */
  lemma {:induction false} CountIff(ts: seq<Ty>)
    ensures NodeCount(ts) <= |ts|
    ensures NodeCount(ts) == |ts| <==> NoneOpen(ts)
    decreases |ts|
  {
    hide Ends;
    if ts != [] {
      var rest := ts[1..];
      NoneOpenByHead(ts);
      if ts[0].Arr? {
        CountIff(Left(ts));
        if Ends(ts[0]) { assert Left(ts) == rest; } else { assert Left(ts) == Left(rest); }
      } else {
        CountIff(rest);
      }
    }
  }

  lemma NoneOpenByHead(ts: seq<Ty>)
    requires ts != []
    ensures NoneOpen(ts) <==> (ts[0].Arr? && ts[1..] != [] ==> Ends(ts[0])) && NoneOpen(ts[1..])
  {
    var rest := ts[1..];
    if NoneOpen(rest) && (ts[0].Arr? && rest != [] ==> Ends(ts[0])) {
      forall i | 0 <= i < |ts| - 1 && ts[i].Arr? ensures Ends(ts[i]) { if i > 0 { assert rest[i - 1] == ts[i]; } }
    }
    if NoneOpen(ts) {
      forall i | 0 <= i < |rest| - 1 && rest[i].Arr? ensures Ends(rest[i]) { assert ts[i + 1] == rest[i]; }
    }
  }
}
