/** What acceptance of a signature implies about its brackets and its nesting. */
module SignatureBalance {
  import opened Types
  import opened Signatures

  /** +1 for a character that opens a struct or a dict entry, -1 for one that closes. */
  function Turn(c: char): int {
    if c == '(' || c == 'r' || c == '{' || c == 'e' then 1
    else if c == ')' || c == '}' then -1
    else 0
  }

  /** Openers minus closers in `s[lo..hi]`. */
  function Net(s: string, lo: nat, hi: nat): int
    requires lo <= hi <= |s|
    decreases hi - lo
  {
    if lo == hi then 0 else Turn(s[lo]) + Net(s, lo + 1, hi)
  }

  lemma {:induction false} NetSplit(s: string, lo: nat, mid: nat, hi: nat)
    requires lo <= mid <= hi <= |s|
    ensures Net(s, lo, hi) == Net(s, lo, mid) + Net(s, mid, hi)
    decreases mid - lo
  {
    if lo < mid { NetSplit(s, lo + 1, mid, hi); }
  }

  /** `s[lo..hi]` balances, never closes more than it opened, and never has more than
      `room` brackets open. */
  ghost predicate Walk(s: string, lo: nat, hi: nat, room: int)
    requires lo <= hi <= |s|
  {
    Net(s, lo, hi) == 0 && forall k {:trigger Net(s, lo, k)} :: lo <= k <= hi ==> 0 <= Net(s, lo, k) <= room
  }

  lemma WalkThen(s: string, lo: nat, mid: nat, hi: nat, room: int)
    requires lo <= mid <= hi <= |s|
    requires Walk(s, lo, mid, room) && Walk(s, mid, hi, room)
    ensures Walk(s, lo, hi, room)
  {
    forall k | lo <= k <= hi ensures 0 <= Net(s, lo, k) <= room {
      if k > mid { NetSplit(s, lo, mid, k); }
    }
    NetSplit(s, lo, mid, hi);
  }

  lemma WalkBrackets(s: string, lo: nat, close: nat, room: int)
    requires lo < close < |s| && room >= 1
    requires Turn(s[lo]) == 1 && Turn(s[close]) == -1
    requires Walk(s, lo + 1, close, room - 1)
    ensures Walk(s, lo, close + 1, room)
  {
    forall k | lo <= k <= close + 1 ensures 0 <= Net(s, lo, k) <= room {
      if k == close + 1 {
        NetSplit(s, lo, close, k);
        assert Net(s, close, k) == -1 + Net(s, close + 1, k);
      } else if k > lo {
        assert Net(s, lo, k) == 1 + Net(s, lo + 1, k);
      }
    }
    NetSplit(s, lo, close, close + 1);
    assert Net(s, close, close + 1) == -1 + Net(s, close + 1, close + 1);
  }

  lemma WalkPlain(s: string, lo: nat, room: int)
    requires lo < |s| && Turn(s[lo]) == 0 && room >= 0
    ensures Walk(s, lo, lo + 1, room)
  {
    assert Net(s, lo, lo + 1) == Net(s, lo + 1, lo + 1);
  }

  /** Levels of containers (arrays, structs, dict entries) in a chain of nodes. */
  function Levels(nodes: seq<Node>): nat {
    if nodes == [] then 0 else Max(NodeLevels(nodes[0]), Levels(nodes[1..]))
  }

  function NodeLevels(n: Node): nat {
    if IsContainer(n.dt) && n.dt != VARIANT then 1 + Levels(n.sub) else 0
  }

  function Max(a: nat, b: nat): nat { if a < b then b else a }

  lemma {:induction false} LevelsAppend(nodes: seq<Node>, n: Node)
    ensures Levels(nodes + [n]) == Max(Levels(nodes), NodeLevels(n))
  {
    if nodes == [] {
      assert [n][1..] == [];
    } else {
      LevelsAppend(nodes[1..], n);
      assert (nodes + [n])[1..] == nodes[1..] + [n];
    }
  }

  /** What a call that keeps the flag has consumed and built. */
  ghost predicate Sound(s: string, it: nat, stack: seq<ContainerType>, before: seq<Node>, r: Frame)
    requires it <= |s|
  {
    r.ok ==>
      && it <= r.it <= |s|
      && (|stack| <= MAX_OPEN ==> Walk(s, it, r.it, MAX_OPEN - |stack|))
      && (|stack| <= MAX_OPEN && Levels(before) <= MAX_OPEN - |stack| ==> Levels(r.nodes) <= MAX_OPEN - |stack|)
  }

  lemma {:induction false} CreateSound(s: string, it: nat, stack: seq<ContainerType>, ok: bool)
    requires it <= |s|
    ensures Sound(s, it, stack, [], Create(s, it, stack, ok))
    ensures Create(s, it, stack, ok).ok ==> |stack| <= MAX_OPEN
    decreases |s| - it, 1
  {
    if |stack| <= MAX_OPEN && it < |s| { LoopSound(s, it, stack, [], ok); }
  }

  lemma {:induction false} LoopSound(s: string, it: nat, stack: seq<ContainerType>, nodes: seq<Node>, ok: bool)
    requires it < |s|
    ensures Sound(s, it, stack, nodes, Loop(s, it, stack, nodes, ok))
    decreases |s| - it, 0
  {
    var t := CharToType(s[it]);
    if t == INVALID {
    } else if IsEnding(s[it]) {
    } else if TopIs(stack, ARRAY_C) && IsBasic(t) {
      PlainRound(s, it, stack, nodes, t);
    } else if IsContainer(t) && t != VARIANT {
      LoopAtContainer(s, it, stack, nodes, ok);
      var toPush := CharToContainer(s[it]);
      var sub := Create(s, it + 1, stack + [toPush], ok);
      CreateSound(s, it + 1, stack + [toPush], ok);
      hide Loop, Create, Levels, Net, Walk;
      ContainerSound(s, it, stack, nodes, t, sub);
    } else {
      PlainRound(s, it, stack, nodes, t);
      AdvanceSound(s, it, it, stack, nodes + [Node(t, [])], ok);
      hide Loop, Levels, Net;
      var r := Loop(s, it, stack, nodes, ok);
      if r.ok && |stack| <= MAX_OPEN { WalkThen(s, it, it + 1, r.it, MAX_OPEN - |stack|); }
    }
  }

  lemma PlainRound(s: string, it: nat, stack: seq<ContainerType>, nodes: seq<Node>, t: DataType)
    requires it < |s| && !IsEnding(s[it])
    requires t == CharToType(s[it]) && t != INVALID && !(IsContainer(t) && t != VARIANT)
    ensures |stack| <= MAX_OPEN ==> Walk(s, it, it + 1, MAX_OPEN - |stack|)
    ensures Levels(nodes + [Node(t, [])]) == Levels(nodes)
  {
    assert Turn(s[it]) == 0;
    if |stack| <= MAX_OPEN { WalkPlain(s, it, MAX_OPEN - |stack|); }
    LevelsAppend(nodes, Node(t, []));
  }

  lemma {:induction false} AdvanceSound(s: string, start: nat, it: nat, stack: seq<ContainerType>, nodes: seq<Node>,
          ok: bool)
    requires start <= it < |s|
    ensures Sound(s, it + 1, stack, nodes, Advance(s, start, it, stack, nodes, ok))
    decreases |s| - start, 0, 0
  {
    if it + 1 != |s| { LoopSound(s, it + 1, stack, nodes, ok); }
  }

  lemma {:induction false} ContainerSound(s: string, it: nat, stack: seq<ContainerType>, nodes: seq<Node>,
          t: DataType, sub: Frame)
    requires it < |s| && !IsEnding(s[it])
    requires t == CharToType(s[it]) && IsContainer(t) && t != VARIANT
    requires it < sub.it <= |s|
    requires stack + [CharToContainer(s[it])] <= sub.stack
    requires sub.ok ==> sub.stack == stack + [CharToContainer(s[it])]
    requires Sound(s, it + 1, stack + [CharToContainer(s[it])], [], sub)
    requires sub.ok ==> |stack| + 1 <= MAX_OPEN
    ensures Sound(s, it, stack, nodes, AfterContainer(s, it, stack, CharToContainer(s[it]), nodes + [Node(t, sub.nodes)], sub))
    decreases |s| - it, 0, 1
  {
    var toPush := CharToContainer(s[it]);
    var chain := nodes + [Node(t, sub.nodes)];
    var r := AfterContainer(s, it, stack, toPush, chain, sub);
    if r.ok {
      var room := MAX_OPEN - |stack|;
      LevelsAppend(nodes, Node(t, sub.nodes));
      assert NodeLevels(Node(t, sub.nodes)) <= room;
      assert Pop(sub.stack) == stack;
      assert toPush == ARRAY_C ==> Turn(s[it]) == 0;
      assert toPush != ARRAY_C ==> Turn(s[it]) == 1;
      hide Levels, Net, NodeLevels, CharToType, CharToContainer, IsContainer, Turn;
      if toPush == ARRAY_C {
        ArrayWalk(s, it, sub.it, room);
        if r.it != sub.it || r.nodes != chain {
          LoopSound(s, sub.it, stack, chain, sub.ok);
          WalkThen(s, it, sub.it, r.it, room);
        }
      } else {
        assert IsEnding(s[sub.it]);
        ClosingTurn(s[sub.it]);
        WalkBrackets(s, it, sub.it, room);
        if toPush == STRUCT_C && stack == [] {
          AdvanceSound(s, it, sub.it, stack, chain, sub.ok);
          WalkThen(s, it, sub.it + 1, r.it, room);
        }
      }
    }
  }

  lemma ClosingTurn(c: char)
    requires IsEnding(c)
    ensures Turn(c) == -1
  {
  }

  lemma ArrayWalk(s: string, lo: nat, hi: nat, room: int)
    requires lo < hi <= |s| && room >= 1 && Turn(s[lo]) == 0
    requires Walk(s, lo + 1, hi, room - 1)
    ensures Walk(s, lo, hi, room)
  {
    WalkPlain(s, lo, room);
    WalkLoosen(s, lo + 1, hi, room - 1);
    WalkThen(s, lo, lo + 1, hi, room);
  }

  lemma WalkLoosen(s: string, lo: nat, hi: nat, room: int)
    requires lo <= hi <= |s| && Walk(s, lo, hi, room)
    ensures Walk(s, lo, hi, room + 1)
  {
  }

  /** Acceptance: the brackets of an accepted signature balance, no prefix closes more than it
      opened, at most 64 are open at once, and its tree nests containers at most 64 deep. */
  lemma AcceptedIsBalanced(s: string)
    requires Valid(s)
    ensures Walk(s, 0, |s|, 64)
    ensures Levels(Parse(s).nodes) <= 64
  {
    CreateSound(s, 0, [], true);
  }

  const MIXED := "((i)}"

  lemma MixedInner()
    ensures Create(MIXED, 2, [STRUCT_C, STRUCT_C], true)
         == Frame([Node(INT32, [])], 3, [STRUCT_C, STRUCT_C], true)
  {
    var st, one := [STRUCT_C, STRUCT_C], [Node(INT32, [])];
    assert MIXED[2] == 'i' && MIXED[3] == ')' && |MIXED| == 5;
    assert Loop(MIXED, 3, st, one, true) == Frame(one, 3, st, true);
    assert [] + one == one;
    assert Loop(MIXED, 2, st, [], true) == Advance(MIXED, 2, 2, st, one, true);
  }

  lemma MixedOuter()
    ensures Create(MIXED, 1, [STRUCT_C], true)
         == Frame([Node(STRUCT, [Node(INT32, [])])], 4, [STRUCT_C], true)
  {
    var st, one := [STRUCT_C], [Node(INT32, [])];
    MixedInner();
    assert MIXED[1] == '(' && MIXED[3] == ')' && |MIXED| == 5;
    LoopAtContainer(MIXED, 1, st, [], true);
    assert Create(MIXED, 1, st, true) == Loop(MIXED, 1, st, [], true);
    hide Loop, Create;
    assert st + [STRUCT_C] == [STRUCT_C, STRUCT_C];
    assert [] + [Node(STRUCT, one)] == [Node(STRUCT, one)];
    assert Pop([STRUCT_C, STRUCT_C]) == st;
  }

  /** Bracket kinds are not part of that guarantee: an accepted text may close a struct with
      the bracket of a dict entry. */
  lemma KindsMayDiffer()
    ensures Valid(MIXED) && Parse(MIXED).nodes == [Node(STRUCT, [Node(STRUCT, [Node(INT32, [])])])]
  {
    hide Loop, Create, AfterContainer, Parse;
    MixedStart();
    MixedEnd();
  }

  lemma MixedStart()
    ensures Parse(MIXED)
         == AfterContainer(MIXED, 0, [], STRUCT_C, [Node(STRUCT, [Node(STRUCT, [Node(INT32, [])])])],
                           Frame([Node(STRUCT, [Node(INT32, [])])], 4, [STRUCT_C], true))
  {
    hide Loop, AfterContainer;
    assert MIXED[0] == '(';
    LoopAtContainer(MIXED, 0, [], [], true);
    MixedOuter();
    assert [] + [STRUCT_C] == [STRUCT_C];
    assert [] + [Node(STRUCT, [Node(STRUCT, [Node(INT32, [])])])] == [Node(STRUCT, [Node(STRUCT, [Node(INT32, [])])])];
  }

  lemma MixedEnd()
    ensures AfterContainer(MIXED, 0, [], STRUCT_C, [Node(STRUCT, [Node(STRUCT, [Node(INT32, [])])])],
                           Frame([Node(STRUCT, [Node(INT32, [])])], 4, [STRUCT_C], true))
         == Frame([Node(STRUCT, [Node(STRUCT, [Node(INT32, [])])])], 5, [], true)
  {
    assert MIXED[4] == '}' && |MIXED| == 5;
    assert Pop([STRUCT_C]) == [];
  }
}
