/** The recursive signature parser as a machine that reads one character after the other with a
    stack of open containers, and what that says about the kinds of brackets. */
module SignatureMachine {
  import opened Bytes
  import opened Types
  import opened Signatures
  import SignatureGrammar

  /** The open containers; whether the innermost frame is over, so that only a closing character
      can come; and whether that frame has a node yet. */
  datatype Machine = Machine(stack: seq<ContainerType>, resting: bool, begun: bool)

  const START := Machine([], false, false)

  /** The stack without the arrays on top of it. */
  function PopArrays(stack: seq<ContainerType>): seq<ContainerType> {
    if TopIs(stack, ARRAY_C) then PopArrays(Pop(stack)) else stack
  }

  /** The innermost frame ends. Arrays end with it, and the frame around them goes on; but a frame
      directly around it is over too. */
  function Settle(stack: seq<ContainerType>): Machine {
    if TopIs(stack, ARRAY_C) then Machine(PopArrays(stack), false, true) else Machine(stack, true, true)
  }

  /** A bracket has closed inside `stack`: after a struct outside of everything, the text goes on. */
  function Closed(stack: seq<ContainerType>, kind: ContainerType): Machine {
    if kind == STRUCT_C && stack == [] then Machine([], false, true) else Settle(stack)
  }

  function Step(m: Machine, c: char): Option<Machine> {
    if m.resting then
      if m.stack != [] && IsEnding(c) then Some(Closed(Pop(m.stack), Top(m.stack))) else None
    else
      var t := CharToType(c);
      if t == INVALID then None
      else if IsEnding(c) then
        if Closes(m.stack, t) then Some(Closed(Pop(m.stack), Top(m.stack))) else None
      else if TopIs(m.stack, ARRAY_C) && IsBasic(t) then Some(Settle(m.stack))
      else if IsContainer(t) && t != VARIANT then
        if |m.stack| >= MAX_OPEN then None else Some(Machine(m.stack + [CharToContainer(c)], false, false))
      else Some(m.(begun := true))
  }

  /** At the end of the text, only arrays that have an element may be open. */
  predicate Accepting(m: Machine) {
    m.stack == [] || (!m.resting && m.begun && PopArrays(m.stack) == [])
  }

  predicate AcceptsFrom(s: string, it: nat, m: Machine)
    requires it <= |s|
    decreases |s| - it
  {
    if it == |s| then Accepting(m)
    else match Step(m, s[it]) case None => false case Some(n) => AcceptsFrom(s, it + 1, n)
  }

  // ----- the machine is the parser -----

  /** What comes after a frame inside `stack` has returned at `it`. */
  predicate Returned(s: string, it: nat, stack: seq<ContainerType>, begun: bool)
    requires it <= |s|
  {
    (TopIs(stack, ARRAY_C) ==> begun) && AcceptsFrom(s, it, Settle(stack))
  }

  /** The machine accepts from here exactly when the loop keeps its flag and what follows the
      frame is accepted. */
  ghost predicate Agrees(s: string, it: nat, m: Machine, r: Frame)
    requires it <= |s| && r.it <= |s|
  {
    AcceptsFrom(s, it, m) <==> r.ok && Returned(s, r.it, m.stack, r.nodes != [])
  }

  lemma {:induction false} CreateAgrees(s: string, it: nat, stack: seq<ContainerType>)
    requires it <= |s| && stack != [] && |stack| <= MAX_OPEN
    ensures Agrees(s, it, Machine(stack, false, false), Create(s, it, stack, true))
    decreases |s| - it, 1
  {
    if it < |s| { LoopAgrees(s, it, stack, []); }
  }

  lemma {:induction false} LoopAgrees(s: string, it: nat, stack: seq<ContainerType>, nodes: seq<Node>)
    requires it < |s| && |stack| <= MAX_OPEN
    ensures Agrees(s, it, Machine(stack, false, nodes != []), Loop(s, it, stack, nodes, true))
    decreases |s| - it, 0
  {
    var t := CharToType(s[it]);
    if t == INVALID {
    } else if IsEnding(s[it]) {
      ClosingAgrees(s, it, stack, nodes);
    } else if TopIs(stack, ARRAY_C) && IsBasic(t) {
    } else if IsContainer(t) && t != VARIANT {
      ContainerAgrees(s, it, stack, nodes);
    } else {
      LeafAgrees(s, it, stack, nodes);
    }
  }

  lemma ClosingAgrees(s: string, it: nat, stack: seq<ContainerType>, nodes: seq<Node>)
    requires it < |s| && IsEnding(s[it]) && CharToType(s[it]) != INVALID
    ensures Agrees(s, it, Machine(stack, false, nodes != []), Loop(s, it, stack, nodes, true))
  {
    var m := Machine(stack, false, nodes != []);
    assert Loop(s, it, stack, nodes, true) ==
      if Closes(stack, CharToType(s[it])) then Frame(nodes, it, stack, true) else Frame([], it, stack, false);
    hide Loop, PopArrays;
    if Closes(stack, CharToType(s[it])) {
      assert Step(m, s[it]) == Step(Settle(stack), s[it]);
    }
  }

  lemma {:induction false} LeafAgrees(s: string, it: nat, stack: seq<ContainerType>, nodes: seq<Node>)
    requires it < |s| && |stack| <= MAX_OPEN && !IsEnding(s[it])
    requires var t := CharToType(s[it]);
             t != INVALID && !(TopIs(stack, ARRAY_C) && IsBasic(t)) && !(IsContainer(t) && t != VARIANT)
    ensures Agrees(s, it, Machine(stack, false, nodes != []), Loop(s, it, stack, nodes, true))
    decreases |s| - it, 0, 0
  {
    var more := nodes + [Node(CharToType(s[it]), [])];
    assert Loop(s, it, stack, nodes, true) == Advance(s, it, it, stack, more, true);
    hide Loop, PopArrays, Accepting;
    AcceptsByHead(s, it, Machine(stack, false, nodes != []));
    if it + 1 < |s| {
      LoopAgrees(s, it + 1, stack, more);
    } else {
      AcceptsAtEnd(s, Machine(stack, false, true));
      AcceptsAtEnd(s, Settle(stack));
      EndAgrees(stack);
    }
  }

  /** At the end of the text it makes no difference whether the frame ends or goes on. */
  lemma EndAgrees(stack: seq<ContainerType>)
    ensures Accepting(Machine(stack, false, true)) <==> Accepting(Settle(stack))
  {
    PopArraysFixed(stack);
  }

  lemma {:induction false} PopArraysFixed(stack: seq<ContainerType>)
    ensures !TopIs(PopArrays(stack), ARRAY_C) && PopArrays(PopArrays(stack)) == PopArrays(stack)
  {
    if TopIs(stack, ARRAY_C) { PopArraysFixed(Pop(stack)); }
  }

  lemma {:induction false} ContainerAgrees(s: string, it: nat, stack: seq<ContainerType>, nodes: seq<Node>)
    requires it < |s| && |stack| <= MAX_OPEN && !IsEnding(s[it])
    requires IsContainer(CharToType(s[it])) && CharToType(s[it]) != VARIANT
    ensures Agrees(s, it, Machine(stack, false, nodes != []), Loop(s, it, stack, nodes, true))
    decreases |s| - it, 0, 1
  {
    hide Loop, Create, PopArrays, AfterContainer;
    var t, toPush := CharToType(s[it]), CharToContainer(s[it]);
    ContainerKind(s[it]);
    LoopAtContainer(s, it, stack, nodes, true);
    var sub := Create(s, it + 1, stack + [toPush], true);
    var chain := nodes + [Node(t, sub.nodes)];
    SignatureGrammar.AfterStays(s, it, stack, toPush, chain, sub);
    if |stack| == MAX_OPEN {
      TooDeep(s, it + 1, stack + [toPush]);
    } else {
      CreateAgrees(s, it + 1, stack + [toPush]);
      assert TopIs(stack + [toPush], toPush) && Pop(stack + [toPush]) == stack;
      if sub.ok { AfterAgrees(s, it, stack, toPush, chain, sub); }
    }
  }

  lemma ContainerKind(c: char)
    requires IsContainer(CharToType(c)) && CharToType(c) != VARIANT && !IsEnding(c)
    ensures var k := CharToContainer(c); k == ARRAY_C || k == STRUCT_C || k == DICT_ENTRY_C
    ensures CharToType(c) != INVALID && !IsBasic(CharToType(c))
  {
  }

  lemma TooDeep(s: string, it: nat, stack: seq<ContainerType>)
    requires it <= |s| && |stack| > MAX_OPEN
    ensures !Create(s, it, stack, true).ok
  {
  }

  /** After the recursive call for a container, against the machine after its contents. */
  lemma {:induction false} AfterAgrees(s: string, start: nat, stack: seq<ContainerType>, toPush: ContainerType,
        nodes: seq<Node>, sub: Frame)
    requires start < sub.it <= |s| && nodes != [] && |stack| <= MAX_OPEN
    requires toPush == ARRAY_C || toPush == STRUCT_C || toPush == DICT_ENTRY_C
    requires sub.ok && sub.stack == stack + [toPush] && nodes[|nodes| - 1].sub == sub.nodes
    ensures var r := AfterContainer(s, start, stack, toPush, nodes, sub);
            Returned(s, sub.it, stack + [toPush], sub.nodes != []) <==> r.ok && Returned(s, r.it, stack, r.nodes != [])
    decreases |s| - start, 0, 0, 0
  {
    hide Loop, Create, PopArrays, AcceptsFrom;
    var full := stack + [toPush];
    assert Pop(full) == stack && Top(full) == toPush;
    if toPush == ARRAY_C {
      ArraySettles(stack);
      if TopIs(stack, ARRAY_C) {
      } else if sub.it == |s| {
        AcceptsAtEnd(s, Machine(stack, false, true));
        AcceptsAtEnd(s, Settle(stack));
        EndAgrees(stack);
      } else if sub.nodes != [] {
        LoopAgrees(s, sub.it, stack, nodes);
      }
    } else if sub.it == |s| {
      AcceptsAtEnd(s, Settle(full));
    } else {
      AcceptsByHead(s, sub.it, Settle(full));
      if IsEnding(s[sub.it]) && toPush == STRUCT_C && stack == [] {
        if sub.it + 1 != |s| {
          LoopAgrees(s, sub.it + 1, stack, nodes);
        } else {
          AcceptsAtEnd(s, Machine([], false, true));
          AcceptsAtEnd(s, Settle([]));
        }
      }
    }
  }

  lemma AcceptsByHead(s: string, it: nat, m: Machine)
    requires it < |s|
    ensures AcceptsFrom(s, it, m) <==> Step(m, s[it]).Some? && AcceptsFrom(s, it + 1, Step(m, s[it]).value)
  {
    hide Step;
  }

  lemma AcceptsAtEnd(s: string, m: Machine)
    ensures AcceptsFrom(s, |s|, m) <==> Accepting(m)
  {
  }

  lemma ArraySettles(stack: seq<ContainerType>)
    ensures Settle(stack + [ARRAY_C]) == Machine(PopArrays(stack), false, true)
    ensures TopIs(stack, ARRAY_C) ==> Settle(stack) == Machine(PopArrays(stack), false, true)
    ensures !TopIs(stack, ARRAY_C) ==> PopArrays(stack) == stack
  {
    assert Pop(stack + [ARRAY_C]) == stack;
  }

  /** The machine accepts exactly the valid signatures. */
  lemma MachineIsParser(s: string)
    ensures Valid(s) <==> AcceptsFrom(s, 0, START)
  {
    if s != "" { LoopAgrees(s, 0, [], []); }
  }

  // ----- the machine inside a text -----

  /** The machine after the first `j` characters. */
  function At(s: string, j: nat): Option<Machine>
    requires j <= |s|
  {
    if j == 0 then Some(START)
    else match At(s, j - 1) case None => None case Some(m) => Step(m, s[j - 1])
  }

  lemma {:induction false} AcceptedAt(s: string, j: nat)
    requires j <= |s|
    ensures AcceptsFrom(s, 0, START) <==> At(s, j).Some? && AcceptsFrom(s, j, At(s, j).value)
  {
    hide Step, AcceptsFrom, At;
    if j == 0 {
      AtStart(s);
    } else {
      AcceptedAt(s, j - 1);
      AtByLast(s, j);
      if At(s, j - 1).Some? { AcceptsByHead(s, j - 1, At(s, j - 1).value); }
    }
  }

  lemma AtStart(s: string)
    ensures At(s, 0) == Some(START) && OpenKinds(s, 0) == Brackets(START.stack) == []
  {
  }

  lemma AtByLast(s: string, j: nat)
    requires 0 < j <= |s|
    ensures At(s, j) == if At(s, j - 1).None? then None else Step(At(s, j - 1).value, s[j - 1])
  {
    hide Step;
  }

  /** The kinds of the brackets open after the first `j` characters, by the text alone. */
  function OpenKinds(s: string, j: nat): seq<ContainerType>
    requires j <= |s|
  {
    if j == 0 then []
    else
      var before, c := OpenKinds(s, j - 1), s[j - 1];
      if c == '(' || c == 'r' then before + [STRUCT_C]
      else if c == '{' || c == 'e' then before + [DICT_ENTRY_C]
      else if IsEnding(c) && before != [] then Pop(before)
      else before
  }

  function Brackets(stack: seq<ContainerType>): seq<ContainerType> {
    if stack == [] then []
    else if Top(stack) == ARRAY_C then Brackets(Pop(stack)) else Brackets(Pop(stack)) + [Top(stack)]
  }

  lemma BracketsPushed(stack: seq<ContainerType>, k: ContainerType)
    ensures Brackets(stack + [k]) == if k == ARRAY_C then Brackets(stack) else Brackets(stack) + [k]
  {
    assert Pop(stack + [k]) == stack;
  }

  lemma {:induction false} BracketsSettled(stack: seq<ContainerType>)
    ensures Brackets(PopArrays(stack)) == Brackets(stack)
  {
    if TopIs(stack, ARRAY_C) { BracketsSettled(Pop(stack)); }
  }

  lemma ClosedForms(stack: seq<ContainerType>)
    requires stack != [] && Top(stack) != ARRAY_C
    ensures Brackets(Closed(Pop(stack), Top(stack)).stack) == Brackets(Pop(stack))
    ensures Brackets(stack) != [] && Pop(Brackets(stack)) == Brackets(Pop(stack)) && Top(Brackets(stack)) == Top(stack)
  {
    BracketsSettled(Pop(stack));
  }

  /** The brackets on the machine's stack are the open ones of the text, and a machine that rests
      rests on one of them. */
  lemma {:induction false} StackIsOpen(s: string, j: nat)
    requires j <= |s| && At(s, j).Some?
    ensures Brackets(At(s, j).value.stack) == OpenKinds(s, j)
    ensures At(s, j).value.resting ==> !TopIs(At(s, j).value.stack, ARRAY_C)
  {
    hide Step, PopArrays, Brackets, At;
    if j == 0 {
      AtStart(s);
    } else {
      AtByLast(s, j);
      StackIsOpen(s, j - 1);
      StepKeepsBrackets(At(s, j - 1).value, s[j - 1]);
    }
  }

  /** What a step does to the open brackets. */
  lemma StepKeepsBrackets(m: Machine, c: char)
    requires Step(m, c).Some? && (m.resting ==> !TopIs(m.stack, ARRAY_C))
    ensures var n, before := Step(m, c).value, Brackets(m.stack);
            && (n.resting ==> !TopIs(n.stack, ARRAY_C))
            && Brackets(n.stack)
                 == if c == '(' || c == 'r' then before + [STRUCT_C]
                    else if c == '{' || c == 'e' then before + [DICT_ENTRY_C]
                    else if IsEnding(c) && before != [] then Pop(before) else before
  {
    hide PopArrays, Brackets;
    if IsEnding(c) {
      ClosedForms(m.stack);
    } else if !m.resting && IsContainer(CharToType(c)) && CharToType(c) != VARIANT {
      BracketsPushed(m.stack, CharToContainer(c));
    } else {
      BracketsSettled(m.stack);
    }
  }

  // ----- which brackets are matched by kind -----

  function KindClosedBy(c: char): ContainerType { if c == ')' then STRUCT_C else DICT_ENTRY_C }

  /** The closing character at `j` is of the kind of the bracket it closes. */
  predicate KindMatches(s: string, j: nat)
    requires j < |s|
  {
    TopIs(OpenKinds(s, j), KindClosedBy(s[j]))
  }

  /** The parser does not look at the kind of the closing character at `j`: it comes directly after
      the end of a struct or dict entry that stands directly in a bracket. */
  predicate Unchecked(s: string, j: nat)
    requires j < |s|
  {
    && IsEnding(s[j]) && j > 0 && IsEnding(s[j - 1])
    && At(s, j - 1).Some? && At(s, j - 1).value.stack != []
    && var around := Pop(At(s, j - 1).value.stack); around != [] && Top(around) != ARRAY_C
  }

  /** At a closing character, the machine rests exactly where the kind goes unchecked. */
  lemma RestsWhereUnchecked(s: string, j: nat)
    requires j < |s| && IsEnding(s[j]) && At(s, j).Some? && Step(At(s, j).value, s[j]).Some?
    ensures At(s, j).value.resting <==> Unchecked(s, j)
  {
    hide Brackets, OpenKinds, PopArrays, CharToType;
    if j > 0 {
      StackIsOpen(s, j - 1);
      RestsAfter(At(s, j - 1).value, s[j - 1]);
    }
  }

  /** Only a closing character brings the machine to rest, when what it closes stands directly in
      a bracket or in nothing. */
  lemma RestsAfter(m: Machine, c: char)
    requires Step(m, c).Some? && (m.resting ==> !TopIs(m.stack, ARRAY_C))
    ensures Step(m, c).value.resting ==> IsEnding(c)
    ensures IsEnding(c) ==> m.stack != []
    ensures IsEnding(c) && Pop(m.stack) != [] ==> (Step(m, c).value.resting <==> Top(Pop(m.stack)) != ARRAY_C)
    ensures IsEnding(c) && Pop(m.stack) == [] ==> Step(m, c).value.stack == []
  {
    hide PopArrays;
  }

  /** In an accepted text every closing character is of the kind of its opening one, unless it
      comes directly after a struct or dict entry that stands directly in a bracket. */
  lemma KindsMatch(s: string, j: nat)
    requires Valid(s) && j < |s| && IsEnding(s[j]) && !Unchecked(s, j)
    ensures KindMatches(s, j)
  {
    hide Valid, At, AcceptsFrom, Step, Brackets, OpenKinds, Unchecked;
    MachineIsParser(s);
    AcceptedAt(s, j);
    AcceptsByHead(s, j, At(s, j).value);
    StackIsOpen(s, j);
    RestsWhereUnchecked(s, j);
    ClosesItsKind(At(s, j).value, s[j]);
  }

  lemma ClosesItsKind(m: Machine, c: char)
    requires Step(m, c).Some? && IsEnding(c) && !m.resting
    ensures TopIs(Brackets(m.stack), KindClosedBy(c))
  {
    hide PopArrays, Brackets;
    ClosedForms(m.stack);
  }

  predicate FollowsCloser(s: string, j: nat)
    requires j < |s|
  {
    j > 0 && IsEnding(s[j - 1])
  }

  /** In particular a closing character that does not directly follow another one is of the kind
      of its opening one. */
  lemma SeparateKindsMatch(s: string, j: nat)
    requires Valid(s) && j < |s| && IsEnding(s[j]) && !FollowsCloser(s, j)
    ensures KindMatches(s, j)
  {
    KindsMatch(s, j);
  }

  /** So where no two closing characters are adjacent, all kinds match. */
  lemma AllKindsMatch(s: string)
    requires Valid(s)
    requires forall j :: 0 <= j < |s| && IsEnding(s[j]) ==> !FollowsCloser(s, j)
    ensures forall j :: 0 <= j < |s| && IsEnding(s[j]) ==> KindMatches(s, j)
  {
    hide Valid, FollowsCloser, KindMatches;
    forall j | 0 <= j < |s| && IsEnding(s[j]) ensures KindMatches(s, j) {
      SeparateKindsMatch(s, j);
    }
  }

  function Other(c: char): char { if c == ')' then '}' else ')' }

  lemma {:induction false} SamePrefix(s: string, u: string, j: nat)
    requires j <= |s| && j <= |u| && s[..j] == u[..j]
    ensures At(s, j) == At(u, j)
  {
    if j > 0 {
      assert s[..j][..j - 1] == s[..j - 1] && u[..j][..j - 1] == u[..j - 1];
      assert s[j - 1] == s[..j][j - 1] == u[..j][j - 1] == u[j - 1];
      SamePrefix(s, u, j - 1);
    }
  }

  lemma {:induction false} SameSuffix(s: string, u: string, j: nat, m: Machine)
    requires j <= |s| == |u| && s[j..] == u[j..]
    ensures AcceptsFrom(s, j, m) == AcceptsFrom(u, j, m)
    decreases |s| - j
  {
    hide Step, Accepting;
    if j < |s| {
      assert s[j] == s[j..][0] == u[j..][0] == u[j];
      assert s[j + 1..] == s[j..][1..] == u[j..][1..] == u[j + 1..];
      match Step(m, s[j])
      case None =>
      case Some(n) => SameSuffix(s, u, j + 1, n);
    }
  }

  /** And that is exact: an accepted text stays accepted with a closing character replaced by the
      one of the other kind if and only if its kind goes unchecked. */
  lemma FlipKeepsIff(s: string, j: nat)
    requires Valid(s) && j < |s| && IsEnding(s[j])
    ensures Valid(s[j := Other(s[j])]) <==> Unchecked(s, j)
  {
    hide Valid, At, AcceptsFrom, PopArrays;
    var u := s[j := Other(s[j])];
    MachineIsParser(s);
    MachineIsParser(u);
    AcceptedAt(s, j);
    AcceptedAt(u, j);
    SamePrefix(s, u, j);
    var m := At(s, j).value;
    AcceptsByHead(s, j, m);
    AcceptsByHead(u, j, m);
    RestsWhereUnchecked(s, j);
    FlippedStep(m, s[j]);
    if m.resting { SameSuffix(s, u, j + 1, Step(m, s[j]).value); }
  }

  lemma FlippedStep(m: Machine, c: char)
    requires IsEnding(c) && Step(m, c).Some?
    ensures Step(m, Other(c)) == if m.resting then Step(m, c) else None
  {
    hide PopArrays;
  }
}
