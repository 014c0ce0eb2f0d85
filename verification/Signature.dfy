/** The signature parser (`Signature::create_signature_tree`) on an iterator and a stack of
    open containers that all its recursive calls share. */
module Signatures {
  import opened Types

  /** A node of the signature tree. A chain of `m_next` links is a sequence of nodes; a null
      `m_sub` is the empty chain. */
  datatype Node = Node(dt: DataType, sub: seq<Node>)

  /** What one call leaves behind: the chain it returns, the shared iterator, the shared
      stack (its top is the last element) and the shared validity flag. */
  datatype Frame = Frame(nodes: seq<Node>, it: nat, stack: seq<ContainerType>, ok: bool)

  const MAX_OPEN := 64

  /** Dereferencing the string iterator: the character, or NUL at the end. */
  function CharAt(s: string, i: nat): char { if i < |s| then s[i] else '\0' }

  function Top(stack: seq<ContainerType>): ContainerType
    requires stack != []
  {
    stack[|stack| - 1]
  }

  function Pop(stack: seq<ContainerType>): seq<ContainerType>
    requires stack != []
  {
    stack[..|stack| - 1]
  }

  lemma PopKeeps(stack: seq<ContainerType>, c: ContainerType, more: seq<ContainerType>)
    requires stack + [c] <= more
    ensures more != [] && stack <= Pop(more)
    ensures more == stack + [c] ==> Pop(more) == stack && Top(more) == c
  {
    assert more[..|stack|] == (stack + [c])[..|stack|] == stack;
  }

  predicate TopIs(stack: seq<ContainerType>, c: ContainerType) {
    stack != [] && Top(stack) == c
  }

  /** A closing character closes the innermost open container. */
  predicate Closes(stack: seq<ContainerType>, t: DataType) {
    (TopIs(stack, STRUCT_C) && t == STRUCT) || (TopIs(stack, DICT_ENTRY_C) && t == DICT_ENTRY)
  }

  /** The contract of every call: the iterator only moves forward, the caller's stack
      entries stay, a cleared flag stays cleared, and a call that keeps the flag leaves
      exactly the stack it found. */
  ghost predicate Disciplined(s: string, it: nat, stack: seq<ContainerType>, ok: bool, r: Frame) {
    && it <= r.it <= |s|
    && stack <= r.stack
    && (r.ok ==> ok && r.stack == stack)
  }

  /** One call of `create_signature_tree`. */
  function Create(s: string, it: nat, stack: seq<ContainerType>, ok: bool): (r: Frame)
    requires it <= |s|
    ensures Disciplined(s, it, stack, ok, r)
    ensures r.nodes != [] ==> it < r.it
    decreases |s| - it, 1
  {
    if |stack| > MAX_OPEN then Frame([], it, stack, false)
    else if it == |s| then Frame([], it, stack, ok)
    else Loop(s, it, stack, [], ok)
  }

  /** The do-while loop from a round that starts at `it` with the chain `nodes` built so far. */
  function Loop(s: string, it: nat, stack: seq<ContainerType>, nodes: seq<Node>, ok: bool): (r: Frame)
    requires it < |s|
    ensures Disciplined(s, it, stack, ok, r)
    ensures |r.nodes| > |nodes| ==> it < r.it
    decreases |s| - it, 0
  {
    var t := CharToType(s[it]);
    if t == INVALID then Frame([], it, stack, false)
    else if IsEnding(s[it]) then
      if Closes(stack, t) then Frame(nodes, it, stack, ok) else Frame([], it, stack, false)
    else if TopIs(stack, ARRAY_C) && IsBasic(t) then
      Frame(nodes + [Node(t, [])], it + 1, stack, ok)
    else if IsContainer(t) && t != VARIANT then
      var toPush := CharToContainer(s[it]);
      var sub := Create(s, it + 1, stack + [toPush], ok);
      AfterContainer(s, it, stack, toPush, nodes + [Node(t, sub.nodes)], sub)
    else
      Advance(s, it, it, stack, nodes + [Node(t, [])], ok)
  }

  /** What follows the recursive call for a container that was found at `start`. */
  function AfterContainer(s: string, start: nat, stack: seq<ContainerType>, toPush: ContainerType,
                          nodes: seq<Node>, sub: Frame): (r: Frame)
    requires start < sub.it <= |s| && nodes != []
    requires stack + [toPush] <= sub.stack
    requires sub.ok ==> sub.stack == stack + [toPush]
    ensures Disciplined(s, start + 1, stack, sub.ok, r)
    decreases |s| - start, 0, 1
  {
    PopKeeps(stack, toPush, sub.stack);
    var ending := IsEnding(CharAt(s, sub.it));
    if Top(sub.stack) != toPush then Frame([], sub.it, sub.stack, false)
    else if ending && toPush == STRUCT_C then
      if Pop(sub.stack) != [] then Frame(nodes, sub.it + 1, Pop(sub.stack), sub.ok)
      else Advance(s, start, sub.it, Pop(sub.stack), nodes, sub.ok)
    else if ending && toPush == DICT_ENTRY_C then Frame(nodes, sub.it + 1, Pop(sub.stack), sub.ok)
    else if toPush == ARRAY_C && nodes[|nodes| - 1].sub != [] then
      if TopIs(Pop(sub.stack), ARRAY_C) || sub.it == |s| then Frame(nodes, sub.it, Pop(sub.stack), sub.ok)
      else Loop(s, sub.it, Pop(sub.stack), nodes, sub.ok)
    else Frame([], sub.it, sub.stack, false)
  }

  /** The end of a round: step over the character and test the loop condition. */
  function Advance(s: string, start: nat, it: nat, stack: seq<ContainerType>, nodes: seq<Node>, ok: bool): (r: Frame)
    requires start <= it < |s|
    ensures Disciplined(s, it + 1, stack, ok, r)
    decreases |s| - start, 0, 0
  {
    if it + 1 != |s| then Loop(s, it + 1, stack, nodes, ok) else Frame(nodes, it + 1, stack, ok)
  }

  lemma LoopAtContainer(s: string, it: nat, stack: seq<ContainerType>, nodes: seq<Node>, ok: bool)
    requires it < |s| && !IsEnding(s[it])
    requires IsContainer(CharToType(s[it])) && CharToType(s[it]) != VARIANT
    ensures var toPush := CharToContainer(s[it]);
            var sub := Create(s, it + 1, stack + [toPush], ok);
            Loop(s, it, stack, nodes, ok)
              == AfterContainer(s, it, stack, toPush, nodes + [Node(CharToType(s[it]), sub.nodes)], sub)
  {
    assert !IsBasic(CharToType(s[it]));
  }

  /** `Signature::initialize`. */
  function Parse(s: string): (r: Frame)
  {
    Create(s, 0, [], true)
  }

  predicate Valid(s: string) {
    var r := Parse(s);
    r.ok && r.stack == [] && r.it == |s|
  }

  /** `begin().type()`: the first node of a valid signature. */
  function FirstType(s: string): DataType {
    if Valid(s) && Parse(s).nodes != [] then Parse(s).nodes[0].dt else INVALID
  }

  // ----- the parser as it runs -----

  class Parser {
    const text: string
    var it: nat
    var stack: seq<ContainerType>
    var ok: bool
    var startingNode: seq<Node>

    /** `initialize`: parses the text and decides validity. */
    constructor (s: string)
      ensures text == s && ok == Valid(s) && startingNode == Parse(s).nodes
    {
      text := s;
      it, stack, ok, startingNode := 0, [], true, [];
      new;
      startingNode := CreateSignatureTree();
      if stack != [] || it != |s| { ok := false; }
    }

    /** What the loop does once the recursive call for a container is back: pop the stack and
        either return (true) or go on with the next round (false). */
    method CloseContainer(toPush: ContainerType, nodes: seq<Node>, ghost start: nat, ghost before: seq<ContainerType>)
      returns (done: bool, first: seq<Node>)
      requires start < it <= |text| && nodes != []
      requires before + [toPush] <= stack
      requires ok ==> stack == before + [toPush]
      modifies this`it, this`stack, this`ok
      ensures var r := AfterContainer(text, start, before, toPush, nodes,
                                      Frame(nodes[|nodes| - 1].sub, old(it), old(stack), old(ok)));
              if done then Frame(first, it, stack, ok) == r
              else old(it) <= it < |text| && r == Loop(text, it, stack, first, ok)
    {
      hide Loop, Pop;
      PopKeeps(before, toPush, stack);
      assert TopIs(Pop(stack), ARRAY_C) <==> Pop(stack) != [] && Top(Pop(stack)) == ARRAY_C;
      if Top(stack) != toPush { ok := false; return true, []; }
      var ending := IsEnding(CharAt(text, it));
      if ending && toPush == STRUCT_C {
        stack := Pop(stack);
        it := it + 1;
        return stack != [] || it == |text|, nodes;
      } else if ending && toPush == DICT_ENTRY_C {
        stack := Pop(stack);
        it := it + 1;
        return true, nodes;
      } else if toPush == ARRAY_C && nodes[|nodes| - 1].sub != [] {
        stack := Pop(stack);
        var isArrayEnd := !(stack != [] && Top(stack) == ARRAY_C);
        return !(isArrayEnd && it != |text|), nodes;
      } else {
        ok := false;
        return true, [];
      }
    }

    /** The round of the loop for a container: push it, parse its contents recursively, link
        them under a new node, and close it. */
    method Container(nodes: seq<Node>, t: DataType) returns (done: bool, first: seq<Node>)
      requires it < |text| && t == CharToType(text[it]) && IsContainer(t) && t != VARIANT
      requires !IsEnding(text[it])
      modifies this`it, this`stack, this`ok
      ensures var r := Loop(text, old(it), old(stack), nodes, old(ok));
              if done then Frame(first, it, stack, ok) == r
              else old(it) < it < |text| && r == Loop(text, it, stack, first, ok)
      decreases |text| - it, 0
    {
      hide *;
      ghost var start, before := it, stack;
      var toPush := CharToContainer(text[it]);
      ghost var inner := Create(text, it + 1, stack + [toPush], ok);
      LoopAtContainer(text, it, stack, nodes, ok);
      stack := stack + [toPush];
      it := it + 1;
      var sub := CreateSignatureTree();
      assert inner == Frame(sub, it, stack, ok);
      var chain := nodes + [Node(t, sub)];
      assert chain[|chain| - 1].sub == sub;
      done, first := CloseContainer(toPush, chain, start, before);
    }

    /** The recursive do-while loop. Its `top` and `pop` never meet an empty stack, and it
        terminates on every text. */
    method CreateSignatureTree() returns (first: seq<Node>)
      requires it <= |text|
      modifies this`it, this`stack, this`ok
      ensures Frame(first, it, stack, ok) == Create(text, old(it), old(stack), old(ok))
      ensures old(it) <= it <= |text| && old(stack) <= stack && (ok ==> stack == old(stack))
      decreases |text| - it, 1
    {
      ghost var r := Create(text, it, stack, ok);
      if |stack| > MAX_OPEN {
        ok := false;
        return [];
      }
      if it == |text| { return []; }
      assert r == Loop(text, it, stack, [], ok);
      hide Create, AfterContainer, Closes;
      var nodes: seq<Node> := [];
      while true
        invariant old(it) <= it < |text|
        invariant Loop(text, it, stack, nodes, ok) == r
        decreases |text| - it
      {
        var t := CharToType(text[it]);
        if t == INVALID { ok := false; return []; }
        if IsEnding(text[it]) {
          if Closes(stack, t) { return nodes; }
          ok := false;
          return [];
        }
        if stack != [] && Top(stack) == ARRAY_C && IsBasic(t) {
          it := it + 1;
          return nodes + [Node(t, [])];
        }
        if IsContainer(t) && t != VARIANT {
          var done, chain := Container(nodes, t);
          nodes := chain;
          if done { return nodes; }
          continue;
        }
        nodes := nodes + [Node(t, [])];
        it := it + 1;
        if it == |text| { return nodes; }
      }
    }
  }
}
