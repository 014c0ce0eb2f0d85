/** The message iterator (messageiterator.cpp, messageiterator.h): values are read off the body
    under the tree of the message signature. */
module Reading {
  import opened Bytes
  import opened Types
  import opened Codec
  import opened Wire
  import opened Variants
  import opened Bodies
  import opened Signatures

  // ----- what reading gives -----

  /** `get_variant`: the signature in the data, then a value of its first type. An empty or a
      rejected signature gives an empty variant. */
  function ReadVariant(data: seq<byte>, pos: nat, e: Endianess): (r: Parsed<Variant>)
    ensures r.Parsed? ==> pos < r.pos
  {
    match DecodeSignature(data, pos)
    case Abort => Abort
    case Parsed(sig, p) =>
      var t := FirstType(AsText(sig));
      if Readable(t) then
        match Decode(t, data, p, e)
        case Abort => Abort
        case Parsed(v, q) => Parsed(Basic(v), q)
      else if t == INVALID then Parsed(NoVariant, p)
      else Abort
  }

  /** A signature that is rejected gives an empty variant, and nothing after it is read. */
  lemma EmptyRead(sig: seq<byte>, data: seq<byte>, pos: nat, e: Endianess)
    requires |sig| < TWO8 && At(data, pos, RawSignature(sig)) && FirstType(AsText(sig)) == INVALID
    ensures ReadVariant(data, pos, e) == Parsed(NoVariant, pos + |sig| + 2)
  {
    hide FirstType, Decode, AsText, DecodeSignature;
    DecodeSignatureAt(sig, data, pos);
  }

  /** Reading the value that a node of the signature stands for. */
  function ReadNode(n: Node, data: seq<byte>, pos: nat, e: Endianess): Parsed<Val>
    decreases n, 0, 0
  {
    if Readable(n.dt) then
      match Decode(n.dt, data, pos, e)
      case Abort => Abort
      case Parsed(v, p) => Parsed(Base(v), p)
    else if n.dt == VARIANT then
      match ReadVariant(data, pos, e)
      case Abort => Abort
      case Parsed(v, p) => Parsed(Var(v), p)
    else if n.dt == STRUCT then
      match ReadMembers(n.sub, data, AlignUp(pos, 8), e)
      case Abort => Abort
      case Parsed(vs, p) => Parsed(Tuple(vs), p)
    else if n.dt == ARRAY then
      match DecodeFixed(4, data, pos, e)
      case Abort => Abort
      case Parsed(len, p) =>
        match ReadElements(n.sub, data, p, (pos + len) % TWO32, e)
        case Abort => Abort
        case Parsed(vs, q) => Parsed(List(vs), q)
    else Abort
  }

  function ReadMembers(ns: seq<Node>, data: seq<byte>, pos: nat, e: Endianess): Parsed<seq<Val>>
    decreases ns, 0, 0
  {
    if ns == [] then Parsed([], pos)
    else match ReadNode(ns[0], data, pos, e)
      case Abort => Abort
      case Parsed(v, p) => Consed(v, ReadMembers(ns[1..], data, p, e))
  }

  function Consed(v: Val, rest: Parsed<seq<Val>>): Parsed<seq<Val>> {
    match rest case Abort => Abort case Parsed(vs, q) => Parsed([v] + vs, q)
  }

  /** An array element: a dict entry is read as a key and a value. */
  function ReadElement(n: Node, data: seq<byte>, pos: nat, e: Endianess): Parsed<Val>
    decreases n, 1, 0
  {
    if n.dt != DICT_ENTRY then ReadNode(n, data, pos, e)
    else if |n.sub| != 2 then Abort
    else match ReadMembers(n.sub, data, AlignUp(pos, 8), e)
      case Abort => Abort
      case Parsed(vs, p) => Parsed(Tuple(vs), p)
  }

  /** The loop over an array: it goes on while the position has not passed `last`. An element
      that takes no octets makes it go on until memory runs out. */
  function ReadElements(ns: seq<Node>, data: seq<byte>, pos: nat, last: nat, e: Endianess): Parsed<seq<Val>>
    decreases ns, 0, if pos <= last then last - pos + 1 else 0
  {
    if ns == [] || pos > last then Parsed([], pos)
    else match ReadElement(ns[0], data, pos, e)
      case Abort => Abort
      case Parsed(v, p) =>
        if p <= pos then Abort else Consed(v, ReadElements(ns, data, p, last, e))
  }

  // ----- the iterator as it runs -----

  /** `begin`: the nodes of a signature; there are none in one that is not valid. */
  function Begin(s: string): seq<Node> { if Valid(s) then Parse(s).nodes else [] }

  lemma BeginIsFirst()
    ensures forall s :: FirstType(s) == if Begin(s) == [] then INVALID else Begin(s)[0].dt
    ensures !Readable(INVALID)
  {
    hide Valid, Parse;
  }

  /** A read of the iterator did what the reading function says. */
  predicate Gave<T(==)>(spec: Parsed<T>, r: Option<T>, after: nat) {
    match spec case Abort => r == None case Parsed(v, p) => r == Some(v) && after == p
  }

  class MessageIterator {
    const demarshal: Demarshaling
    const isArray: bool
    const lastPosition: nat
    /** The signature iterator: the nodes from the current one on. */
    var signature: seq<Node>
    var live: bool

    constructor (demarshal: Demarshaling, signature: seq<Node>, isArray: bool, lastPosition: nat)
      ensures this.demarshal == demarshal && this.signature == signature
      ensures this.isArray == isArray && this.lastPosition == lastPosition && live
    {
      this.demarshal, this.signature := demarshal, signature;
      this.isArray, this.lastPosition := isArray, lastPosition;
      live := true;
    }

    predicate IsValid()
      reads this, demarshal
    {
      live && signature != [] && (isArray ==> demarshal.pos <= lastPosition)
    }

    /** Inside an array the iterator stays on the element type. */
    method Next() returns (more: bool)
      modifies this`signature, this`live
      ensures more == (old(IsValid()) && (isArray || |old(signature)| > 1))
      ensures signature == if old(IsValid()) && !isArray then old(signature)[1..] else old(signature)
      ensures live == (old(live) && (old(IsValid()) && !isArray ==> more))
    {
      if !IsValid() { return false; }
      if isArray { return true; }
      signature := signature[1..];
      if signature == [] {
        live := false;
        return false;
      }
      more := true;
    }

    /** The sub-iterator of a container. For an array, its end is the position before the length
        plus the length; for a variant, its signature stands in the data. */
    method Recurse() returns (sub: MessageIterator?)
      requires signature != [] && IsContainer(signature[0].dt)
      modifies demarshal`pos
      ensures sub != null ==> fresh(sub) && sub.demarshal == demarshal && sub.live
      ensures sub != null && signature[0].dt != VARIANT ==> sub.signature == signature[0].sub
      ensures signature[0].dt == ARRAY ==>
                match DecodeFixed(4, demarshal.data, old(demarshal.pos), demarshal.endian)
                case Abort => sub == null
                case Parsed(len, p) =>
                  sub != null && demarshal.pos == p && sub.isArray && sub.lastPosition == (old(demarshal.pos) + len) % TWO32
      ensures signature[0].dt == VARIANT ==>
                match DecodeSignature(demarshal.data, old(demarshal.pos))
                case Abort => sub == null
                case Parsed(sig, p) =>
                  sub != null && demarshal.pos == p && !sub.isArray && sub.signature == Begin(AsText(sig))
      ensures signature[0].dt == STRUCT || signature[0].dt == DICT_ENTRY ==>
                sub != null && demarshal.pos == AlignUp(old(demarshal.pos), 8) && !sub.isArray
    {
      hide DecodeFixed, DecodeSignature, Gap, Begin;
      if signature[0].dt == ARRAY {
        var offset := demarshal.pos;
        var len := demarshal.DemarshalFixed(4);
        if len == None { return null; }
        sub := new MessageIterator(demarshal, signature[0].sub, true, (offset + len.value) % TWO32);
      } else if signature[0].dt == VARIANT {
        var sig := demarshal.DemarshalSignature();
        if sig == None { return null; }
        sub := new MessageIterator(demarshal, Begin(AsText(sig.value)), false, 0);
      } else {
        demarshal.Align(8);
        sub := new MessageIterator(demarshal, signature[0].sub, false, 0);
      }
    }

    /** Reads the value of the current node, without moving on. */
    method Get(n: Node) returns (v: Option<Val>)
      requires signature != [] && signature[0] == n
      modifies demarshal`pos
      ensures Gave(ReadNode(n, demarshal.data, old(demarshal.pos), demarshal.endian), v, demarshal.pos)
      decreases n, 2
    {
      hide Decode, ReadVariant, ReadMembers, ReadElements, DecodeFixed, Gap, Readable;
      if Readable(n.dt) {
        var b := demarshal.Demarshal(n.dt);
        if b == None { return None; }
        v := Some(Base(b.value));
      } else if n.dt == VARIANT {
        var w := GetVariant();
        if w == None { return None; }
        v := Some(Var(w.value));
      } else if n.dt == STRUCT {
        var sub := Recurse();
        var ms := sub.GetStruct(n.sub);
        if ms == None { return None; }
        v := Some(Tuple(ms.value));
      } else if n.dt == ARRAY {
        var sub := Recurse();
        if sub == null { return None; }
        var es := sub.GetArray(n.sub);
        if es == None { return None; }
        v := Some(List(es.value));
      } else {
        v := None;
      }
    }

    /** `get_variant`: the sub-iterator says what the variant holds. */
    method GetVariant() returns (w: Option<Variant>)
      requires signature != [] && signature[0].dt == VARIANT
      modifies demarshal`pos
      ensures Gave(ReadVariant(demarshal.data, old(demarshal.pos), demarshal.endian), w, demarshal.pos)
    {
      hide Decode, DecodeSignature, Readable, FirstType, Begin;
      BeginIsFirst();
      var sub := Recurse();
      if sub == null { return None; }
      if sub.signature == [] { return Some(NoVariant); }
      var t := sub.signature[0].dt;
      if Readable(t) {
        var v := demarshal.Demarshal(t);
        if v == None { return None; }
        return Some(Basic(v.value));
      }
      w := if t == INVALID then Some(NoVariant) else None;
    }

    /** `>>` into the members of a tuple, in order. */
    method GetStruct(ns: seq<Node>) returns (r: Option<seq<Val>>)
      requires signature == ns && live && !isArray
      modifies this`signature, this`live, demarshal`pos
      ensures Gave(ReadMembers(ns, demarshal.data, old(demarshal.pos), demarshal.endian), r, demarshal.pos)
      decreases ns, 2
    {
      if ns == [] { return Some([]); }
      hide ReadNode;
      var v := Get(ns[0]);
      if v == None { return None; }
      var more := Next();
      if !more {
        assert ns[1..] == [];
        return Some([v.value] + []);
      }
      var vs := GetStruct(ns[1..]);
      if vs == None { return None; }
      r := Some([v.value] + vs.value);
    }

    /** `get_array` and the outer loop of `get_dict`. */
    method GetArray(ns: seq<Node>) returns (r: Option<seq<Val>>)
      requires signature == ns && live && isArray
      modifies this`signature, this`live, demarshal`pos
      ensures Gave(ReadElements(ns, demarshal.data, old(demarshal.pos), lastPosition, demarshal.endian), r, demarshal.pos)
      decreases ns, 1
    {
      hide ReadNode, ReadMembers;
      ghost var all := ReadElements(ns, demarshal.data, demarshal.pos, lastPosition, demarshal.endian);
      var values: seq<Val> := [];
      JoinedNone(all);
      while IsValid()
        invariant signature == ns && live
        invariant Joined(all, values, ReadElements(ns, demarshal.data, demarshal.pos, lastPosition, demarshal.endian))
        decreases lastPosition - demarshal.pos
      {
        var start := demarshal.pos;
        var v: Option<Val>;
        if ns[0].dt == DICT_ENTRY { v := GetEntry(ns[0]); } else { v := Get(ns[0]); }
        if v == None || demarshal.pos <= start { return None; }
        JoinedOnce(all, values, v.value, ReadElements(ns, demarshal.data, demarshal.pos, lastPosition, demarshal.endian));
        values := values + [v.value];
        var _ := Next();
      }
      assert values + [] == values;
      r := Some(values);
    }

    /** The body of the outer loop of `get_dict`, for entries of two members: the inner loop
        then runs once. */
    method GetEntry(n: Node) returns (v: Option<Val>)
      requires signature != [] && signature[0] == n && n.dt == DICT_ENTRY
      modifies demarshal`pos
      ensures Gave(ReadElement(n, demarshal.data, old(demarshal.pos), demarshal.endian), v, demarshal.pos)
      decreases n, 3
    {
      hide ReadNode, ReadMembers, Gap;
      if |n.sub| != 2 { return None; }
      var sub := Recurse();
      var ms := sub.GetStruct(n.sub);
      if ms == None { return None; }
      v := Some(Tuple(ms.value));
    }
  }

  /** What is read in all is what was read so far followed by the rest. */
  ghost predicate Joined(all: Parsed<seq<Val>>, sofar: seq<Val>, rest: Parsed<seq<Val>>) {
    match rest case Abort => all == Abort case Parsed(vs, p) => all == Parsed(sofar + vs, p)
  }

  lemma JoinedNone(all: Parsed<seq<Val>>)
    ensures Joined(all, [], all)
  {
    if all.Parsed? { assert [] + all.value == all.value; }
  }

  lemma JoinedOnce(all: Parsed<seq<Val>>, sofar: seq<Val>, v: Val, rest: Parsed<seq<Val>>)
    requires Joined(all, sofar, Consed(v, rest))
    ensures Joined(all, sofar + [v], rest)
  {
    if rest.Parsed? { Associative(sofar, [v], rest.value); }
  }
}
