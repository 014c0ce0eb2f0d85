/** The append iterator as it runs (messageappenditerator.cpp): a container is built by a
    sub-iterator with a working buffer of its own, and copied when it is closed. */
module Appending {
  import opened Bytes
  import opened Types
  import opened Codec
  import opened Wire
  import opened Variants
  import opened Messages
  import opened Bodies
  import SignatureGrammar

  /** The text a top-level append adds to the message signature. */
  function Addition(t: Ty, v: Val): seq<byte> {
    if v == Var(NoVariant) then [] else AsBytes(SignatureGrammar.Text(t))
  }

  function Prefixed(a: seq<byte>, b: Option<seq<byte>>): Option<seq<byte>> {
    match b case None => None case Some(c) => Some(a + c)
  }

  lemma StartsFromNothing(w: Option<seq<byte>>)
    ensures Prefixed([], w) == w
  {
    if w.Some? { assert [] + w.value == w.value; }
  }

  lemma NothingLeft(ts: seq<Ty>, before: seq<byte>)
    requires HaveTypes([], ts)
    ensures Prefixed(before, WriteAll(ts, [], |before|)) == Some(before)
  {
    assert before + [] == before;
  }

  lemma WriteAllStops(ts: seq<Ty>, vs: seq<Val>, before: seq<byte>)
    requires HaveTypes(vs, ts) && vs != [] && Write(ts[0], vs[0], |before|) == None
    ensures Prefixed(before, WriteAll(ts, vs, |before|)) == None
  {
    hide Write;
  }

  lemma WriteAllGoesOn(ts: seq<Ty>, vs: seq<Val>, before: seq<byte>, w: seq<byte>)
    requires HaveTypes(vs, ts) && vs != [] && Write(ts[0], vs[0], |before|) == Some(w)
    ensures Prefixed(before, WriteAll(ts, vs, |before|)) == Prefixed(before + w, WriteAll(ts[1..], vs[1..], |before + w|))
  {
    hide Write, WriteAll, Prefixed;
    WriteAllByHead(ts, vs, |before|, w);
    PrefixedTwice(before, w, WriteAll(ts[1..], vs[1..], |before| + |w|));
    assert |before + w| == |before| + |w|;
  }

  lemma WriteAllByHead(ts: seq<Ty>, vs: seq<Val>, off: nat, w: seq<byte>)
    requires HaveTypes(vs, ts) && vs != [] && Write(ts[0], vs[0], off) == Some(w)
    ensures WriteAll(ts, vs, off) == Prefixed(w, WriteAll(ts[1..], vs[1..], off + |w|))
  {
    hide Write;
  }

  lemma PrefixedTwice(a: seq<byte>, b: seq<byte>, c: Option<seq<byte>>)
    ensures Prefixed(a, Prefixed(b, c)) == Prefixed(a + b, c)
  {
    if c.Some? { Associative(a, b, c.value); }
  }

  /** The header fields after a list of top-level appends; an empty variant adds nothing. */
  function SignatureAfter(h: Headers, ts: seq<Ty>, vs: seq<Val>): Option<Headers>
    requires HaveTypes(vs, ts)
    decreases vs
  {
    if vs == [] then Some(h)
    else match SignatureStep(h, ts[0], vs[0])
      case None => None
      case Some(next) => SignatureAfter(next, ts[1..], vs[1..])
  }

  function SignatureStep(h: Headers, t: Ty, v: Val): Option<Headers> {
    if v == Var(NoVariant) then Some(h) else WithSignature(h, Addition(t, v))
  }

  /** Appending empty variants changes neither the body nor the header. */
  lemma {:induction false} EmptyVariantsAddNothing(h: Headers, ts: seq<Ty>, vs: seq<Val>, off: nat)
    requires HaveTypes(vs, ts) && forall v :: v in vs ==> v == Var(NoVariant)
    ensures SignatureAfter(h, ts, vs) == Some(h) && WriteAll(ts, vs, off) == Some([])
    decreases |vs|
  {
    if vs != [] {
      assert vs[0] in vs && vs[0] == Var(NoVariant);
      assert forall v :: v in vs[1..] ==> v in vs;
      EmptyVariantsAddNothing(h, ts[1..], vs[1..], off);
      EmptyHead(ts, vs, off);
    }
  }

  lemma EmptyHead(ts: seq<Ty>, vs: seq<Val>, off: nat)
    requires HaveTypes(vs, ts) && vs != [] && Write(ts[0], vs[0], off) == Some([])
    requires WriteAll(ts[1..], vs[1..], off) == Some([])
    ensures WriteAll(ts, vs, off) == Some([])
  {
    hide Write;
    var none: seq<byte> := [];
    assert off + |none| == off && none + none == none;
  }

  lemma VariantText(t: Ty, w: Variant)
    requires HasType(Var(w), t) && w != NoVariant
    ensures Addition(t, Var(w)) == AsBytes(['v'])
  {
    assert t == SignatureGrammar.Leaf(VARIANT);
  }

  lemma SignatureByHead(h: Headers, ts: seq<Ty>, vs: seq<Val>)
    requires HaveTypes(vs, ts) && vs != []
    ensures var next := SignatureStep(h, ts[0], vs[0]);
            SignatureAfter(h, ts, vs) == if next.None? then None else SignatureAfter(next.value, ts[1..], vs[1..])
  {
    hide SignatureStep, HasType;
  }

  lemma SignatureEnds(h: Headers, ts: seq<Ty>)
    requires HaveTypes([], ts)
    ensures SignatureAfter(h, ts, []) == Some(h)
  {
  }

  lemma VariantInPlace(v: Value, start: seq<byte>)
    ensures var sig := RawSignature(SignatureOf(v));
            start + sig + Pad(|start + sig|, Align(v)) + Raw(v, Big) == start + VariantFormat(v, |start|, Big)
  {
    hide Raw, Code, Gap;
    var sig := RawSignature(SignatureOf(v));
    assert |start + sig| == |start| + 3;
  }

  class MessageAppendIterator {
    const message: Message
    const container: ContainerType
    const buffer: Buffer
    const marshaling: Marshaling
    var subiter: MessageAppendIterator?
    var arrayAlignment: Option<Alignment>

    ghost predicate Wired()
      reads this, marshaling
    {
      && marshaling.buffer == buffer && marshaling.endian == Big
      && (container == NoContainer <==> buffer == message.body)
    }

    ghost predicate Valid()
      reads this, marshaling, subiter, if subiter == null then {} else {subiter.marshaling}
    {
      Wired() && (subiter != null ==> subiter.Wired() && subiter.message == message && subiter.buffer != buffer)
    }

    /** At the top, octets go to the message body; in a container, to a working buffer. */
    constructor (message: Message, container: ContainerType)
      ensures Valid() && this.message == message && this.container == container
      ensures subiter == null && arrayAlignment == None
      ensures container != NoContainer ==> fresh(buffer) && buffer.data == []
      ensures fresh(marshaling)
    {
      this.message, this.container := message, container;
      subiter, arrayAlignment := null, None;
      var target := message.body;
      if container != NoContainer { target := new Buffer(); }
      buffer := target;
      marshaling := new Marshaling(target, Big);
    }

    /** `open_container`; `sig` is the signature of the contents. The result is false when the
        message signature cannot be extended. */
    method OpenContainer(t: ContainerType, sig: string) returns (ok: bool)
      requires Valid() && t != NoContainer
      modifies this`subiter, buffer, message`valid, message`headers
      ensures Valid() && (!old(message.valid) ==> !message.valid)
      ensures container != NoContainer ==> message.headers == old(message.headers)
      ensures ok ==> subiter != null && fresh(subiter) && subiter.Valid() && fresh(subiter.buffer) && fresh(subiter.marshaling)
      ensures ok ==> subiter.message == message && subiter.container == t && subiter.subiter == null
      ensures ok ==> subiter.buffer.data == []
      ensures ok && t == ARRAY_C ==> subiter.arrayAlignment == ParsedAlign(sig)
      ensures old(subiter) == null ==> buffer.data == old(buffer.data) && message.valid == old(message.valid)
      ensures old(subiter) == null ==>
                var text := match t
                            case STRUCT_C => AsBytes(['('] + (sig + [')']))
                            case ARRAY_C => AsBytes(['a'] + sig)
                            case VARIANT_C => AsBytes(['v'])
                            case DICT_ENTRY_C => []
                            case NoContainer => [];
                if container != NoContainer then ok && message.headers == old(message.headers)
                else ok == WithSignature(old(message.headers), text).Some?
                     && message.headers == if ok then WithSignature(old(message.headers), text).value else old(message.headers)
    {
      hide ParsedAlign, Lengthened, WithSignature, AsBytes;
      var text, align := [], None;
      match t {
        case STRUCT_C => text := AsBytes(['('] + (sig + [')']));
        case ARRAY_C =>
          text := AsBytes(['a'] + sig);
          align := ParsedAlign(sig);
        case VARIANT_C => text := AsBytes(['v']);
        case _ =>
      }
      if subiter != null {
        var closed := CloseContainer();
        if !closed { return false; }
      }
      if container == NoContainer {
        ok := message.AppendSignature(text);
        if !ok { return false; }
      }
      subiter := new MessageAppendIterator(message, t);
      subiter.arrayAlignment := align;
      ok := true;
    }

    /** `close_container`: an array first gets its length and the padding to its elements, a
        struct or a dict entry the padding to 8. The result is false when that padding divides
        by zero. An array over its limit invalidates the message and stays open. */
    method CloseContainer() returns (ok: bool)
      requires Valid() && subiter != null
      modifies this`subiter, buffer, message`valid
      ensures Valid()
      ensures !old(message.valid) ==> !message.valid
      ensures old(subiter).container == ARRAY_C ==>
                var w := Lengthened(old(subiter).arrayAlignment, old(subiter.buffer.data), |old(buffer.data)|);
                if w.Some? then
                  ok && subiter == null && message.valid == old(message.valid) && buffer.data == old(buffer.data) + w.value
                else !(ok && message.valid)
      ensures old(subiter).container == STRUCT_C || old(subiter).container == DICT_ENTRY_C ==>
                ok && subiter == null && message.valid == old(message.valid)
                && buffer.data == old(buffer.data) + (Pad(|old(buffer.data)|, 8) + old(subiter.buffer.data))
      ensures old(subiter).container == VARIANT_C ==>
                ok && subiter == null && message.valid == old(message.valid)
                && buffer.data == old(buffer.data) + old(subiter.buffer.data)
    {
      hide Encode, Gap;
      var sub := subiter;
      if sub.container == NoContainer { return true; }
      if sub.container == ARRAY_C {
        var arraySize := |sub.buffer.data| % TWO32;
        if arraySize > MAX_ARRAY {
          message.valid := false;
          return true;
        }
        LengthEncoded(arraySize, |buffer.data|, Big);
        marshaling.Marshal(UInt32(arraySize));
        if sub.arrayAlignment == None { return false; }
        marshaling.Align(sub.arrayAlignment.value);
      } else if sub.container != VARIANT_C {
        marshaling.Align(8);
      }
      marshaling.PushAll(sub.buffer.data);
      subiter := null;
      ok := true;
    }

    /** `<<` on one value. On a valid message it appends exactly the octets of `Write`, and at
        the top the signature of the value; or it invalidates the message, or aborts (`ok` is
        false), when `Write` says so or the signature cannot be extended. */
    method Append(t: Ty, v: Val) returns (ok: bool)
      requires Valid() && HasType(v, t)
      requires container == NoContainer ==> !(t.Group? && t.dict)
      requires message.valid ==> subiter == null
      modifies this`subiter, buffer, message`valid, message`headers
      ensures Valid() && (!old(message.valid) ==> !message.valid)
      ensures container != NoContainer ==> message.headers == old(message.headers)
      ensures ok && message.valid ==> subiter == null
      ensures Appended(t, v, old(buffer.data), buffer.data, old(message.headers), message.headers,
                       old(message.valid), ok && message.valid)
      decreases v, 0
    {
      match v
      case Base(b) => ok := AppendBase(t, b);
      case Var(w) => ok := AppendVariant(t, w);
      case Tuple(ms) => ok := AppendTuple(t, ms);
      case List(es) => ok := AppendList(t, es);
    }

    /** The effect of an append, for both kinds of iterator. */
    ghost predicate Appended(t: Ty, v: Val, was: seq<byte>, now: seq<byte>, hadHeaders: Headers, headers: Headers,
                             wasValid: bool, good: bool)
      requires HasType(v, t)
    {
      wasValid ==>
        if good then
          && Write(t, v, |was|).Some? && now == was + Write(t, v, |was|).value
          && if container != NoContainer then headers == hadHeaders
             else SignatureStep(hadHeaders, t, v) == Some(headers)
        else
          || Write(t, v, |was|).None?
          || (container == NoContainer && SignatureStep(hadHeaders, t, v).None?)
    }

    method AppendBase(t: Ty, b: Value) returns (ok: bool)
      requires Valid() && HasType(Base(b), t)
      modifies buffer, message`valid, message`headers
      ensures Valid() && (!old(message.valid) ==> !message.valid)
      ensures container != NoContainer ==> message.headers == old(message.headers)
      ensures Appended(t, Base(b), old(buffer.data), buffer.data, old(message.headers), message.headers,
                       old(message.valid), ok && message.valid)
    {
      hide Encode, SignatureGrammar.Text, WithSignature;
      if !message.valid { return true; }
      if b.Sig? && |b.g| > 255 {
        message.valid := false;
        return true;
      }
      if container == NoContainer {
        ok := message.AppendSignature(AsBytes(SignatureGrammar.Text(t)));
        if !ok { return false; }
      }
      marshaling.Marshal(b);
      ok := true;
    }

    method AppendVariant(t: Ty, w: Variant) returns (ok: bool)
      requires Valid() && HasType(Var(w), t) && (message.valid ==> subiter == null)
      modifies this`subiter, buffer, message`valid, message`headers
      ensures Valid() && (!old(message.valid) ==> !message.valid)
      ensures container != NoContainer ==> message.headers == old(message.headers)
      ensures old(message.valid) && ok ==> subiter == null
      ensures Appended(t, Var(w), old(buffer.data), buffer.data, old(message.headers), message.headers,
                       old(message.valid), ok && message.valid)
    {
      hide Raw, Code, AsBytes, WithSignature, ParsedAlign, Gap, Lengthened, RawSignature;
      if !message.valid || w == NoVariant { return true; }
      ghost var start := buffer.data;
      VariantText(t, w);
      ok := OpenContainer(VARIANT_C, AsText(SignatureOf(w.value)));
      if !ok { return false; }
      marshaling.MarshalSignature(SignatureOf(w.value));
      marshaling.Align(Align(w.value));
      marshaling.PushAll(Raw(w.value, Big));
      VariantInPlace(w.value, start);
      ok := CloseContainer();
    }

    method AppendTuple(t: Ty, ms: seq<Val>) returns (ok: bool)
      requires Valid() && HasType(Tuple(ms), t) && (message.valid ==> subiter == null)
      requires container == NoContainer ==> !t.dict
      modifies this`subiter, buffer, message`valid, message`headers
      ensures Valid() && (!old(message.valid) ==> !message.valid)
      ensures container != NoContainer ==> message.headers == old(message.headers)
      ensures ok && message.valid ==> subiter == null
      ensures Appended(t, Tuple(ms), old(buffer.data), buffer.data, old(message.headers), message.headers,
                       old(message.valid), ok && message.valid)
      decreases ms, 2
    {
      hide AsBytes, WithSignature, ParsedAlign, Gap, Lengthened, WriteAll, HaveTypes, SignatureGrammar.Texts;
      ok := OpenContainer(if t.dict then DICT_ENTRY_C else STRUCT_C, SignatureGrammar.Texts(t.members));
      if !ok { return false; }
      ok := subiter.AppendAll(t.members, ms);
      if !ok { return false; }
      ok := CloseContainer();
    }

    method AppendList(t: Ty, es: seq<Val>) returns (ok: bool)
      requires Valid() && HasType(List(es), t) && (message.valid ==> subiter == null)
      modifies this`subiter, buffer, message`valid, message`headers
      ensures Valid() && (!old(message.valid) ==> !message.valid)
      ensures container != NoContainer ==> message.headers == old(message.headers)
      ensures ok && message.valid ==> subiter == null
      ensures Appended(t, List(es), old(buffer.data), buffer.data, old(message.headers), message.headers,
                       old(message.valid), ok && message.valid)
      decreases es, 2
    {
      hide AsBytes, WithSignature, ParsedAlign, Gap, Lengthened, WriteAll, HaveTypes, Repeat;
      ok := OpenContainer(ARRAY_C, SignatureGrammar.Text(t.elem));
      if !ok { return false; }
      ok := subiter.AppendAll(Repeat(t.elem, |es|), es);
      if !ok { return false; }
      ok := CloseContainer();
    }

    /** The members of a container, one after the other, into its working buffer. */
    method AppendAll(ts: seq<Ty>, vs: seq<Val>) returns (ok: bool)
      requires Valid() && HaveTypes(vs, ts) && container != NoContainer
      requires subiter == null && buffer.data == []
      modifies this`subiter, buffer, message`valid, message`headers
      ensures Valid() && (!old(message.valid) ==> !message.valid)
      ensures container != NoContainer ==> message.headers == old(message.headers)
      ensures old(message.valid) ==>
                if ok && message.valid then subiter == null && WriteAll(ts, vs, 0) == Some(buffer.data)
                else WriteAll(ts, vs, 0) == None
      decreases vs, 1
    {
      hide Write, WriteAll, WithSignature;
      ghost var all := WriteAll(ts, vs, 0);
      var k := 0;
      assert vs[0..] == vs && ts[0..] == ts;
      StartsFromNothing(WriteAll(ts, vs, 0));
      while k < |vs|
        invariant 0 <= k <= |vs| == |ts| && Valid() && HaveTypes(vs[k..], ts[k..])
        invariant !old(message.valid) ==> !message.valid
        invariant message.valid ==> subiter == null
        invariant message.headers == old(message.headers)
        invariant old(message.valid) ==>
                    if message.valid then all == Prefixed(buffer.data, WriteAll(ts[k..], vs[k..], |buffer.data|)) else all == None
      {
        assert vs[k..][1..] == vs[k + 1..] && ts[k..][1..] == ts[k + 1..];
        if Write(ts[k], vs[k], |buffer.data|).None? {
          WriteAllStops(ts[k..], vs[k..], buffer.data);
        } else {
          WriteAllGoesOn(ts[k..], vs[k..], buffer.data, Write(ts[k], vs[k], |buffer.data|).value);
        }
        ok := Append(ts[k], vs[k]);
        if !ok { return false; }
        k := k + 1;
      }
      ok := true;
      NothingLeft(ts[k..], buffer.data);
    }

    /** Top-level appends, one after the other: the body gains the octets of all the values and the
        header the signature of all their types, or the message is invalidated or an append aborts
        because one of the two cannot be. */
    method AppendEach(ts: seq<Ty>, vs: seq<Val>) returns (ok: bool)
      requires Valid() && HaveTypes(vs, ts) && container == NoContainer
      requires message.valid && subiter == null
      requires forall k :: 0 <= k < |ts| ==> !(ts[k].Group? && ts[k].dict)
      modifies this`subiter, buffer, message`valid, message`headers
      ensures Valid()
      ensures var w, h := WriteAll(ts, vs, |old(message.body.data)|), SignatureAfter(old(message.headers), ts, vs);
              if ok && message.valid then
                && w.Some? && message.body.data == old(message.body.data) + w.value
                && h == Some(message.headers) && subiter == null
              else w.None? || h.None?
    {
      hide Write, WriteAll, WithSignature, SignatureAfter;
      ghost var all := Prefixed(buffer.data, WriteAll(ts, vs, |buffer.data|));
      ghost var end := SignatureAfter(message.headers, ts, vs);
      var k := 0;
      assert vs[0..] == vs && ts[0..] == ts;
      while k < |vs|
        invariant 0 <= k <= |vs| == |ts| && Valid() && HaveTypes(vs[k..], ts[k..])
        invariant message.valid ==> subiter == null
        invariant if message.valid then
                    && all == Prefixed(buffer.data, WriteAll(ts[k..], vs[k..], |buffer.data|))
                    && end == SignatureAfter(message.headers, ts[k..], vs[k..])
                  else all == None || end == None
      {
        assert vs[k..][1..] == vs[k + 1..] && ts[k..][1..] == ts[k + 1..];
        if Write(ts[k], vs[k], |buffer.data|).None? {
          WriteAllStops(ts[k..], vs[k..], buffer.data);
        } else {
          WriteAllGoesOn(ts[k..], vs[k..], buffer.data, Write(ts[k], vs[k], |buffer.data|).value);
        }
        SignatureByHead(message.headers, ts[k..], vs[k..]);
        ok := Append(ts[k], vs[k]);
        if !ok { return false; }
        k := k + 1;
      }
      ok := true;
      if message.valid {
        NothingLeft(ts[k..], buffer.data);
        SignatureEnds(message.headers, ts[k..]);
      }
    }
  }
}
