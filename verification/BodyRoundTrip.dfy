/** Reading a body back: when the message iterator returns the values that were appended. */
module BodyRoundTrip {
  import opened Bytes
  import opened Types
  import opened Codec
  import opened Variants
  import opened Signatures
  import opened Bodies
  import Layouts
  import opened Reading
  import SignatureGrammar

  /** Values the format can carry: texts whose length prefix holds their length, and variants
      that hold something. */
  predicate Carried(v: Val) {
    match v
    case Base(b) => Encodable(b)
    case Var(w) => w.Basic? && Encodable(w.value)
    case Tuple(ms) => AllCarried(ms)
    case List(es) => AllCarried(es)
  }

  predicate AllCarried(vs: seq<Val>) {
    vs != [] ==> Carried(vs[0]) && AllCarried(vs[1..])
  }

  /** Types the iterator can read: dict entries stand in arrays and have two members. */
  predicate Shaped(t: Ty)
    decreases t, 0
  {
    match t
    case Leaf(_) => true
    case Arr(e) => ShapedElem(e)
    case Group(dict, ms) => !dict && AllShaped(ms)
  }

  predicate ShapedElem(e: Ty)
    decreases e, 1
  {
    if e.Group? then (e.dict ==> |e.members| == 2) && AllShaped(e.members) else Shaped(e)
  }

  predicate AllShaped(ts: seq<Ty>)
    decreases ts, 0
  {
    ts != [] ==> Shaped(ts[0]) && AllShaped(ts[1..])
  }

  // ----- when the array loop stops in time -----

  /** Every element takes octets and starts no later than `last`. */
  predicate InTime(e: Ty, es: seq<Val>, pos: nat, last: nat, en: Endianess)
    requires HaveTypes(es, Repeat(e, |es|))
    decreases es
  {
    es != [] ==>
      && pos <= last && |Direct(e, es[0], pos, en)| > 0
      && (RepeatTail(e, |es|);
          InTime(e, es[1..], pos + |Direct(e, es[0], pos, en)|, last, en))
  }

  /** The gate of one array at `off`. The loop measures from the octet before the length, so it
      sees the elements end that much later than they do; and an empty array must not need
      padding after its length, for the loop does not skip it. */
  predicate Gate(t: Ty, es: seq<Val>, off: nat, en: Endianess)
    requires t.Arr? && HasType(List(es), t)
  {
    if es == [] then Start(off, HeadAlign(t.elem)) == AlignUp(off, 4) + 4
    else InTime(t.elem, es, AlignUp(off, 4) + 4, off + |Elements(t, es, off, en)|, en)
  }

  /** Every array inside passes its gate. */
  predicate Gated(t: Ty, v: Val, off: nat, en: Endianess)
    requires HasType(v, t)
    decreases v, 0
  {
    match v
    case Base(_) => true
    case Var(_) => true
    case Tuple(ms) => AllGated(t.members, ms, AlignUp(off, 8), en)
    case List(es) => Gate(t, es, off, en) && AllGated(Repeat(t.elem, |es|), es, AlignUp(off, 4) + 4, en)
  }

  predicate AllGated(ts: seq<Ty>, vs: seq<Val>, off: nat, en: Endianess)
    requires HaveTypes(vs, ts)
    decreases vs, 1
  {
    vs != [] ==>
      Gated(ts[0], vs[0], off, en) && AllGated(ts[1..], vs[1..], off + |Direct(ts[0], vs[0], off, en)|, en)
  }

  // ----- small facts -----

  lemma AlignUpTwice(off: nat, a: Alignment)
    ensures AlignUp(AlignUp(off, a), a) == AlignUp(off, a) && Pad(AlignUp(off, a), a) == []
  {
    AlignUpIsMultiple(off, a);
    AlignUpIsMultiple(AlignUp(off, a), a);
  }

  /** A value starts with the padding to its own alignment. */
  lemma LeadingPad(t: Ty, v: Val, off: nat, en: Endianess)
    requires HasType(v, t) && Carried(v)
    ensures Direct(t, v, off, en) == Pad(off, HeadAlign(t)) + Direct(t, v, AlignUp(off, HeadAlign(t)), en)
  {
    hide Gap, AlignUp, DirectAll, Raw, RawSignature, Carried, HaveTypes, Code, Arrayed, Elements;
    var a := HeadAlign(t);
    AlignUpTwice(off, a);
    match v
    case Base(b) => assert [] + Raw(b, en) == Raw(b, en);
    case Var(w) => VariantPad(off, w, en);
    case Tuple(ms) =>
      var inner := DirectAll(t.members, ms, AlignUp(off, 8), en);
      assert [] + inner == inner;
    case List(es) => ListPad(t, es, off, en);
  }

  lemma ListPad(t: Ty, es: seq<Val>, off: nat, en: Endianess)
    requires t.Arr? && HasType(List(es), t)
    ensures Direct(t, List(es), off, en) == Pad(off, 4) + Direct(t, List(es), AlignUp(off, 4), en)
  {
    hide *;
    AlignUpTwice(off, 4);
    ArrayForms(t, es, off, en);
    ArrayForms(t, es, AlignUp(off, 4), en);
    var start := AlignUp(AlignUp(off, 4) + 4, HeadAlign(t.elem));
    ArrayedPad(HeadAlign(t.elem), DirectAll(Repeat(t.elem, |es|), es, start, en), off, en);
  }

  lemma VariantPad(off: nat, w: Variant, en: Endianess)
    ensures Pad(off, 1) == [] && AlignUp(off, 1) == off
    ensures w.Basic? ==> [] + VariantFormat(w.value, off, en) == VariantFormat(w.value, off, en)
  {
  }

  lemma ArrayedPad(a: Alignment, inner: seq<byte>, off: nat, en: Endianess)
    ensures Arrayed(a, inner, off, en) == Pad(off, 4) + Arrayed(a, inner, AlignUp(off, 4), en)
  {
    hide Gap, AlignUp, Fixed;
    AlignUpTwice(off, 4);
    var len := Raw(UInt32(|inner| % TWO32), en);
    assert [] + len == len;
    Associative(Pad(off, 4), len, Pad(AlignUp(off, 4) + 4, a) + inner);
  }

  /** The elements of a non-empty array, read from right after its length. */
  lemma ElementsFromLength(t: Ty, es: seq<Val>, off: nat, en: Endianess)
    requires t.Arr? && HasType(List(es), t) && es != [] && AllCarried(es)
    ensures HaveTypes(es, Repeat(t.elem, |es|))
    ensures DirectAll(Repeat(t.elem, |es|), es, AlignUp(off, 4) + 4, en)
         == Pad(AlignUp(off, 4) + 4, HeadAlign(t.elem)) + Elements(t, es, off, en)
  {
    hide Gap, Direct, DirectAll, AlignUp, HasType, Carried, Repeat, HeadAlign, Pad;
    ArrayForms(t, es, off, en);
    RepeatTail(t.elem, |es|);
    PaddedHead(Repeat(t.elem, |es|), es, AlignUp(off, 4) + 4, en);
  }

  lemma PaddedHead(ts: seq<Ty>, es: seq<Val>, p: nat, en: Endianess)
    requires HaveTypes(es, ts) && es != [] && AllCarried(es)
    ensures DirectAll(ts, es, p, en) == Pad(p, HeadAlign(ts[0])) + DirectAll(ts, es, AlignUp(p, HeadAlign(ts[0])), en)
  {
    hide Gap, Direct, DirectAll, AlignUp, HasType, Carried, HeadAlign, Pad;
    var a := HeadAlign(ts[0]);
    DirectAllByHead(ts, es, p, en);
    DirectAllByHead(ts, es, AlignUp(p, a), en);
    LeadingPad(ts[0], es[0], p, en);
    var pad, first := Pad(p, a), Direct(ts[0], es[0], AlignUp(p, a), en);
    var rest := DirectAll(ts[1..], es[1..], AlignUp(p, a) + |first|, en);
    PadMoves(p, a, |first|);
    assert p + |pad + first| == AlignUp(p, a) + |first|;
    Associative(pad, first, rest);
  }

  lemma PadMoves(p: nat, a: Alignment, n: nat)
    ensures p + (|Pad(p, a)| + n) == AlignUp(p, a) + n
  {
  }

  // ----- the theorem -----

  lemma ReadVariantAt(v: Value, data: seq<byte>, pos: nat, en: Endianess)
    requires Encodable(v) && At(data, pos, VariantFormat(v, pos, en))
    ensures ReadVariant(data, pos, en) == Parsed(Basic(v), pos + |VariantFormat(v, pos, en)|)
  {
    hide Encode, Decode, TypeOf, FirstType, RawSignature, DecodeSignature, AsText, Readable, Encodable, Code;
    var sig := SignatureOf(v);
    AtSplit(data, pos, RawSignature(sig), Encode(v, pos + 3, en));
    CodeLength(v);
    DecodeSignatureAt(sig, data, pos);
    TypeOfCode(TypeOf(v));
    DecodeEncodedAt(v, data, pos + 3, en);
  }

  lemma ReadableLeaf(t: Ty, v: Val)
    requires t.Leaf? && HasType(v, t)
    ensures SignatureGrammar.Tree(t).dt == t.dt
    ensures t.dt == VARIANT ==> v.Var?
    ensures t.dt != VARIANT ==> v.Base? && TypeOf(v.value) == t.dt && Readable(t.dt)
    ensures !Readable(VARIANT)
  {
  }

  /** A value that stands in the D-Bus format, in either byte order, is read back and read to its
      end, when every array inside passes its gate. */
  lemma {:induction false} ReadsBack(t: Ty, v: Val, data: seq<byte>, pos: nat, en: Endianess)
    requires HasType(v, t) && Carried(v) && ShapedElem(t) && Gated(t, v, pos, en)
    requires |data| < TWO32 && At(data, pos, Direct(t, v, pos, en))
    ensures ReadElement(SignatureGrammar.Tree(t), data, pos, en) == Parsed(v, pos + |Direct(t, v, pos, en)|)
    decreases v, 0
  {
    hide Direct, ReadNode, ReadElement, AllCarried, AllShaped, AllGated, Gate, SignatureGrammar.Tree;
    match v
    case Base(b) => LeafReadsBack(t, v, data, pos, en);
    case Var(_) => LeafReadsBack(t, v, data, pos, en);
    case Tuple(ms) =>
      TupleReadsBack(t, ms, data, pos, en);
    case List(es) =>
      ArrayReadsBackIff(t, es, data, pos, en);
      ArrayIsNode(t, data, pos, en);
  }

  lemma {:induction false} TupleReadsBack(t: Ty, ms: seq<Val>, data: seq<byte>, pos: nat, en: Endianess)
    requires t.Group? && HasType(Tuple(ms), t) && Carried(Tuple(ms)) && ShapedElem(t) && Gated(t, Tuple(ms), pos, en)
    requires |data| < TWO32 && At(data, pos, Direct(t, Tuple(ms), pos, en))
    ensures ReadElement(SignatureGrammar.Tree(t), data, pos, en)
         == Parsed(Tuple(ms), pos + |Direct(t, Tuple(ms), pos, en)|)
    decreases ms, 2
  {
    hide Gap, AlignUp, DirectAll, ReadMembers, AllCarried, AllShaped, AllGated, HaveTypes, SignatureGrammar.Trees, Readable;
    var inner := DirectAll(t.members, ms, AlignUp(pos, 8), en);
    AtSplit(data, pos, Pad(pos, 8), inner);
    PadMoves(pos, 8, |inner|);
    NotReadable();
    MembersReadBack(t.members, ms, data, AlignUp(pos, 8), en);
  }

  lemma NotReadable()
    ensures !Readable(STRUCT) && !Readable(DICT_ENTRY)
  {
  }

  lemma ArrayIsNode(t: Ty, data: seq<byte>, pos: nat, en: Endianess)
    requires t.Arr?
    ensures ReadElement(SignatureGrammar.Tree(t), data, pos, en) == ReadNode(SignatureGrammar.Tree(t), data, pos, en)
  {
  }

  lemma LeafReadsBack(t: Ty, v: Val, data: seq<byte>, pos: nat, en: Endianess)
    requires HasType(v, t) && Carried(v) && (v.Base? || v.Var?)
    requires At(data, pos, Direct(t, v, pos, en))
    ensures ReadElement(SignatureGrammar.Tree(t), data, pos, en) == Parsed(v, pos + |Direct(t, v, pos, en)|)
  {
    hide Encode, Decode, VariantFormat, ReadVariant, Readable, Encodable;
    ReadableLeaf(t, v);
    if v.Base? { DecodeEncodedAt(v.value, data, pos, en); } else { ReadVariantAt(v.variant.value, data, pos, en); }
  }

  lemma NotDict(t: Ty, data: seq<byte>, pos: nat, en: Endianess)
    requires Shaped(t)
    ensures ShapedElem(t)
    ensures ReadNode(SignatureGrammar.Tree(t), data, pos, en) == ReadElement(SignatureGrammar.Tree(t), data, pos, en)
  {
  }

  lemma {:induction false} MembersReadBack(ts: seq<Ty>, vs: seq<Val>, data: seq<byte>, pos: nat, en: Endianess)
    requires HaveTypes(vs, ts) && AllCarried(vs) && AllShaped(ts) && AllGated(ts, vs, pos, en)
    requires |data| < TWO32 && At(data, pos, DirectAll(ts, vs, pos, en))
    ensures ReadMembers(SignatureGrammar.Trees(ts), data, pos, en) == Parsed(vs, pos + |DirectAll(ts, vs, pos, en)|)
    decreases vs, 1
  {
    hide Direct, DirectAll, ReadNode, ReadElement, Carried, Shaped, ShapedElem, Gated, SignatureGrammar.Tree, HasType;
    if vs == [] {
      DirectAllNone(ts, pos, en);
    } else {
      DirectAllByHead(ts, vs, pos, en);
      var first := Direct(ts[0], vs[0], pos, en);
      AtSplit(data, pos, first, DirectAll(ts[1..], vs[1..], pos + |first|, en));
      NotDict(ts[0], data, pos, en);
      ReadsBack(ts[0], vs[0], data, pos, en);
      MembersReadBack(ts[1..], vs[1..], data, pos + |first|, en);
      assert SignatureGrammar.Trees(ts)[1..] == SignatureGrammar.Trees(ts[1..]);
      assert vs == [vs[0]] + vs[1..];
    }
  }

  /** The loop over the elements gives exactly the elements if and only if each takes octets and
      starts no later than the last position. */
  lemma {:induction false} ElementsReadBackIff(e: Ty, es: seq<Val>, data: seq<byte>, pos: nat, last: nat,
          en: Endianess)
    requires HaveTypes(es, Repeat(e, |es|)) && AllCarried(es) && ShapedElem(e) && AllGated(Repeat(e, |es|), es, pos, en)
    requires |data| < TWO32 && At(data, pos, DirectAll(Repeat(e, |es|), es, pos, en))
    requires last < pos + |DirectAll(Repeat(e, |es|), es, pos, en)|
    ensures var end := pos + |DirectAll(Repeat(e, |es|), es, pos, en)|;
            ReadElements([SignatureGrammar.Tree(e)], data, pos, last, en) == Parsed(es, end) <==> InTime(e, es, pos, last, en)
    decreases es, 1
  {
    hide Direct, DirectAll, ReadElement, Carried, ShapedElem, Gated, SignatureGrammar.Tree, HasType, Repeat;
    var ts := Repeat(e, |es|);
    if es == [] {
      DirectAllNone(ts, pos, en);
    } else {
      RepeatTail(e, |es|);
      DirectAllByHead(ts, es, pos, en);
      var first := Direct(e, es[0], pos, en);
      var p := pos + |first|;
      AtSplit(data, pos, first, DirectAll(ts[1..], es[1..], p, en));
      ReadsBack(e, es[0], data, pos, en);
      assert es == [es[0]] + es[1..];
      ElementsReadBackIff(e, es[1..], data, p, last, en);
    }
  }

  /** One array reads back, and is read to its end, if and only if it passes its gate. */
  lemma {:induction false} ArrayReadsBackIff(t: Ty, es: seq<Val>, data: seq<byte>, pos: nat, en: Endianess)
    requires t.Arr? && HasType(List(es), t) && AllCarried(es) && Shaped(t)
    requires HaveTypes(es, Repeat(t.elem, |es|)) && AllGated(Repeat(t.elem, |es|), es, AlignUp(pos, 4) + 4, en)
    requires |data| < TWO32 && At(data, pos, Direct(t, List(es), pos, en))
    ensures ReadNode(SignatureGrammar.Tree(t), data, pos, en) == Parsed(List(es), pos + |Direct(t, List(es), pos, en)|)
        <==> Gate(t, es, pos, en)
    decreases es, 3
  {
    hide Direct, ReadNode, ReadElements, HasType, HaveTypes, Repeat, Gap, AlignUp, DecodeFixed, AllGated, At,
         AllCarried, ShapedElem, InTime, Arrayed, Elements, Gate, SignatureGrammar.Tree, Pad;
    var inner, p := Elements(t, es, pos, en), AlignUp(pos, 4) + 4;
    IsArrayed(t, es, pos, en);
    ArrayStands(HeadAlign(t.elem), inner, data, pos, en);
    ArrayNode(t, data, pos, p, |inner|, en);
    if es == [] {
      EmptyReadsBack(t, data, pos, en);
    } else {
      GateOfFull(t, es, pos, en);
      ElementsFromLength(t, es, pos, en);
      ElementsReadBackIff(t.elem, es, data, p, pos + |inner|, en);
    }
  }

  lemma IsArrayed(t: Ty, es: seq<Val>, off: nat, en: Endianess)
    requires t.Arr? && HasType(List(es), t)
    ensures Direct(t, List(es), off, en) == Arrayed(HeadAlign(t.elem), Elements(t, es, off, en), off, en)
  {
    hide Arrayed, DirectAll, HeadAlign;
    ArrayForms(t, es, off, en);
  }

  lemma GateOfFull(t: Ty, es: seq<Val>, off: nat, en: Endianess)
    requires t.Arr? && HasType(List(es), t) && es != []
    ensures HaveTypes(es, Repeat(t.elem, |es|))
    ensures Gate(t, es, off, en) == InTime(t.elem, es, AlignUp(off, 4) + 4, off + |Elements(t, es, off, en)|, en)
  {
    hide InTime, Elements;
  }

  lemma EmptyReadsBack(t: Ty, data: seq<byte>, pos: nat, en: Endianess)
    requires t.Arr? && HasType(List([]), t)
    ensures Elements(t, [], pos, en) == []
    ensures var p := AlignUp(pos, 4) + 4;
            && Gate(t, [], pos, en) == (AlignUp(p, HeadAlign(t.elem)) == p)
            && (p > pos ==> ReadElements([SignatureGrammar.Tree(t.elem)], data, p, pos, en) == Parsed([], p))
  {
    hide HeadAlign, Gap;
  }

  /** Where the parts of an array stand, and where its loop measures to. */
  lemma ArrayStands(a: Alignment, inner: seq<byte>, data: seq<byte>, pos: nat, en: Endianess)
    requires |data| < TWO32 && At(data, pos, Arrayed(a, inner, pos, en))
    ensures var p := AlignUp(pos, 4) + 4;
            && DecodeFixed(4, data, pos, en) == Parsed(|inner|, p)
            && pos + |inner| < TWO32
            && At(data, p, Pad(p, a) + inner)
            && pos + |Arrayed(a, inner, pos, en)| == p + |Pad(p, a) + inner|
            && p + |Pad(p, a) + inner| == AlignUp(p, a) + |inner|
            && pos < p
  {
    hide Gap, AlignUp, Fixed, DecodeFixed, Pad, Pow256;
    var p := AlignUp(pos, 4) + 4;
    var len := Fixed(|inner| % TWO32, 4, en);
    LengthEncoded(|inner| % TWO32, pos, en);
    AlignUpGrows(pos);
    PadMoves(p, a, |inner|);
    AtSplit(data, pos, Encode(UInt32(|inner| % TWO32), pos, en), Pad(p, a) + inner);
    AtSplit(data, pos, Pad(pos, 4), len);
    PadMoves(pos, 4, 0);
    Pow256Values();
    DecodeFixedAt(|inner| % TWO32, 4, data, pos, en);
  }

  lemma AlignUpGrows(off: nat)
    ensures AlignUp(off, 4) >= off
  {
  }

  lemma ArrayNode(t: Ty, data: seq<byte>, pos: nat, p: nat, n: nat, en: Endianess)
    requires t.Arr? && DecodeFixed(4, data, pos, en) == Parsed(n, p) && pos + n < TWO32
    ensures var r := ReadElements([SignatureGrammar.Tree(t.elem)], data, p, pos + n, en);
            ReadNode(SignatureGrammar.Tree(t), data, pos, en) == if r.Abort? then Abort else Parsed(List(r.value), r.pos)
  {
    hide ReadElements, DecodeFixed;
    assert (pos + n) % TWO32 == pos + n;
  }

  // ----- the gate in closed form -----

  /** Every element takes octets. */
  predicate TakeOctets(e: Ty, es: seq<Val>, pos: nat, en: Endianess)
    requires HaveTypes(es, Repeat(e, |es|))
    decreases es
  {
    es != [] ==>
      && |Direct(e, es[0], pos, en)| > 0
      && (RepeatTail(e, |es|);
          TakeOctets(e, es[1..], pos + |Direct(e, es[0], pos, en)|, en))
  }

  /** Where the octets of the last element begin, its own padding included. */
  function LastStart(e: Ty, es: seq<Val>, pos: nat, en: Endianess): (p: nat)
    requires HaveTypes(es, Repeat(e, |es|)) && es != []
    ensures p >= pos
    decreases es
  {
    RepeatTail(e, |es|);
    if |es| == 1 then pos else LastStart(e, es[1..], pos + |Direct(e, es[0], pos, en)|, en)
  }

  lemma {:induction false} ElementTypes(e: Ty, es: seq<Val>, k: nat)
    requires HaveTypes(es, Repeat(e, |es|)) && k < |es|
    ensures HasType(es[k], e)
  {
    RepeatTail(e, |es|);
    if k > 0 { ElementTypes(e, es[1..], k - 1); }
  }

  lemma {:induction false} LastInTime(e: Ty, es: seq<Val>, pos: nat, last: nat, en: Endianess)
    requires HaveTypes(es, Repeat(e, |es|)) && es != []
    ensures InTime(e, es, pos, last, en) <==> TakeOctets(e, es, pos, en) && LastStart(e, es, pos, en) <= last
    decreases es
  {
    hide Direct, HasType;
    RepeatTail(e, |es|);
    var next := pos + |Direct(e, es[0], pos, en)|;
    if |es| == 1 {
      assert InTime(e, es[1..], next, last, en) && TakeOctets(e, es[1..], next, en);
    } else {
      LastInTime(e, es[1..], next, last, en);
    }
  }

  lemma {:induction false} LastEnds(e: Ty, es: seq<Val>, pos: nat, en: Endianess)
    requires HaveTypes(es, Repeat(e, |es|)) && es != []
    ensures HasType(es[|es| - 1], e)
    ensures var p := LastStart(e, es, pos, en);
            pos + |DirectAll(Repeat(e, |es|), es, pos, en)| == p + |Direct(e, es[|es| - 1], p, en)|
    decreases es
  {
    hide Direct, DirectAll, HasType, Repeat;
    ElementTypes(e, es, |es| - 1);
    RepeatTail(e, |es|);
    DirectAllByHead(Repeat(e, |es|), es, pos, en);
    if |es| == 1 {
      DirectAllNone(Repeat(e, 0), pos + |Direct(e, es[0], pos, en)|, en);
    } else {
      LastEnds(e, es[1..], pos + |Direct(e, es[0], pos, en)|, en);
    }
  }

  /** A non-empty array passes its gate if and only if every element takes octets, and the last one
      with its own padding takes at least as many as stand between the octet before the length and
      the first element. */
  lemma GateClosedForm(t: Ty, es: seq<Val>, off: nat, en: Endianess)
    requires t.Arr? && HasType(List(es), t) && AllCarried(es) && es != []
    ensures HaveTypes(es, Repeat(t.elem, |es|)) && HasType(es[|es| - 1], t.elem)
    ensures var first := AlignUp(off, 4) + 4;
            var last := LastStart(t.elem, es, first, en);
            Gate(t, es, off, en) <==>
              && TakeOctets(t.elem, es, first, en)
              && |Direct(t.elem, es[|es| - 1], last, en)| >= Start(off, HeadAlign(t.elem)) - off
  {
    hide Gate, InTime, TakeOctets, LastStart, Direct, DirectAll, HasType, HaveTypes, Elements, Gap, HeadAlign,
         AllCarried, Pad;
    var first := AlignUp(off, 4) + 4;
    GateOfFull(t, es, off, en);
    ElementsFromLength(t, es, off, en);
    PadMoves(first, HeadAlign(t.elem), |Elements(t, es, off, en)|);
    LastInTime(t.elem, es, first, off + |Elements(t, es, off, en)|, en);
    LastEnds(t.elem, es, first, en);
  }

  // ----- only gated values read back -----

  /** No empty array of 8-aligned elements inside: the loop over one stops before the padding that
      follows its length, which may be made up for by what comes next. */
  predicate Gapless(t: Ty, v: Val)
    requires HasType(v, t)
    decreases v, 0
  {
    match v
    case Base(_) => true
    case Var(_) => true
    case Tuple(ms) => AllGapless(t.members, ms)
    case List(es) => (es == [] ==> HeadAlign(t.elem) != 8) && AllGapless(Repeat(t.elem, |es|), es)
  }

  predicate AllGapless(ts: seq<Ty>, vs: seq<Val>)
    requires HaveTypes(vs, ts)
    decreases vs, 1
  {
    vs != [] ==> Gapless(ts[0], vs[0]) && AllGapless(ts[1..], vs[1..])
  }

  /** The read gave this value, wherever it ended. */
  predicate Gives<T(==)>(r: Parsed<T>, v: T) { r.Parsed? && r.value == v }

  lemma {:induction false} OnlyGatedReadsBack(t: Ty, v: Val, data: seq<byte>, pos: nat, en: Endianess)
    requires HasType(v, t) && Carried(v) && ShapedElem(t) && Gapless(t, v)
    requires |data| < TWO32 && At(data, pos, Direct(t, v, pos, en))
    requires Gives(ReadElement(SignatureGrammar.Tree(t), data, pos, en), v)
    ensures Gated(t, v, pos, en)
    decreases v, 0
  {
    hide Direct, ReadNode, ReadElement, AllCarried, AllShaped, AllGated, AllGapless, Gate, HaveTypes, SignatureGrammar.Tree;
    match v
    case Base(_) =>
    case Var(_) =>
    case Tuple(ms) => OnlyGatedTuple(t, ms, data, pos, en);
    case List(es) => OnlyGatedArray(t, es, data, pos, en);
  }

  lemma {:induction false} OnlyGatedTuple(t: Ty, ms: seq<Val>, data: seq<byte>, pos: nat, en: Endianess)
    requires t.Group? && HasType(Tuple(ms), t) && Carried(Tuple(ms)) && ShapedElem(t) && Gapless(t, Tuple(ms))
    requires |data| < TWO32 && At(data, pos, Direct(t, Tuple(ms), pos, en))
    requires Gives(ReadElement(SignatureGrammar.Tree(t), data, pos, en), Tuple(ms))
    ensures AllGated(t.members, ms, AlignUp(pos, 8), en)
    decreases ms, 2
  {
    hide Gap, AlignUp, DirectAll, ReadMembers, AllCarried, AllShaped, AllGated, AllGapless, HaveTypes,
         SignatureGrammar.Trees, Readable;
    var inner := DirectAll(t.members, ms, AlignUp(pos, 8), en);
    AtSplit(data, pos, Pad(pos, 8), inner);
    PadMoves(pos, 8, 0);
    NotReadable();
    OnlyGatedMembers(t.members, ms, data, AlignUp(pos, 8), en);
  }

  lemma {:induction false} OnlyGatedMembers(ts: seq<Ty>, vs: seq<Val>, data: seq<byte>, pos: nat, en: Endianess)
    requires HaveTypes(vs, ts) && AllCarried(vs) && AllShaped(ts) && AllGapless(ts, vs)
    requires |data| < TWO32 && At(data, pos, DirectAll(ts, vs, pos, en))
    requires Gives(ReadMembers(SignatureGrammar.Trees(ts), data, pos, en), vs)
    ensures AllGated(ts, vs, pos, en)
    decreases vs, 1
  {
    hide Direct, DirectAll, ReadNode, ReadElement, Carried, Shaped, ShapedElem, Gated, Gapless, SignatureGrammar.Tree,
         HasType;
    if vs != [] {
      DirectAllByHead(ts, vs, pos, en);
      var first := Direct(ts[0], vs[0], pos, en);
      AtSplit(data, pos, first, DirectAll(ts[1..], vs[1..], pos + |first|, en));
      NotDict(ts[0], data, pos, en);
      OnlyGatedReadsBack(ts[0], vs[0], data, pos, en);
      ReadsBack(ts[0], vs[0], data, pos, en);
      assert SignatureGrammar.Trees(ts)[1..] == SignatureGrammar.Trees(ts[1..]);
      OnlyGatedMembers(ts[1..], vs[1..], data, pos + |first|, en);
    }
  }

  lemma {:induction false} OnlyGatedElements(e: Ty, es: seq<Val>, data: seq<byte>, pos: nat, last: nat, en: Endianess)
    requires HaveTypes(es, Repeat(e, |es|)) && AllCarried(es) && ShapedElem(e) && AllGapless(Repeat(e, |es|), es)
    requires |data| < TWO32 && At(data, pos, DirectAll(Repeat(e, |es|), es, pos, en))
    requires Gives(ReadElements([SignatureGrammar.Tree(e)], data, pos, last, en), es)
    ensures InTime(e, es, pos, last, en) && AllGated(Repeat(e, |es|), es, pos, en)
    decreases es, 1
  {
    hide Direct, DirectAll, ReadElement, Carried, ShapedElem, Gated, Gapless, SignatureGrammar.Tree, HasType, Repeat;
    if es != [] {
      RepeatTail(e, |es|);
      DirectAllByHead(Repeat(e, |es|), es, pos, en);
      var first := Direct(e, es[0], pos, en);
      AtSplit(data, pos, first, DirectAll(Repeat(e, |es|)[1..], es[1..], pos + |first|, en));
      OnlyGatedReadsBack(e, es[0], data, pos, en);
      ReadsBack(e, es[0], data, pos, en);
      OnlyGatedElements(e, es[1..], data, pos + |first|, last, en);
    }
  }

  lemma {:induction false} OnlyGatedArray(t: Ty, es: seq<Val>, data: seq<byte>, pos: nat, en: Endianess)
    requires t.Arr? && HasType(List(es), t) && Carried(List(es)) && ShapedElem(t) && Gapless(t, List(es))
    requires |data| < TWO32 && At(data, pos, Direct(t, List(es), pos, en))
    requires Gives(ReadElement(SignatureGrammar.Tree(t), data, pos, en), List(es))
    ensures Gated(t, List(es), pos, en)
    decreases es, 3
  {
    hide Direct, ReadNode, ReadElement, ReadElements, HasType, HaveTypes, Repeat, Gap, AlignUp, DecodeFixed, AllGated, At,
         AllCarried, AllGapless, InTime, Arrayed, Elements, Gate, SignatureGrammar.Tree, Pad, HeadAlign;
    var inner, p := Elements(t, es, pos, en), AlignUp(pos, 4) + 4;
    IsArrayed(t, es, pos, en);
    ArrayStands(HeadAlign(t.elem), inner, data, pos, en);
    ArrayNode(t, data, pos, p, |inner|, en);
    ArrayIsNode(t, data, pos, en);
    if es == [] {
      EmptyIsOpen(t, pos, en);
    } else {
      GateOfFull(t, es, pos, en);
      ElementsFromLength(t, es, pos, en);
      OnlyGatedElements(t.elem, es, data, p, pos + |inner|, en);
    }
  }

  lemma EmptyIsOpen(t: Ty, off: nat, en: Endianess)
    requires t.Arr? && HasType(List([]), t) && HeadAlign(t.elem) != 8
    ensures HaveTypes([], Repeat(t.elem, 0))
    ensures Gate(t, [], off, en) && AllGated(Repeat(t.elem, 0), [], AlignUp(off, 4) + 4, en)
  {
    hide Gap, HeadAlign;
    Layouts.FourMore(off);
    Layouts.SmallGap(AlignUp(off, 4) + 4, HeadAlign(t.elem));
  }

  /** Values in the format, without empty arrays of 8-aligned elements, read back if and only if
      every array passes its gate; and then the read ends where they end. */
  lemma MembersReadBackIff(ts: seq<Ty>, vs: seq<Val>, data: seq<byte>, pos: nat, en: Endianess)
    requires HaveTypes(vs, ts) && AllCarried(vs) && AllShaped(ts) && AllGapless(ts, vs)
    requires |data| < TWO32 && At(data, pos, DirectAll(ts, vs, pos, en))
    ensures var r := ReadMembers(SignatureGrammar.Trees(ts), data, pos, en);
            && (Gives(r, vs) <==> AllGated(ts, vs, pos, en))
            && (Gives(r, vs) ==> r.pos == pos + |DirectAll(ts, vs, pos, en)|)
  {
    hide DirectAll, ReadMembers, AllCarried, AllShaped, AllGated, AllGapless, HaveTypes, SignatureGrammar.Trees;
    if AllGated(ts, vs, pos, en) { MembersReadBack(ts, vs, data, pos, en); }
    if Gives(ReadMembers(SignatureGrammar.Trees(ts), data, pos, en), vs) { OnlyGatedMembers(ts, vs, data, pos, en); }
  }
}
