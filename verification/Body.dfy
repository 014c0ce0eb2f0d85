/** The values of a message body: what the append iterator writes, built from working buffers
    that all start at offset 0, and what the D-Bus format wants at absolute offsets. */
module Bodies {
  import opened Bytes
  import opened Types
  import opened Codec
  import opened Variants
  import opened Signatures
  import SignatureGrammar

  type Ty = SignatureGrammar.Ty

  /** A value of a body: a basic value, a variant, a tuple (a struct or a dict entry), or a
      vector (a map is the vector of its entries, in key order). */
  datatype Val =
    | Base(value: Value)
    | Var(variant: Variant)
    | Tuple(members: seq<Val>)
    | List(elements: seq<Val>)

  predicate HasType(v: Val, t: Ty) {
    match t
    case Leaf(dt) => if dt == VARIANT then v.Var? else v.Base? && TypeOf(v.value) == dt
    case Arr(e) => v.List? && HaveTypes(v.elements, Repeat(e, |v.elements|))
    case Group(_, ms) => v.Tuple? && HaveTypes(v.members, ms)
  }

  predicate HaveTypes(vs: seq<Val>, ts: seq<Ty>) {
    |vs| == |ts| && (vs != [] ==> HasType(vs[0], ts[0]) && HaveTypes(vs[1..], ts[1..]))
  }

  function Repeat(t: Ty, n: nat): (ts: seq<Ty>)
    ensures |ts| == n
    ensures n > 0 ==> ts[0] == t
  {
    if n == 0 then [] else [t] + Repeat(t, n - 1)
  }

  lemma RepeatTail(t: Ty, n: nat)
    requires n > 0
    ensures Repeat(t, n)[0] == t && Repeat(t, n)[1..] == Repeat(t, n - 1)
  {
  }

  // ----- what the append iterator writes -----

  const MAX_ARRAY: nat := 0x400_0000

  function HeadAlign(t: Ty): Alignment { AlignmentOf(SignatureGrammar.Tree(t).dt) }

  /** The alignment an array finds for its elements by parsing their signature. A signature the
      parser rejects gives alignment 0, and padding to it divides by zero. */
  function ElemAlign(e: Ty): Option<Alignment> { ParsedAlign(SignatureGrammar.Text(e)) }

  function ParsedAlign(sig: string): Option<Alignment> {
    if FirstType(sig) == INVALID then None else Some(AlignmentOf(FirstType(sig)))
  }

  /** What appending a value adds to a buffer of `off` octets. `None`: the message is invalidated
      (a signature over 255 octets, an array over its limit), or the append aborts. */
  function Write(t: Ty, v: Val, off: nat): Option<seq<byte>>
    requires HasType(v, t)
    decreases v, 0
  {
    match v
    case Base(b) => if b.Sig? && |b.g| >= TWO8 then None else Some(Encode(b, off, Big))
    case Var(NoVariant) => Some([])
    case Var(Basic(b)) => Some(VariantFormat(b, off, Big))
    case Tuple(ms) =>
      (match WriteAll(t.members, ms, 0)
       case None => None
       case Some(inner) => Some(Pad(off, 8) + inner))
    case List(es) =>
      (match WriteAll(Repeat(t.elem, |es|), es, 0)
       case None => None
       case Some(inner) => Lengthened(ElemAlign(t.elem), inner, off))
  }

  /** The length of an array, the padding to its elements, and its elements. */
  function Lengthened(align: Option<Alignment>, inner: seq<byte>, off: nat): Option<seq<byte>> {
    if |inner| % TWO32 > MAX_ARRAY || align.None? then None
    else Some(Arrayed(align.value, inner, off, Big))
  }

  function Arrayed(a: Alignment, inner: seq<byte>, off: nat, e: Endianess): seq<byte> {
    Encode(UInt32(|inner| % TWO32), off, e) + (Pad(AlignUp(off, 4) + 4, a) + inner)
  }

  function WriteAll(ts: seq<Ty>, vs: seq<Val>, off: nat): Option<seq<byte>>
    requires HaveTypes(vs, ts)
    decreases vs, 1
  {
    if vs == [] then Some([])
    else match Write(ts[0], vs[0], off)
      case None => None
      case Some(first) =>
        match WriteAll(ts[1..], vs[1..], off + |first|)
        case None => None
        case Some(rest) => Some(first + rest)
  }

  // ----- the format -----

  /** A value in the D-Bus format at absolute offset `off`. */
  function Direct(t: Ty, v: Val, off: nat, e: Endianess): seq<byte>
    requires HasType(v, t)
    decreases v, 0
  {
    match v
    case Base(b) => Encode(b, off, e)
    case Var(NoVariant) => []
    case Var(Basic(b)) => VariantFormat(b, off, e)
    case Tuple(ms) => Pad(off, 8) + DirectAll(t.members, ms, AlignUp(off, 8), e)
    case List(es) =>
      var start := AlignUp(AlignUp(off, 4) + 4, HeadAlign(t.elem));
      Arrayed(HeadAlign(t.elem), DirectAll(Repeat(t.elem, |es|), es, start, e), off, e)
  }

  function DirectAll(ts: seq<Ty>, vs: seq<Val>, off: nat, e: Endianess): seq<byte>
    requires HaveTypes(vs, ts)
    decreases vs, 1
  {
    if vs == [] then []
    else
      var first := Direct(ts[0], vs[0], off, e);
      first + DirectAll(ts[1..], vs[1..], off + |first|, e)
  }

  /** The largest alignment anywhere inside a type; a variant may hold any basic value. */
  function Inside(t: Ty): Alignment {
    match t
    case Leaf(dt) => if dt == VARIANT then 8 else AlignmentOf(dt)
    case Arr(e) => if Inside(e) == 8 then 8 else 4
    case Group(_, _) => 8
  }

  predicate AllInside(ts: seq<Ty>, a: Alignment) {
    ts != [] ==> Inside(ts[0]) <= a && AllInside(ts[1..], a)
  }

  lemma {:induction false} AllInsideEight(ts: seq<Ty>)
    ensures AllInside(ts, 8)
  {
    if ts != [] { AllInsideEight(ts[1..]); }
  }

  lemma {:induction false} RepeatInside(t: Ty, n: nat, a: Alignment)
    requires Inside(t) <= a
    ensures AllInside(Repeat(t, n), a)
  {
    if n > 0 { RepeatInside(t, n - 1, a); RepeatTail(t, n); }
  }

  // ----- the format does not depend on a base that is aligned enough -----

  lemma AlignUpShift(base: nat, off: nat, a: Alignment, b: Alignment)
    requires Multiple(base, b) && a <= b
    ensures Gap(base + off, a) == Gap(off, a)
    ensures AlignUp(base + off, a) == base + AlignUp(off, a)
    ensures Pad(base + off, a) == Pad(off, a)
  {
    GapShift(base, off, a, b);
  }

  lemma EncodeShift(v: Value, base: nat, off: nat, b: Alignment, e: Endianess)
    requires Multiple(base, b) && Align(v) <= b
    ensures Encode(v, base + off, e) == Encode(v, off, e)
  {
    hide Gap, Multiple, Raw, Align;
    AlignUpShift(base, off, Align(v), b);
  }

  lemma VariantShift(v: Value, base: nat, off: nat, b: Alignment, e: Endianess)
    requires Multiple(base, b) && Align(v) <= b
    ensures VariantFormat(v, base + off, e) == VariantFormat(v, off, e)
  {
    hide Gap, Multiple, Raw, Align, Encode, RawSignature;
    EncodeShift(v, base, off + 3, b, e);
    assert base + off + 3 == base + (off + 3);
  }

  lemma InsideCovers(t: Ty, v: Val)
    requires HasType(v, t)
    ensures v.Base? ==> Align(v.value) <= Inside(t)
    ensures v.Var? && v.variant.Basic? ==> Align(v.variant.value) <= Inside(t)
    ensures v.Tuple? ==> Inside(t) == 8
  {
  }

  lemma {:induction false} DirectShift(t: Ty, v: Val, base: nat, off: nat, b: Alignment, e: Endianess)
    requires HasType(v, t) && Multiple(base, b) && Inside(t) <= b
    ensures Direct(t, v, base + off, e) == Direct(t, v, off, e)
    decreases v, 0
  {
    hide Gap, Multiple, AlignUp, Encode, VariantFormat, DirectAll, Arrayed, Align, HeadAlign;
    InsideCovers(t, v);
    match v
    case Base(w) => EncodeShift(w, base, off, b, e);
    case Var(NoVariant) =>
    case Var(Basic(w)) => VariantShift(w, base, off, b, e);
    case Tuple(ms) =>
      AlignUpShift(base, off, 8, b);
      AllInsideEight(t.members);
      DirectAllShift(t.members, ms, base, AlignUp(off, 8), b, e);
    case List(es) =>
      ListShift(t, es, base, off, b, e);
  }

  lemma {:induction false} ListShift(t: Ty, es: seq<Val>, base: nat, off: nat, b: Alignment, e: Endianess)
    requires t.Arr? && HasType(List(es), t) && Multiple(base, b) && Inside(t) <= b
    ensures Direct(t, List(es), base + off, e) == Direct(t, List(es), off, e)
    decreases es, 2
  {
    hide *;
    ArrayForms(t, es, off, e);
    ArrayForms(t, es, base + off, e);
    var first := AlignUp(off, 4) + 4;
    var a := HeadAlign(t.elem);
    HeadIsInside(t.elem);
    ArrayInside(t);
    AlignUpShift(base, off, 4, b);
    AlignUpShift(base, first, a, b);
    assert base + AlignUp(off, 4) + 4 == base + first;
    RepeatInside(t.elem, |es|, b);
    DirectAllShift(Repeat(t.elem, |es|), es, base, AlignUp(first, a), b, e);
    ArrayedShift(a, DirectAll(Repeat(t.elem, |es|), es, AlignUp(first, a), e), base, off, b, e);
  }

  lemma ArrayedShift(a: Alignment, inner: seq<byte>, base: nat, off: nat, b: Alignment, e: Endianess)
    requires Multiple(base, b) && a <= b && 4 <= b
    ensures Arrayed(a, inner, base + off, e) == Arrayed(a, inner, off, e)
  {
    hide Gap, Multiple, Raw, Encode, AlignUp, Pad;
    EncodeShift(UInt32(|inner| % TWO32), base, off, b, e);
    AlignUpShift(base, off, 4, b);
    AlignUpShift(base, AlignUp(off, 4) + 4, a, b);
    assert base + AlignUp(off, 4) + 4 == base + (AlignUp(off, 4) + 4);
  }

  lemma ArrayInside(t: Ty)
    requires t.Arr?
    ensures 4 <= Inside(t) && Inside(t.elem) <= Inside(t)
  {
  }

  lemma DirectAllByHead(ts: seq<Ty>, vs: seq<Val>, off: nat, e: Endianess)
    requires HaveTypes(vs, ts) && vs != []
    ensures var first := Direct(ts[0], vs[0], off, e);
            DirectAll(ts, vs, off, e) == first + DirectAll(ts[1..], vs[1..], off + |first|, e)
  {
    hide Direct;
  }

  lemma DirectAllNone(ts: seq<Ty>, off: nat, e: Endianess)
    requires HaveTypes([], ts)
    ensures DirectAll(ts, [], off, e) == []
  {
  }

  lemma {:induction false} DirectAllShift(ts: seq<Ty>, vs: seq<Val>, base: nat, off: nat, b: Alignment, e: Endianess)
    requires HaveTypes(vs, ts) && Multiple(base, b) && AllInside(ts, b)
    ensures DirectAll(ts, vs, base + off, e) == DirectAll(ts, vs, off, e)
    decreases vs, 1
  {
    hide Gap, Multiple, AlignUp, Direct, DirectAll;
    if vs == [] {
      DirectAllNone(ts, off, e);
      DirectAllNone(ts, base + off, e);
    } else {
      DirectAllByHead(ts, vs, off, e);
      DirectAllByHead(ts, vs, base + off, e);
      DirectShift(ts[0], vs[0], base, off, b, e);
      var n := off + |Direct(ts[0], vs[0], off, e)|;
      DirectAllShift(ts[1..], vs[1..], base, n, b, e);
    }
  }

  lemma HeadIsInside(t: Ty)
    ensures HeadAlign(t) <= Inside(t)
    ensures t.Leaf? || 4 <= Inside(t)
  {
  }

  // ----- the parsed alignment -----

  /** The first node of an accepted text is the type of its first character. */
  lemma FirstTypeIsHead(s: string)
    requires |s| > 0
    ensures FirstType(s) == if Valid(s) then CharToType(s[0]) else INVALID
    ensures Valid(s) ==> CharToType(s[0]) != INVALID
  {
    if Valid(s) {
      assert Parse(s) == Loop(s, 0, [], [], true);
      hide Loop;
      FirstRound(s);
    }
  }

  lemma FirstRound(s: string)
    requires |s| > 0
    ensures var r := Loop(s, 0, [], [], true);
            r.ok ==> CharToType(s[0]) != INVALID && r.nodes != [] && r.nodes[0].dt == CharToType(s[0])
  {
    var t := CharToType(s[0]);
    if t == INVALID || IsEnding(s[0]) {
    } else if IsContainer(t) && t != VARIANT {
      LoopAtContainer(s, 0, [], [], true);
      var toPush := CharToContainer(s[0]);
      var sub := Create(s, 1, [] + [toPush], true);
      hide Loop, Create;
      SignatureGrammar.AfterStays(s, 0, [], toPush, [] + [Node(t, sub.nodes)], sub);
    } else {
      SignatureGrammar.AdvanceStays(s, 0, 0, [], [] + [Node(t, [])], true);
    }
  }

  /** An array finds the alignment of its elements exactly when the parser accepts their text. */
  lemma ElemAlignIff(e: Ty)
    ensures ElemAlign(e) == if Valid(SignatureGrammar.Text(e)) then Some(HeadAlign(e)) else None
  {
    hide FirstType, Valid;
    FirstTypeIsHead(SignatureGrammar.Text(e));
    HeadCharacter(e);
  }

  lemma HeadCharacter(e: Ty)
    ensures CharToType(SignatureGrammar.Text(e)[0]) == SignatureGrammar.Tree(e).dt
  {
    if e.Leaf? { SignatureGrammar.LeafChar(e.dt); }
  }

  lemma LengthEncoded(n: uint32, off: nat, e: Endianess)
    ensures off + |Encode(UInt32(n), off, e)| == AlignUp(off, 4) + 4
  {
    hide Gap, Fixed;
  }

  lemma ArrayForms(t: Ty, es: seq<Val>, off: nat, e: Endianess)
    requires t.Arr? && HasType(List(es), t)
    ensures HaveTypes(es, Repeat(t.elem, |es|))
    ensures var inner := WriteAll(Repeat(t.elem, |es|), es, 0);
            Write(t, List(es), off) == if inner.None? then None else Lengthened(ElemAlign(t.elem), inner.value, off)
    ensures Direct(t, List(es), off, e)
         == Arrayed(HeadAlign(t.elem),
                    DirectAll(Repeat(t.elem, |es|), es, AlignUp(AlignUp(off, 4) + 4, HeadAlign(t.elem)), e), off, e)
  {
    hide Inside, Arrayed, Lengthened, DirectAll, WriteAll;
  }

  /** An element type that the parser accepts by itself is found with its own alignment. */
  lemma ElemAlignFound(e: Ty)
    requires SignatureGrammar.Fits([e], false, MAX_OPEN)
    ensures ElemAlign(e) == Some(HeadAlign(e))
  {
    SignatureGrammar.ParsesExactly([e]);
    hide Valid, Parse, SignatureGrammar.Text;
    assert SignatureGrammar.Trees([e])[0] == SignatureGrammar.Tree(e);
    assert SignatureGrammar.Texts([e]) == SignatureGrammar.Text(e) + [] == SignatureGrammar.Text(e);
  }

  /** Where the elements of an array written at `off` start. */
  function Start(off: nat, a: Alignment): nat { AlignUp(AlignUp(off, 4) + 4, a) }

  /** The octets of the elements of an array that stands at `off`. */
  function Elements(t: Ty, es: seq<Val>, off: nat, e: Endianess): seq<byte>
    requires t.Arr? && HasType(List(es), t)
  {
    DirectAll(Repeat(t.elem, |es|), es, Start(off, HeadAlign(t.elem)), e)
  }
}
