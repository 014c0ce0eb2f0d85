/** When an append succeeds, and when containers built in working buffers of their own come out as
    the D-Bus format has them: the exact condition for whole values. */
module Layouts {
  import opened Bytes
  import opened Codec
  import opened Variants
  import opened Signatures
  import opened Bodies
  import SignatureGrammar

  // ----- offsets -----

  /** Both offsets are padded alike, to every alignment. */
  predicate Sync(p: nat, q: nat) { p % 8 == q % 8 }

  /** Both offsets are padded alike to alignments up to 4. */
  predicate Half(p: nat, q: nat) { p % 4 == q % 4 }

  lemma SyncIsHalf(p: nat, q: nat)
    requires Sync(p, q)
    ensures Half(p, q)
  {
    LowBits(p);
    LowBits(q);
  }

  lemma LowBits(p: nat)
    ensures p % 4 == p % 8 % 4 && p % 2 == p % 4 % 2
  {
    var k, r := p / 8, p % 8;
    assert p == 8 * k + r;
    QuotientUnique(p, 4, 2 * k + (if r < 4 then 0 else 1), if r < 4 then r else r - 4);
    QuotientUnique(p, 2, 4 * k + r / 2, r % 2);
  }

  lemma SyncGap(p: nat, q: nat, a: Alignment)
    requires Sync(p, q) || (Half(p, q) && a <= 4)
    ensures Gap(p, a) == Gap(q, a) && Pad(p, a) == Pad(q, a)
  {
    LowBits(p);
    LowBits(q);
  }

  lemma Plus(p: nat, q: nat, n: nat)
    ensures Half(p, q) <==> Half(p + n, q + n)
    ensures Sync(p, q) <==> Sync(p + n, q + n)
  {
    SumOfFours(p, n);
    SumOfFours(q, n);
    SumOfEights(p, n);
    SumOfEights(q, n);
  }

  lemma SumOfFours(p: nat, n: nat)
    ensures var r := p % 4 + n % 4; (p + n) % 4 == if r < 4 then r else r - 4
  {
    assert p == 4 * (p / 4) + p % 4 && n == 4 * (n / 4) + n % 4;
  }

  lemma SumOfEights(p: nat, n: nat)
    ensures var r := p % 8 + n % 8; (p + n) % 8 == if r < 8 then r else r - 8
  {
    assert p == 8 * (p / 8) + p % 8 && n == 8 * (n / 8) + n % 8;
  }

  /** Out of step, one offset has four octets more to the next multiple of 8. */
  lemma OutOfStep(p: nat, q: nat)
    requires Half(p, q) && !Sync(p, q)
    ensures Gap(p, 8) == Gap(q, 8) + 4 || Gap(q, 8) == Gap(p, 8) + 4
  {
    LowBits(p);
    LowBits(q);
  }

  lemma UpToEight(p: nat, q: nat)
    ensures AlignUp(p, 8) % 8 == 0 && Sync(0, AlignUp(p, 8)) && Sync(AlignUp(p, 8), AlignUp(q, 8))
  {
    AlignUpIsMultiple(p, 8);
    AlignUpIsMultiple(q, 8);
  }

  /** Elements start at a multiple of 4, and at a multiple of 8 when they are 8-aligned. */
  lemma StartIsMultiple(off: nat, a: Alignment)
    ensures Half(0, Start(off, a))
    ensures a == 8 ==> Sync(0, Start(off, a))
  {
    hide Gap;
    var n := AlignUp(off, 4) + 4;
    FourMore(off);
    if a == 8 {
      UpToEight(n, n);
      SyncIsHalf(0, AlignUp(n, 8));
    } else {
      SmallGap(n, a);
    }
  }

  lemma FourMore(off: nat)
    ensures (AlignUp(off, 4) + 4) % 4 == 0
  {
    hide Gap;
    AlignUpIsMultiple(off, 4);
    SumOfFours(AlignUp(off, 4), 4);
  }

  lemma SmallGap(n: nat, a: Alignment)
    requires n % 4 == 0 && a <= 4
    ensures AlignUp(n, a) == n
  {
    LowBits(n);
  }

  // ----- what an append writes, and when it succeeds -----

  /** The octets an append adds, with every container in a buffer of its own. */
  function Nested(t: Ty, v: Val, off: nat): seq<byte>
    requires HasType(v, t)
    decreases v, 0
  {
    match v
    case Base(b) => Encode(b, off, Big)
    case Var(NoVariant) => []
    case Var(Basic(b)) => VariantFormat(b, off, Big)
    case Tuple(ms) => Pad(off, 8) + NestedAll(t.members, ms, 0)
    case List(es) => Arrayed(HeadAlign(t.elem), NestedAll(Repeat(t.elem, |es|), es, 0), off, Big)
  }

  function NestedAll(ts: seq<Ty>, vs: seq<Val>, off: nat): seq<byte>
    requires HaveTypes(vs, ts)
    decreases vs, 1
  {
    if vs == [] then []
    else
      var first := Nested(ts[0], vs[0], off);
      first + NestedAll(ts[1..], vs[1..], off + |first|)
  }

  /** Signature values have at most 255 octets; arrays have an element type that the parser
      accepts by itself, and elements that take at most 2^26 octets. */
  predicate Writable(t: Ty, v: Val)
    requires HasType(v, t)
    decreases v, 0
  {
    match v
    case Base(b) => b.Sig? ==> |b.g| < TWO8
    case Var(_) => true
    case Tuple(ms) => AllWritable(t.members, ms)
    case List(es) =>
      && Valid(SignatureGrammar.Text(t.elem))
      && AllWritable(Repeat(t.elem, |es|), es)
      && |NestedAll(Repeat(t.elem, |es|), es, 0)| % TWO32 <= 0x400_0000
  }

  predicate AllWritable(ts: seq<Ty>, vs: seq<Val>)
    requires HaveTypes(vs, ts)
    decreases vs, 1
  {
    vs != [] ==> Writable(ts[0], vs[0]) && AllWritable(ts[1..], vs[1..])
  }

  /** An append succeeds if and only if the value is writable, wherever it stands. */
  lemma {:induction false} WriteIff(t: Ty, v: Val, off: nat)
    requires HasType(v, t)
    ensures Write(t, v, off) == if Writable(t, v) then Some(Nested(t, v, off)) else None
    decreases v, 0
  {
    hide Encode, VariantFormat, Valid, ElemAlign, HeadAlign, NestedAll, WriteAll, AllWritable, Arrayed, Gap;
    match v
    case Base(_) =>
    case Var(_) =>
    case Tuple(ms) => WriteAllIff(t.members, ms, 0);
    case List(es) =>
      ElemAlignIff(t.elem);
      WriteAllIff(Repeat(t.elem, |es|), es, 0);
  }

  lemma {:induction false} WriteAllIff(ts: seq<Ty>, vs: seq<Val>, off: nat)
    requires HaveTypes(vs, ts)
    ensures WriteAll(ts, vs, off) == if AllWritable(ts, vs) then Some(NestedAll(ts, vs, off)) else None
    decreases vs, 1
  {
    hide Write, Nested, Writable;
    if vs != [] {
      WriteIff(ts[0], vs[0], off);
      WriteAllIff(ts[1..], vs[1..], off + |Nested(ts[0], vs[0], off)|);
    }
  }

  // ----- one step of unfolding -----

  lemma NestedTuple(t: Ty, ms: seq<Val>, off: nat)
    requires t.Group? && HasType(Tuple(ms), t)
    ensures HaveTypes(ms, t.members)
    ensures Nested(t, Tuple(ms), off) == Pad(off, 8) + NestedAll(t.members, ms, 0)
    ensures Direct(t, Tuple(ms), off, Big) == Pad(off, 8) + DirectAll(t.members, ms, AlignUp(off, 8), Big)
  {
    hide NestedAll, DirectAll, AlignUp, Pad;
  }

  lemma NestedList(t: Ty, es: seq<Val>, off: nat)
    requires t.Arr? && HasType(List(es), t)
    ensures HaveTypes(es, Repeat(t.elem, |es|))
    ensures Elements(t, es, off, Big) == DirectAll(Repeat(t.elem, |es|), es, Start(off, HeadAlign(t.elem)), Big)
    ensures Nested(t, List(es), off) == Arrayed(HeadAlign(t.elem), NestedAll(Repeat(t.elem, |es|), es, 0), off, Big)
    ensures Direct(t, List(es), off, Big) == Arrayed(HeadAlign(t.elem), Elements(t, es, off, Big), off, Big)
  {
    hide NestedAll, DirectAll, Arrayed, HeadAlign;
    ArrayForms(t, es, off, Big);
  }

  lemma NestedAllByHead(ts: seq<Ty>, vs: seq<Val>, off: nat)
    requires HaveTypes(vs, ts) && vs != []
    ensures var first := Nested(ts[0], vs[0], off);
            NestedAll(ts, vs, off) == first + NestedAll(ts[1..], vs[1..], off + |first|)
  {
    hide Nested;
  }

  lemma NestedAllNone(ts: seq<Ty>, off: nat)
    requires HaveTypes([], ts)
    ensures NestedAll(ts, [], off) == []
  {
  }

  // ----- the same octets from offsets in step -----

  /** The values that are padded to 8 inside the buffer they stand in. */
  predicate Own(t: Ty, v: Val)
    requires HasType(v, t)
  {
    match v
    case Base(b) => Align(b) == 8
    case Var(w) => w.Basic? && Align(w.value) == 8
    case Tuple(_) => true
    case List(_) => HeadAlign(t.elem) == 8
  }

  lemma EncodeAlike(b: Value, p: nat, q: nat)
    requires Sync(p, q) || (Half(p, q) && Align(b) != 8)
    ensures Encode(b, p, Big) == Encode(b, q, Big)
  {
    hide Gap, Raw, Align;
    SyncGap(p, q, Align(b));
  }

  lemma VariantAlike(b: Value, p: nat, q: nat)
    requires Sync(p, q) || (Half(p, q) && Align(b) != 8)
    ensures VariantFormat(b, p, Big) == VariantFormat(b, q, Big)
  {
    hide Encode, RawSignature, Align, Half, Sync;
    Plus(p, q, 3);
    EncodeAlike(b, p + 3, q + 3);
  }

  lemma ArrayedAlike(a: Alignment, inner: seq<byte>, p: nat, q: nat)
    requires Sync(p, q) || (Half(p, q) && a != 8)
    ensures Arrayed(a, inner, p, Big) == Arrayed(a, inner, q, Big)
  {
    hide Gap, Raw, Half, Sync;
    if Sync(p, q) { SyncIsHalf(p, q); }
    SyncGap(p, q, 4);
    Plus(p, q, Gap(p, 4) + 4);
    SyncGap(AlignUp(p, 4) + 4, AlignUp(q, 4) + 4, a);
  }

  /** A value that is no container, and one whose contents agree, comes out alike in step. */
  lemma LeafAlike(t: Ty, v: Val, p: nat, q: nat)
    requires HasType(v, t) && (v.Base? || v.Var?)
    requires Half(p, q) && (Sync(p, q) || !Own(t, v))
    ensures Nested(t, v, p) == Direct(t, v, q, Big)
  {
    hide Encode, VariantFormat, Half, Sync, Align;
    match v
    case Base(b) => EncodeAlike(b, p, q);
    case Var(NoVariant) =>
    case Var(Basic(b)) => VariantAlike(b, p, q);
  }

  // ----- the condition -----

  /** With a value at `p` in its working buffer and at `q` in the message: whatever is padded to 8
      in its buffer stands in step with the message, all the way down. */
  predicate Agrees(t: Ty, v: Val, p: nat, q: nat)
    requires HasType(v, t)
    decreases v, 0
  {
    && (Sync(p, q) || !Own(t, v))
    && match v
       case Base(_) => true
       case Var(_) => true
       case Tuple(ms) => AllAgree(t.members, ms, 0, AlignUp(q, 8))
       case List(es) => AllAgree(Repeat(t.elem, |es|), es, 0, Start(q, HeadAlign(t.elem)))
  }

  predicate AllAgree(ts: seq<Ty>, vs: seq<Val>, p: nat, q: nat)
    requires HaveTypes(vs, ts)
    decreases vs, 1
  {
    vs != [] ==>
      && Agrees(ts[0], vs[0], p, q)
      && var n := |Direct(ts[0], vs[0], q, Big)|; AllAgree(ts[1..], vs[1..], p + n, q + n)
  }

  lemma AgreesList(t: Ty, es: seq<Val>, p: nat, q: nat)
    requires t.Arr? && HasType(List(es), t)
    ensures HaveTypes(es, Repeat(t.elem, |es|))
    ensures Agrees(t, List(es), p, q) == ((Sync(p, q) || HeadAlign(t.elem) != 8)
         && AllAgree(Repeat(t.elem, |es|), es, 0, Start(q, HeadAlign(t.elem))))
  {
    hide AllAgree, Start, Sync, HeadAlign;
  }

  lemma AllAgreeByHead(ts: seq<Ty>, vs: seq<Val>, p: nat, q: nat)
    requires HaveTypes(vs, ts) && vs != []
    ensures var n := |Direct(ts[0], vs[0], q, Big)|;
            AllAgree(ts, vs, p, q) == (Agrees(ts[0], vs[0], p, q) && AllAgree(ts[1..], vs[1..], p + n, q + n))
  {
    hide Agrees, Direct;
  }

  lemma {:induction false} AgreesIsDirect(t: Ty, v: Val, p: nat, q: nat)
    requires HasType(v, t) && Half(p, q) && Agrees(t, v, p, q)
    ensures Nested(t, v, p) == Direct(t, v, q, Big)
    decreases v, 0
  {
    hide Nested, Direct, NestedAll, DirectAll, AllAgree, Start, AlignUp, Half, Sync, Arrayed, Pad, Elements, HeadAlign;
    match v
    case Base(_) => LeafAlike(t, v, p, q);
    case Var(_) => LeafAlike(t, v, p, q);
    case Tuple(ms) =>
      NestedTuple(t, ms, p);
      NestedTuple(t, ms, q);
      SyncGap(p, q, 8);
      UpToEight(q, q);
      SyncIsHalf(0, AlignUp(q, 8));
      AllAgreeIsDirect(t.members, ms, 0, AlignUp(q, 8));
    case List(es) =>
      NestedList(t, es, p);
      NestedList(t, es, q);
      var a := HeadAlign(t.elem);
      StartIsMultiple(q, a);
      AllAgreeIsDirect(Repeat(t.elem, |es|), es, 0, Start(q, a));
      ArrayedAlike(a, Elements(t, es, q, Big), p, q);
  }

  lemma {:induction false} AllAgreeIsDirect(ts: seq<Ty>, vs: seq<Val>, p: nat, q: nat)
    requires HaveTypes(vs, ts) && Half(p, q) && AllAgree(ts, vs, p, q)
    ensures NestedAll(ts, vs, p) == DirectAll(ts, vs, q, Big)
    decreases vs, 1
  {
    hide Nested, Direct, NestedAll, DirectAll, Agrees, AllAgree, Half, HasType;
    if vs == [] {
      NestedAllNone(ts, p);
      DirectAllNone(ts, q, Big);
    } else {
      NestedAllByHead(ts, vs, p);
      DirectAllByHead(ts, vs, q, Big);
      AllAgreeByHead(ts, vs, p, q);
      AgreesIsDirect(ts[0], vs[0], p, q);
      var n := |Direct(ts[0], vs[0], q, Big)|;
      Plus(p, q, n);
      AllAgreeIsDirect(ts[1..], vs[1..], p + n, q + n);
    }
  }

  // ----- layouts that are four octets apart -----

  /** One text is the other with four zero octets before it. */
  predicate Apart(a: seq<byte>, b: seq<byte>) { Zeros(4) + a == b || Zeros(4) + b == a }

  lemma NeverApart(a: seq<byte>)
    ensures !Apart(a, a)
  {
    assert |Zeros(4) + a| == |a| + 4;
  }

  /** A common beginning of texts four octets apart is all zeros, so the rests are as far apart. */
  lemma Slide(x: seq<byte>, y: seq<byte>, z: seq<byte>)
    requires Apart(x + y, x + z)
    ensures Apart(y, z)
  {
    if Zeros(4) + (x + y) == x + z { SlideOne(x, y, z); } else { SlideOne(x, z, y); }
  }

  lemma {:induction false} SlideOne(x: seq<byte>, y: seq<byte>, z: seq<byte>)
    requires Zeros(4) + (x + y) == x + z
    ensures Zeros(4) + y == z
  {
    var long := Zeros(4) + (x + y);
    assert |long| == |x| + |z|;
    forall i | 0 <= i < |x| ensures x[i] == 0 { AllZero(x, y, z, i); }
    forall j | 0 <= j < |z| ensures z[j] == (Zeros(4) + y)[j] {
      assert z[j] == long[|x| + j];
      if j < 4 && |x| + j >= 4 { assert long[|x| + j] == (x + y)[|x| + j - 4] == x[|x| + j - 4]; }
    }
  }

  lemma {:induction false} AllZero(x: seq<byte>, y: seq<byte>, z: seq<byte>, i: nat)
    requires Zeros(4) + (x + y) == x + z && i < |x|
    ensures x[i] == 0
  {
    assert x[i] == (x + z)[i] == (Zeros(4) + (x + y))[i];
    if i >= 4 {
      assert (Zeros(4) + (x + y))[i] == (x + y)[i - 4] == x[i - 4];
      AllZero(x, y, z, i - 4);
    }
  }

  /** Lengths whose octets are four apart: one of them is zero. */
  lemma LengthsApart(m: uint32, n: uint32, y: seq<byte>, z: seq<byte>)
    requires Apart(Fixed(m, 4, Big) + y, Fixed(n, 4, Big) + z)
    ensures m == 0 || n == 0
  {
    hide Fixed;
    if Zeros(4) + (Fixed(m, 4, Big) + y) == Fixed(n, 4, Big) + z {
      Cancel(Zeros(4), Fixed(m, 4, Big) + y, Fixed(n, 4, Big), z);
      Pow256Values();
      FixedIsZero(n, 4, Big);
    } else {
      Cancel(Zeros(4), Fixed(n, 4, Big) + z, Fixed(m, 4, Big), y);
      Pow256Values();
      FixedIsZero(m, 4, Big);
    }
  }

  predicate NoGroups(ts: seq<Ty>) { forall i :: 0 <= i < |ts| ==> !ts[i].Group? }

  lemma {:induction false} RepeatNoGroups(e: Ty, n: nat)
    requires !e.Group?
    ensures NoGroups(Repeat(e, n))
  {
    if n > 0 {
      RepeatNoGroups(e, n - 1);
      assert Repeat(e, n) == [e] + Repeat(e, n - 1);
    }
  }

  /** A value takes no octets in its buffer exactly when it takes none in the message. */
  lemma {:induction false} Empty(t: Ty, v: Val, p: nat, q: nat)
    requires HasType(v, t) && Half(p, q) && (Sync(p, q) || !t.Group?)
    ensures Nested(t, v, p) == [] <==> Direct(t, v, q, Big) == []
    decreases v, 0
  {
    hide Gap, NestedAll, DirectAll, AlignUp, Half, Sync, Fixed, HeadAlign;
    match v
    case Base(_) =>
    case Var(_) =>
    case Tuple(ms) =>
      NestedTuple(t, ms, p);
      NestedTuple(t, ms, q);
      SyncGap(p, q, 8);
      UpToEight(q, q);
      SyncIsHalf(0, AlignUp(q, 8));
      EmptyAll(t.members, ms, 0, AlignUp(q, 8));
    case List(es) =>
  }

  lemma {:induction false} EmptyAll(ts: seq<Ty>, vs: seq<Val>, p: nat, q: nat)
    requires HaveTypes(vs, ts) && Half(p, q) && (Sync(p, q) || NoGroups(ts))
    ensures NestedAll(ts, vs, p) == [] <==> DirectAll(ts, vs, q, Big) == []
    decreases vs, 1
  {
    hide Nested, Direct, NestedAll, DirectAll, Half, Sync, HasType;
    if vs == [] {
      NestedAllNone(ts, p);
      DirectAllNone(ts, q, Big);
    } else {
      NestedAllByHead(ts, vs, p);
      DirectAllByHead(ts, vs, q, Big);
      Empty(ts[0], vs[0], p, q);
      if Nested(ts[0], vs[0], p) == [] { EmptyAll(ts[1..], vs[1..], p, q); }
    }
  }

  lemma ElementsEmpty(t: Ty, es: seq<Val>, q: nat)
    requires t.Arr? && HasType(List(es), t)
    ensures HaveTypes(es, Repeat(t.elem, |es|))
    ensures NestedAll(Repeat(t.elem, |es|), es, 0) == [] <==> Elements(t, es, q, Big) == []
  {
    hide NestedAll, DirectAll, Elements, Half, Sync, Start;
    NestedList(t, es, q);
    var a := HeadAlign(t.elem);
    StartIsMultiple(q, a);
    if t.elem.Group? { GroupAlign(t.elem); } else { RepeatNoGroups(t.elem, |es|); }
    EmptyAll(Repeat(t.elem, |es|), es, 0, Start(q, a));
  }

  lemma GroupAlign(t: Ty)
    requires t.Group?
    ensures HeadAlign(t) == 8
  {
  }

  /** In step, values whose octets are four apart are zeros only, and the same zeros. */
  lemma {:induction false} InStep(t: Ty, v: Val, p: nat, q: nat, y: seq<byte>, z: seq<byte>)
    requires HasType(v, t) && Sync(p, q)
    requires |Nested(t, v, p)| < TWO32 && |Direct(t, v, q, Big)| < TWO32
    requires Apart(Nested(t, v, p) + y, Direct(t, v, q, Big) + z)
    ensures Nested(t, v, p) == Direct(t, v, q, Big) && Apart(y, z)
    decreases v, 0
  {
    hide Nested, Direct, NestedAll, DirectAll, AlignUp, Half, Sync, Arrayed, Pad, Elements, HeadAlign, Own, HaveTypes,
         Apart;
    SyncIsHalf(p, q);
    match v
    case Base(_) =>
      LeafAlike(t, v, p, q);
      Slide(Direct(t, v, q, Big), y, z);
    case Var(_) =>
      LeafAlike(t, v, p, q);
      Slide(Direct(t, v, q, Big), y, z);
    case Tuple(ms) =>
      NestedTuple(t, ms, p);
      NestedTuple(t, ms, q);
      SyncGap(p, q, 8);
      UpToEight(q, q);
      var inner, there := NestedAll(t.members, ms, 0), DirectAll(t.members, ms, AlignUp(q, 8), Big);
      Associative(Pad(q, 8), inner, y);
      Associative(Pad(q, 8), there, z);
      Slide(Pad(q, 8), inner + y, there + z);
      AllInStep(t.members, ms, 0, AlignUp(q, 8), y, z);
    case List(es) =>
      ListInStep(t, es, p, q, y, z);
      Slide(Direct(t, v, q, Big), y, z);
  }

  lemma ListInStep(t: Ty, es: seq<Val>, p: nat, q: nat, y: seq<byte>, z: seq<byte>)
    requires t.Arr? && HasType(List(es), t) && Sync(p, q)
    requires |Nested(t, List(es), p)| < TWO32 && |Direct(t, List(es), q, Big)| < TWO32
    requires Apart(Nested(t, List(es), p) + y, Direct(t, List(es), q, Big) + z)
    ensures Nested(t, List(es), p) == Direct(t, List(es), q, Big)
  {
    hide Nested, Direct, NestedAll, DirectAll, Sync, Half, Arrayed, Elements, HeadAlign, HaveTypes, Apart;
    NestedList(t, es, p);
    NestedList(t, es, q);
    var a := HeadAlign(t.elem);
    var inner, there := NestedAll(Repeat(t.elem, |es|), es, 0), Elements(t, es, q, Big);
    ArrayedAlike(a, there, p, q);
    ArrayedAlike(a, inner, p, q);
    ArrayedParts(a, inner, q, y);
    ArrayedParts(a, there, q, z);
    ElementsEmpty(t, es, q);
    var m, n := Fixed(|inner|, 4, Big), Fixed(|there|, 4, Big);
    Slide(Pad(q, 4), m + AfterLength(a, inner, q, y), n + AfterLength(a, there, q, z));
    LengthsApart(|inner|, |there|, AfterLength(a, inner, q, y), AfterLength(a, there, q, z));
  }

  /** What follows the length of an array. */
  function AfterLength(a: Alignment, inner: seq<byte>, off: nat, y: seq<byte>): seq<byte> {
    Pad(AlignUp(off, 4) + 4, a) + (inner + y)
  }

  lemma ArrayedParts(a: Alignment, inner: seq<byte>, off: nat, y: seq<byte>)
    requires |Arrayed(a, inner, off, Big)| < TWO32
    ensures |inner| < TWO32
    ensures Arrayed(a, inner, off, Big) + y
         == Pad(off, 4) + (Fixed(|inner|, 4, Big) + AfterLength(a, inner, off, y))
  {
    hide Fixed, Gap, AlignUp;
    var pad, len, pad2 := Pad(off, 4), Fixed(|inner| % TWO32, 4, Big), Pad(AlignUp(off, 4) + 4, a);
    assert Arrayed(a, inner, off, Big) == pad + len + (pad2 + inner);
    assert |inner| % TWO32 == |inner|;
    assert pad + len + (pad2 + inner) + y == pad + (len + (pad2 + (inner + y)));
  }

  lemma {:induction false} AllInStep(ts: seq<Ty>, vs: seq<Val>, p: nat, q: nat, y: seq<byte>, z: seq<byte>)
    requires HaveTypes(vs, ts) && Sync(p, q)
    requires |NestedAll(ts, vs, p)| < TWO32 && |DirectAll(ts, vs, q, Big)| < TWO32
    requires Apart(NestedAll(ts, vs, p) + y, DirectAll(ts, vs, q, Big) + z)
    ensures NestedAll(ts, vs, p) == DirectAll(ts, vs, q, Big) && Apart(y, z)
    decreases vs, 1
  {
    hide Nested, Direct, NestedAll, DirectAll, Sync, HasType, Apart;
    if vs == [] {
      NestedAllNone(ts, p);
      DirectAllNone(ts, q, Big);
      assert [] + y == y && [] + z == z;
    } else {
      NestedAllByHead(ts, vs, p);
      DirectAllByHead(ts, vs, q, Big);
      var first, there := Nested(ts[0], vs[0], p), Direct(ts[0], vs[0], q, Big);
      var rest, thereRest := NestedAll(ts[1..], vs[1..], p + |first|), DirectAll(ts[1..], vs[1..], q + |there|, Big);
      Associative(first, rest, y);
      Associative(there, thereRest, z);
      InStep(ts[0], vs[0], p, q, rest + y, thereRest + z);
      Plus(p, q, |first|);
      AllInStep(ts[1..], vs[1..], p + |first|, q + |there|, y, z);
    }
  }

  // ----- out of step, a value padded to 8 cannot be part of equal buffers -----

  lemma PadsApart(p: nat, q: nat, y: seq<byte>, z: seq<byte>)
    requires Half(p, q) && !Sync(p, q)
    requires Pad(p, 8) + y == Pad(q, 8) + z
    ensures Apart(y, z)
  {
    hide Gap, Half, Sync;
    OutOfStep(p, q);
    if Gap(p, 8) == Gap(q, 8) + 4 { MorePadding(Gap(q, 8), y, z); } else { MorePadding(Gap(p, 8), z, y); }
  }

  lemma MorePadding(g: nat, y: seq<byte>, z: seq<byte>)
    requires Zeros(g + 4) + y == Zeros(g) + z
    ensures Zeros(4) + y == z
  {
    assert Zeros(g + 4) == Zeros(g) + Zeros(4);
    Associative(Zeros(g), Zeros(4), y);
    Cancel(Zeros(g), Zeros(4) + y, Zeros(g), z);
  }

  lemma EncodeApart(b: Value, p: nat, q: nat, y: seq<byte>, z: seq<byte>)
    requires Half(p, q) && !Sync(p, q) && Align(b) == 8
    requires Encode(b, p, Big) + y == Encode(b, q, Big) + z
    ensures Apart(y, z) && Sync(p + |Encode(b, p, Big)|, q + |Encode(b, q, Big)|)
  {
    hide Gap, Half, Sync, Raw, Apart, Align;
    var raw := Raw(b, Big);
    Associative(Pad(p, 8), raw, y);
    Associative(Pad(q, 8), raw, z);
    PadsApart(p, q, raw + y, raw + z);
    Slide(raw, y, z);
    UpToEight(p, q);
    Plus(AlignUp(p, 8), AlignUp(q, 8), |raw|);
  }

  lemma VariantApart(b: Value, p: nat, q: nat, y: seq<byte>, z: seq<byte>)
    requires Half(p, q) && !Sync(p, q) && Align(b) == 8
    requires VariantFormat(b, p, Big) + y == VariantFormat(b, q, Big) + z
    ensures Apart(y, z) && Sync(p + |VariantFormat(b, p, Big)|, q + |VariantFormat(b, q, Big)|)
  {
    hide Half, Sync, Encode, Apart, Align, Code;
    var sig := RawSignature(SignatureOf(b));
    Plus(p, q, 3);
    Associative(sig, Encode(b, p + 3, Big), y);
    Associative(sig, Encode(b, q + 3, Big), z);
    Cancel(sig, Encode(b, p + 3, Big) + y, sig, Encode(b, q + 3, Big) + z);
    EncodeApart(b, p + 3, q + 3, y, z);
  }

  lemma TupleApart(t: Ty, ms: seq<Val>, p: nat, q: nat, y: seq<byte>, z: seq<byte>)
    requires t.Group? && HasType(Tuple(ms), t) && Half(p, q) && !Sync(p, q)
    requires |Nested(t, Tuple(ms), p)| < TWO32 && |Direct(t, Tuple(ms), q, Big)| < TWO32
    requires Nested(t, Tuple(ms), p) + y == Direct(t, Tuple(ms), q, Big) + z
    ensures Apart(y, z) && Sync(p + |Nested(t, Tuple(ms), p)|, q + |Direct(t, Tuple(ms), q, Big)|)
  {
    hide Nested, Direct, NestedAll, DirectAll, Gap, Half, Sync, HaveTypes, Apart;
    NestedTuple(t, ms, p);
    NestedTuple(t, ms, q);
    UpToEight(p, q);
    UpToEight(q, q);
    var inner, there := NestedAll(t.members, ms, 0), DirectAll(t.members, ms, AlignUp(q, 8), Big);
    Associative(Pad(p, 8), inner, y);
    Associative(Pad(q, 8), there, z);
    PadsApart(p, q, inner + y, there + z);
    AllInStep(t.members, ms, 0, AlignUp(q, 8), y, z);
    Plus(AlignUp(p, 8), AlignUp(q, 8), |inner|);
  }

  lemma ArrayedEnd(a: Alignment, inner: seq<byte>, off: nat)
    ensures off + |Arrayed(a, inner, off, Big)| == Start(off, a) + |inner|
  {
    hide Gap, Fixed;
  }

  /** Equal arrays, each followed by something: the lengths are equal, and what follows them. */
  lemma EqualArrays(a: Alignment, inner: seq<byte>, there: seq<byte>, p: nat, q: nat, y: seq<byte>, z: seq<byte>)
    requires Half(p, q)
    requires |Arrayed(a, inner, p, Big)| < TWO32 && |Arrayed(a, there, q, Big)| < TWO32
    requires Arrayed(a, inner, p, Big) + y == Arrayed(a, there, q, Big) + z
    ensures |inner| == |there| && AfterLength(a, inner, p, y) == AfterLength(a, there, q, z)
  {
    hide Arrayed, Half, Sync, Fixed, FromFixed, AfterLength, Gap;
    ArrayedParts(a, inner, p, y);
    ArrayedParts(a, there, q, z);
    SyncGap(p, q, 4);
    var m, n := Fixed(|inner|, 4, Big), Fixed(|there|, 4, Big);
    Cancel(Pad(p, 4), m + AfterLength(a, inner, p, y), Pad(q, 4), n + AfterLength(a, there, q, z));
    Cancel(m, AfterLength(a, inner, p, y), n, AfterLength(a, there, q, z));
    Pow256Values();
    FixedRoundTrip(|inner|, 4, Big);
    FixedRoundTrip(|there|, 4, Big);
  }

  lemma ListApart(t: Ty, es: seq<Val>, p: nat, q: nat, y: seq<byte>, z: seq<byte>)
    requires t.Arr? && HasType(List(es), t) && HeadAlign(t.elem) == 8 && Half(p, q) && !Sync(p, q)
    requires |Nested(t, List(es), p)| < TWO32 && |Direct(t, List(es), q, Big)| < TWO32
    requires Nested(t, List(es), p) + y == Direct(t, List(es), q, Big) + z
    ensures Apart(y, z) && Sync(p + |Nested(t, List(es), p)|, q + |Direct(t, List(es), q, Big)|)
  {
    hide Nested, Direct, NestedAll, DirectAll, Gap, Half, Sync, HaveTypes, Apart, Arrayed, Elements, HeadAlign;
    NestedList(t, es, p);
    NestedList(t, es, q);
    var inner, there := NestedAll(Repeat(t.elem, |es|), es, 0), Elements(t, es, q, Big);
    ArrayedEnd(8, inner, p);
    ArrayedEnd(8, there, q);
    EqualArrays(8, inner, there, p, q, y, z);
    SyncGap(p, q, 4);
    Plus(p, q, Gap(p, 4) + 4);
    PadsApart(AlignUp(p, 4) + 4, AlignUp(q, 4) + 4, inner + y, there + z);
    StartIsMultiple(q, 8);
    StartIsMultiple(p, 8);
    AllInStep(Repeat(t.elem, |es|), es, 0, Start(q, 8), y, z);
    InStepToo(Start(p, 8), Start(q, 8));
    Plus(Start(p, 8), Start(q, 8), |inner|);
  }

  lemma InStepToo(p: nat, q: nat)
    requires Sync(0, p) && Sync(0, q)
    ensures Sync(p, q)
  {
  }

  lemma OwnApart(t: Ty, v: Val, p: nat, q: nat, y: seq<byte>, z: seq<byte>)
    requires HasType(v, t) && Half(p, q) && !Sync(p, q) && Own(t, v)
    requires |Nested(t, v, p)| < TWO32 && |Direct(t, v, q, Big)| < TWO32
    requires Nested(t, v, p) + y == Direct(t, v, q, Big) + z
    ensures Apart(y, z) && Sync(p + |Nested(t, v, p)|, q + |Direct(t, v, q, Big)|)
  {
    hide Encode, VariantFormat, NestedAll, DirectAll, Half, Sync, Apart, Arrayed, Align, HeadAlign, Gap, HaveTypes;
    match v
    case Base(b) => EncodeApart(b, p, q, y, z);
    case Var(w) => VariantApart(w.value, p, q, y, z);
    case Tuple(ms) => TupleApart(t, ms, p, q, y, z);
    case List(es) => ListApart(t, es, p, q, y, z);
  }

  // ----- equal layouts agree -----

  /** A value that starts in step or does not mind, with equal octets up to whatever follows. */
  lemma {:induction false} DirectAgrees(t: Ty, v: Val, p: nat, q: nat, y: seq<byte>, z: seq<byte>)
    requires HasType(v, t) && Half(p, q) && (Sync(p, q) || !Own(t, v))
    requires |Nested(t, v, p)| < TWO32 && |Direct(t, v, q, Big)| < TWO32
    requires Nested(t, v, p) + y == Direct(t, v, q, Big) + z
    ensures Agrees(t, v, p, q) && Nested(t, v, p) == Direct(t, v, q, Big) && y == z
    decreases v, 0
  {
    hide Nested, Direct, NestedAll, DirectAll, Half, Sync, Gap, Arrayed, Elements, HeadAlign, AllAgree;
    match v
    case Base(_) =>
      LeafAlike(t, v, p, q);
      Cancel(Nested(t, v, p), y, Direct(t, v, q, Big), z);
    case Var(_) =>
      LeafAlike(t, v, p, q);
      Cancel(Nested(t, v, p), y, Direct(t, v, q, Big), z);
    case Tuple(ms) =>
      NestedTuple(t, ms, p);
      NestedTuple(t, ms, q);
      SyncGap(p, q, 8);
      UpToEight(q, q);
      var inner, there := NestedAll(t.members, ms, 0), DirectAll(t.members, ms, AlignUp(q, 8), Big);
      Associative(Pad(q, 8), inner, y);
      Associative(Pad(q, 8), there, z);
      Cancel(Pad(q, 8), inner + y, Pad(q, 8), there + z);
      AllInStepAgree(t.members, ms, 0, AlignUp(q, 8), y, z);
    case List(es) =>
      ListAgrees(t, es, p, q, y, z);
  }

  lemma {:induction false} ListAgrees(t: Ty, es: seq<Val>, p: nat, q: nat, y: seq<byte>, z: seq<byte>)
    requires t.Arr? && HasType(List(es), t) && Half(p, q) && (Sync(p, q) || HeadAlign(t.elem) != 8)
    requires |Nested(t, List(es), p)| < TWO32 && |Direct(t, List(es), q, Big)| < TWO32
    requires Nested(t, List(es), p) + y == Direct(t, List(es), q, Big) + z
    ensures Agrees(t, List(es), p, q) && Nested(t, List(es), p) == Direct(t, List(es), q, Big) && y == z
    decreases es, 2
  {
    hide Nested, Direct, NestedAll, DirectAll, Half, Sync, Gap, Arrayed, Elements, HeadAlign, AllAgree, Agrees, HasType;
    NestedList(t, es, p);
    NestedList(t, es, q);
    AgreesList(t, es, p, q);
    var a := HeadAlign(t.elem);
    var inner, there := NestedAll(Repeat(t.elem, |es|), es, 0), Elements(t, es, q, Big);
    EqualArrays(a, inner, there, p, q, y, z);
    ArrayedAlike(a, inner, p, q);
    ArrayedAlike(a, there, p, q);
    SyncGap(p, q, 4);
    Plus(p, q, Gap(p, 4) + 4);
    SyncGap(AlignUp(p, 4) + 4, AlignUp(q, 4) + 4, a);
    var pad := Pad(AlignUp(q, 4) + 4, a);
    Cancel(pad, inner + y, pad, there + z);
    Cancel(inner, y, there, z);
    ArrayedParts(a, inner, p, y);
    ArrayedParts(a, there, q, z);
    StartIsMultiple(q, a);
    AllDirectAgree(Repeat(t.elem, |es|), es, 0, Start(q, a));
  }

  lemma {:induction false} AllInStepAgree(ts: seq<Ty>, vs: seq<Val>, p: nat, q: nat, y: seq<byte>, z: seq<byte>)
    requires HaveTypes(vs, ts) && Sync(p, q)
    requires |NestedAll(ts, vs, p)| < TWO32 && |DirectAll(ts, vs, q, Big)| < TWO32
    requires NestedAll(ts, vs, p) + y == DirectAll(ts, vs, q, Big) + z
    ensures AllAgree(ts, vs, p, q) && NestedAll(ts, vs, p) == DirectAll(ts, vs, q, Big) && y == z
    decreases vs, 1
  {
    hide Nested, Direct, NestedAll, DirectAll, Sync, Half, HasType, Agrees;
    if vs == [] {
      NestedAllNone(ts, p);
      DirectAllNone(ts, q, Big);
      assert [] + y == y && [] + z == z;
    } else {
      SyncIsHalf(p, q);
      NestedAllByHead(ts, vs, p);
      DirectAllByHead(ts, vs, q, Big);
      var first, there := Nested(ts[0], vs[0], p), Direct(ts[0], vs[0], q, Big);
      var rest, thereRest := NestedAll(ts[1..], vs[1..], p + |first|), DirectAll(ts[1..], vs[1..], q + |there|, Big);
      Associative(first, rest, y);
      Associative(there, thereRest, z);
      DirectAgrees(ts[0], vs[0], p, q, rest + y, thereRest + z);
      Plus(p, q, |first|);
      AllInStepAgree(ts[1..], vs[1..], p + |first|, q + |there|, y, z);
    }
  }

  /** Equal whole buffers: nothing in them can be out of step that is padded to 8. */
  lemma {:induction false} AllDirectAgree(ts: seq<Ty>, vs: seq<Val>, p: nat, q: nat)
    requires HaveTypes(vs, ts) && Half(p, q)
    requires |NestedAll(ts, vs, p)| < TWO32
    requires NestedAll(ts, vs, p) == DirectAll(ts, vs, q, Big)
    ensures AllAgree(ts, vs, p, q)
    decreases vs, 1
  {
    hide Nested, Direct, NestedAll, DirectAll, Sync, Half, HasType, Agrees, Own, Apart;
    if vs != [] {
      NestedAllByHead(ts, vs, p);
      DirectAllByHead(ts, vs, q, Big);
      var first, there := Nested(ts[0], vs[0], p), Direct(ts[0], vs[0], q, Big);
      var rest, thereRest := NestedAll(ts[1..], vs[1..], p + |first|), DirectAll(ts[1..], vs[1..], q + |there|, Big);
      if Sync(p, q) || !Own(ts[0], vs[0]) {
        DirectAgrees(ts[0], vs[0], p, q, rest, thereRest);
        Plus(p, q, |first|);
        AllDirectAgree(ts[1..], vs[1..], p + |first|, q + |there|);
      } else {
        OwnApart(ts[0], vs[0], p, q, rest, thereRest);
        assert rest + [] == rest && thereRest + [] == thereRest;
        AllInStep(ts[1..], vs[1..], p + |first|, q + |there|, [], []);
        NeverApart([]);
        assert false;
      }
    }
  }

  /** Building containers in working buffers of their own gives the octets of the D-Bus format if
      and only if whatever is padded to 8 in its buffer stands in step with the message. */
  lemma NestedIsDirectIff(t: Ty, v: Val, off: nat)
    requires HasType(v, t) && |Nested(t, v, off)| < TWO32
    ensures Nested(t, v, off) == Direct(t, v, off, Big) <==> Agrees(t, v, off, off)
  {
    hide Nested, Direct, Agrees;
    if Agrees(t, v, off, off) { AgreesIsDirect(t, v, off, off); }
    if Nested(t, v, off) == Direct(t, v, off, Big) { DirectAgrees(t, v, off, off, [], []); }
  }

  /** The same for whole bodies. */
  lemma BodyIsDirectIff(ts: seq<Ty>, vs: seq<Val>)
    requires HaveTypes(vs, ts) && AllWritable(ts, vs) && |NestedAll(ts, vs, 0)| < TWO32
    ensures WriteAll(ts, vs, 0).Some?
    ensures WriteAll(ts, vs, 0).value == DirectAll(ts, vs, 0, Big) <==> AllAgree(ts, vs, 0, 0)
  {
    hide WriteAll, NestedAll, DirectAll, AllAgree, AllWritable;
    WriteAllIff(ts, vs, 0);
    if AllAgree(ts, vs, 0, 0) { AllAgreeIsDirect(ts, vs, 0, 0); }
    if NestedAll(ts, vs, 0) == DirectAll(ts, vs, 0, Big) { AllDirectAgree(ts, vs, 0, 0); }
  }
}
