/** When one array built in a working buffer of its own comes out as the D-Bus format has it, by
    where it stands and what its elements hold, and the types for which that never matters. */
module ArrayLayouts {
  import opened Bytes
  import opened Types
  import opened Codec
  import opened Variants
  import opened Signatures
  import opened Bodies
  import opened Layouts
  import SignatureGrammar

  // ----- one array -----

  /** What makes the layout of a value depend on its offset modulo 8. Variants count by what they
      hold, and an array of 8-aligned elements counts even when it is empty. */
  predicate Wide(t: Ty, v: Val)
    requires HasType(v, t)
    decreases v, 0
  {
    match v
    case Base(b) => Align(b) == 8
    case Var(w) => w.Basic? && Align(w.value) == 8
    case Tuple(_) => true
    case List(es) => HeadAlign(t.elem) == 8 || AnyWide(Repeat(t.elem, |es|), es)
  }

  predicate AnyWide(ts: seq<Ty>, vs: seq<Val>)
    requires HaveTypes(vs, ts)
    decreases vs, 1
  {
    vs != [] && (Wide(ts[0], vs[0]) || AnyWide(ts[1..], vs[1..]))
  }

  lemma Difference(p: nat, q: nat)
    requires Sync(p, q)
    ensures p <= q ==> Multiple(q - p, 8)
    ensures q <= p ==> Multiple(p - q, 8)
  {
    assert p == 8 * (p / 8) + p % 8 && q == 8 * (q / 8) + q % 8;
    if p <= q { QuotientUnique(q - p, 8, q / 8 - p / 8, 0); }
    if q <= p { QuotientUnique(p - q, 8, p / 8 - q / 8, 0); }
  }

  lemma DirectAllAlike(ts: seq<Ty>, vs: seq<Val>, p: nat, q: nat)
    requires HaveTypes(vs, ts) && Sync(p, q)
    ensures DirectAll(ts, vs, p, Big) == DirectAll(ts, vs, q, Big)
  {
    hide DirectAll, HaveTypes, AllInside, Sync, Multiple;
    AllInsideEight(ts);
    Difference(p, q);
    if p <= q { DirectAllShift(ts, vs, q - p, p, 8, Big); } else { DirectAllShift(ts, vs, p - q, q, 8, Big); }
  }

  /** Out of step, the format has a value without anything 8-aligned alike; after any other value
      it is in step. */
  lemma {:induction false} EndsAlike(t: Ty, v: Val, p: nat, q: nat)
    requires HasType(v, t) && Half(p, q) && !Sync(p, q)
    ensures Wide(t, v) ==> Sync(p + |Direct(t, v, p, Big)|, q + |Direct(t, v, q, Big)|)
    ensures !Wide(t, v) ==> Direct(t, v, p, Big) == Direct(t, v, q, Big)
    decreases v, 0
  {
    hide Half, Sync, Gap, Raw, Align, AnyWide, HeadAlign, Arrayed, Elements, DirectAll, Code, HaveTypes;
    match v
    case Base(b) => EncodeEnds(b, p, q);
    case Var(NoVariant) =>
    case Var(Basic(b)) => VariantEnds(b, p, q);
    case Tuple(ms) =>
      UpToEight(p, q);
      DirectAllAlike(t.members, ms, AlignUp(p, 8), AlignUp(q, 8));
      Plus(AlignUp(p, 8), AlignUp(q, 8), |DirectAll(t.members, ms, AlignUp(q, 8), Big)|);
    case List(es) =>
      ListEndsAlike(t, es, p, q);
  }

  lemma EncodeEnds(b: Value, p: nat, q: nat)
    requires Half(p, q) && !Sync(p, q)
    ensures Align(b) == 8 ==> Sync(p + |Encode(b, p, Big)|, q + |Encode(b, q, Big)|)
    ensures Align(b) != 8 ==> Encode(b, p, Big) == Encode(b, q, Big)
  {
    hide Half, Sync, Gap, Raw, Align;
    if Align(b) == 8 {
      UpToEight(p, q);
      Plus(AlignUp(p, 8), AlignUp(q, 8), |Raw(b, Big)|);
    } else {
      EncodeAlike(b, p, q);
    }
  }

  lemma VariantEnds(b: Value, p: nat, q: nat)
    requires Half(p, q) && !Sync(p, q)
    ensures Align(b) == 8 ==> Sync(p + |VariantFormat(b, p, Big)|, q + |VariantFormat(b, q, Big)|)
    ensures Align(b) != 8 ==> VariantFormat(b, p, Big) == VariantFormat(b, q, Big)
  {
    hide Half, Sync, Encode, Align, Code;
    Plus(p, q, 3);
    EncodeEnds(b, p + 3, q + 3);
  }

  lemma {:induction false} ListEndsAlike(t: Ty, es: seq<Val>, p: nat, q: nat)
    requires t.Arr? && HasType(List(es), t) && Half(p, q) && !Sync(p, q)
    ensures Wide(t, List(es)) ==> Sync(p + |Direct(t, List(es), p, Big)|, q + |Direct(t, List(es), q, Big)|)
    ensures !Wide(t, List(es)) ==> Direct(t, List(es), p, Big) == Direct(t, List(es), q, Big)
    decreases es, 2
  {
    hide Half, Sync, HeadAlign, Arrayed, DirectAll, Elements, AnyWide, Direct, HaveTypes, Start;
    var a, ts := HeadAlign(t.elem), Repeat(t.elem, |es|);
    NestedList(t, es, p);
    NestedList(t, es, q);
    ArrayedEnd(a, Elements(t, es, p, Big), p);
    ArrayedEnd(a, Elements(t, es, q, Big), q);
    StartIsMultiple(p, a);
    StartIsMultiple(q, a);
    if a == 8 {
      InStepToo(Start(p, a), Start(q, a));
      DirectAllAlike(ts, es, Start(p, a), Start(q, a));
      Plus(Start(p, a), Start(q, a), |Elements(t, es, q, Big)|);
    } else {
      StartsOutOfStep(p, q, a);
      AllEndsAlike(ts, es, Start(p, a), Start(q, a));
      ArrayedAlike(a, Elements(t, es, q, Big), p, q);
    }
  }

  lemma StartsOutOfStep(p: nat, q: nat, a: Alignment)
    requires Half(p, q) && !Sync(p, q) && a != 8
    ensures Half(Start(p, a), Start(q, a)) && !Sync(Start(p, a), Start(q, a))
  {
    hide Gap, Half, Sync;
    SyncGap(p, q, 4);
    Plus(p, q, Gap(p, 4) + 4);
    SyncGap(AlignUp(p, 4) + 4, AlignUp(q, 4) + 4, a);
    Plus(AlignUp(p, 4) + 4, AlignUp(q, 4) + 4, Gap(AlignUp(p, 4) + 4, a));
  }

  lemma {:induction false} AllEndsAlike(ts: seq<Ty>, vs: seq<Val>, p: nat, q: nat)
    requires HaveTypes(vs, ts) && Half(p, q) && !Sync(p, q)
    ensures AnyWide(ts, vs) ==> Sync(p + |DirectAll(ts, vs, p, Big)|, q + |DirectAll(ts, vs, q, Big)|)
    ensures !AnyWide(ts, vs) ==> DirectAll(ts, vs, p, Big) == DirectAll(ts, vs, q, Big)
    decreases vs, 1
  {
    hide Half, Sync, Direct, DirectAll, Wide, HasType;
    if vs == [] {
      DirectAllNone(ts, p, Big);
      DirectAllNone(ts, q, Big);
    } else {
      DirectAllByHead(ts, vs, p, Big);
      DirectAllByHead(ts, vs, q, Big);
      EndsAlike(ts[0], vs[0], p, q);
      var m, n := |Direct(ts[0], vs[0], p, Big)|, |Direct(ts[0], vs[0], q, Big)|;
      if Wide(ts[0], vs[0]) {
        DirectAllAlike(ts[1..], vs[1..], p + m, q + n);
        Plus(p + m, q + n, |DirectAll(ts[1..], vs[1..], q + n, Big)|);
      } else {
        Plus(p, q, m);
        AllEndsAlike(ts[1..], vs[1..], p + m, q + n);
      }
    }
  }

  lemma ArrayWritten(t: Ty, es: seq<Val>, off: nat, inner: seq<byte>)
    requires t.Arr? && HasType(List(es), t) && Write(t, List(es), off).Some? && HaveTypes(es, Repeat(t.elem, |es|))
    requires WriteAll(Repeat(t.elem, |es|), es, 0) == Some(inner)
    ensures Write(t, List(es), off).value == Arrayed(HeadAlign(t.elem), inner, off, Big)
  {
    hide Write, WriteAll, DirectAll, Arrayed, HeadAlign, HaveTypes, ElemAlign;
    ArrayForms(t, es, off, Big);
    ElemAlignIff(t.elem);
  }

  lemma EqualArrayedIff(a: Alignment, inner: seq<byte>, there: seq<byte>, off: nat)
    ensures Arrayed(a, inner, off, Big) == Arrayed(a, there, off, Big) <==> inner == there
  {
    hide Gap, Fixed;
    if Arrayed(a, inner, off, Big) == Arrayed(a, there, off, Big) {
      ArrayedEnd(a, inner, off);
      ArrayedEnd(a, there, off);
      var first := Encode(UInt32(|inner| % TWO32), off, Big) + Pad(AlignUp(off, 4) + 4, a);
      assert Arrayed(a, inner, off, Big) == first + inner && Arrayed(a, there, off, Big) == first + there;
      Cancel(first, inner, first, there);
    }
  }

  lemma ContentsAlikeIff(ts: seq<Ty>, vs: seq<Val>, start: nat)
    requires HaveTypes(vs, ts) && Half(0, start)
    ensures DirectAll(ts, vs, 0, Big) == DirectAll(ts, vs, start, Big) <==> start % 8 == 0 || !AnyWide(ts, vs)
  {
    hide DirectAll, AnyWide, HaveTypes;
    if start % 8 == 0 {
      DirectAllAlike(ts, vs, 0, start);
    } else {
      AllEndsAlike(ts, vs, 0, start);
      Plus(0, start, |DirectAll(ts, vs, start, Big)|);
    }
  }

  /** An array whose contents come out right in their own buffer comes out right in the message if
      and only if its elements start at a multiple of 8 there, or none has anything 8-aligned. */
  lemma ArrayIsDirectIff(t: Ty, es: seq<Val>, off: nat)
    requires t.Arr? && HasType(List(es), t) && Write(t, List(es), off).Some? && HaveTypes(es, Repeat(t.elem, |es|))
    requires WriteAll(Repeat(t.elem, |es|), es, 0) == Some(DirectAll(Repeat(t.elem, |es|), es, 0, Big))
    ensures Write(t, List(es), off).value == Direct(t, List(es), off, Big)
       <==> Start(off, HeadAlign(t.elem)) % 8 == 0 || !AnyWide(Repeat(t.elem, |es|), es)
  {
    hide Write, WriteAll, Direct, DirectAll, AnyWide, Arrayed, Start, HeadAlign, HaveTypes, Elements;
    var a, ts := HeadAlign(t.elem), Repeat(t.elem, |es|);
    NestedList(t, es, off);
    ArrayWritten(t, es, off, DirectAll(ts, es, 0, Big));
    EqualArrayedIff(a, DirectAll(ts, es, 0, Big), Elements(t, es, off, Big), off);
    StartIsMultiple(off, a);
    ContentsAlikeIff(ts, es, Start(off, a));
  }

  // ----- types for which no offset matters -----

  /** Every array's element alignment is at least that of everything inside the element. */
  predicate Settled(t: Ty) {
    match t
    case Leaf(_) => true
    case Arr(e) => HeadAlign(e) >= Inside(e) && Settled(e)
    case Group(_, ms) => AllSettled(ms)
  }

  predicate AllSettled(ts: seq<Ty>) {
    ts != [] ==> Settled(ts[0]) && AllSettled(ts[1..])
  }

  lemma {:induction false} RepeatSettled(t: Ty, n: nat)
    requires Settled(t)
    ensures AllSettled(Repeat(t, n))
  {
    if n > 0 { RepeatSettled(t, n - 1); RepeatTail(t, n); }
  }

  lemma {:induction false} SettledAgrees(t: Ty, v: Val, p: nat, q: nat)
    requires HasType(v, t) && Settled(t) && Half(p, q) && (Sync(p, q) || Inside(t) <= 4)
    ensures Agrees(t, v, p, q)
    decreases v, 0
  {
    hide Half, Sync, Start, AlignUp, AllAgree, HeadAlign, HaveTypes, Align;
    InsideCovers(t, v);
    match v
    case Base(_) =>
    case Var(_) =>
    case Tuple(ms) =>
      UpToEight(q, q);
      SyncIsHalf(0, AlignUp(q, 8));
      AllSettledAgree(t.members, ms, 0, AlignUp(q, 8));
    case List(es) =>
      var a := HeadAlign(t.elem);
      HeadIsInside(t.elem);
      StartIsMultiple(q, a);
      RepeatSettled(t.elem, |es|);
      if a != 8 { RepeatInside(t.elem, |es|, 4); }
      AllSettledAgree(Repeat(t.elem, |es|), es, 0, Start(q, a));
  }

  lemma {:induction false} AllSettledAgree(ts: seq<Ty>, vs: seq<Val>, p: nat, q: nat)
    requires HaveTypes(vs, ts) && AllSettled(ts) && Half(p, q) && (Sync(p, q) || AllInside(ts, 4))
    ensures AllAgree(ts, vs, p, q)
    decreases vs, 1
  {
    hide Half, Sync, Direct, Agrees, Settled, HasType, Inside;
    if vs != [] {
      SettledAgrees(ts[0], vs[0], p, q);
      var n := |Direct(ts[0], vs[0], q, Big)|;
      Plus(p, q, n);
      AllSettledAgree(ts[1..], vs[1..], p + n, q + n);
    }
  }

  /** In particular, types whose array elements are aligned at least as much as what they contain
      come out as the format has them at every offset. */
  lemma NestedIsDirect(t: Ty, v: Val, off: nat)
    requires HasType(v, t) && Settled(t)
    ensures Write(t, v, off).Some? ==> Write(t, v, off).value == Direct(t, v, off, Big)
  {
    hide Write, Writable, Nested, Direct, Settled, Agrees;
    WriteIff(t, v, off);
    SettledAgrees(t, v, off, off);
    AgreesIsDirect(t, v, off, off);
  }

  // ----- an array of arrays -----

  lemma StartOfArray(off: nat)
    requires off % 4 == 0
    ensures Start(off, 1) == off + 4 && Start(off, 2) == off + 4 && Start(off, 4) == off + 4
    ensures Start(off, 8) == if off % 8 == 0 then off + 8 else off + 4
  {
    hide Gap, AlignUp;
    AlignedByFour(off);
    SmallGap(off + 4, 1);
    SmallGap(off + 4, 2);
    SmallGap(off + 4, 4);
    HalfWay(off);
    NextEight(off + 4);
  }

  lemma AlignedByFour(off: nat)
    requires off % 4 == 0
    ensures AlignUp(off, 4) == off && (off + 4) % 4 == 0
  {
  }

  lemma HalfWay(off: nat)
    requires off % 4 == 0
    ensures (off + 4) % 8 == if off % 8 == 0 then 4 else 0
  {
    LowBits(off);
    SumOfEights(off, 4);
  }

  lemma NextEight(n: nat)
    ensures n % 8 == 0 ==> AlignUp(n, 8) == n
    ensures n % 8 == 4 ==> AlignUp(n, 8) == n + 4
  {
  }

  lemma ListOfOne(e: Ty, v: Val, off: nat)
    requires HasType(v, e) && SignatureGrammar.Fits([e], false, MAX_OPEN)
    requires Write(e, v, 0).Some? && |Write(e, v, 0).value| <= MAX_ARRAY
    ensures HasType(List([v]), SignatureGrammar.Arr(e))
    ensures var lead, a := Start(off, HeadAlign(e)) - off, SignatureGrammar.Arr(e);
            && |Direct(a, List([v]), off, Big)| == lead + |Direct(e, v, off + lead, Big)|
            && Write(a, List([v]), off).Some? && |Write(a, List([v]), off).value| == lead + |Write(e, v, 0).value|
  {
    hide Write, Direct, ElemAlign, HeadAlign, Raw, SignatureGrammar.Fits, Gap, DirectAll, WriteAll, Repeat, HaveTypes;
    var t := SignatureGrammar.Arr(e);
    OneElement(e, v, Start(off, HeadAlign(e)));
    ArrayForms(t, [v], off, Big);
    ElemAlignFound(e);
    LengthEncoded(|Write(e, v, 0).value|, off, Big);
    LengthEncoded(|Direct(e, v, Start(off, HeadAlign(e)), Big)| % TWO32, off, Big);
  }

  lemma OneElement(e: Ty, v: Val, off: nat)
    requires HasType(v, e) && Write(e, v, 0).Some?
    ensures HaveTypes([v], Repeat(e, 1))
    ensures WriteAll(Repeat(e, 1), [v], 0) == Write(e, v, 0)
    ensures DirectAll(Repeat(e, 1), [v], off, Big) == Direct(e, v, off, Big)
  {
    hide Write, Direct;
    var one := Repeat(e, 1);
    RepeatTail(e, 1);
    assert [v][1..] == [] && one[1..] == [];
    assert HaveTypes([v][1..], one[1..]);
    var w, d := Write(e, v, 0).value, Direct(e, v, off, Big);
    assert WriteAll(one, [v], 0) == Some(w + []) && w + [] == w;
    assert DirectAll(one, [v], off, Big) == d + [] == d;
  }

  /** Lengths of an array of one element, by the lengths of the element. */
  lemma OneLength(e: Ty, v: Val, off: nat, lead: nat, direct: nat, written: nat)
    requires HasType(v, e) && SignatureGrammar.Fits([e], false, MAX_OPEN)
    requires Write(e, v, 0).Some? && |Write(e, v, 0).value| == written && written <= MAX_ARRAY
    requires off + lead == Start(off, HeadAlign(e)) && |Direct(e, v, off + lead, Big)| == direct
    ensures HasType(List([v]), SignatureGrammar.Arr(e))
    ensures |Direct(SignatureGrammar.Arr(e), List([v]), off, Big)| == lead + direct
    ensures Write(SignatureGrammar.Arr(e), List([v]), off).Some?
    ensures |Write(SignatureGrammar.Arr(e), List([v]), off).value| == lead + written
  {
    hide *;
    ListOfOne(e, v, off);
  }

  lemma LongLengths(x: int64, t: Ty)
    requires t == SignatureGrammar.Leaf(INT64)
    ensures HasType(Base(Int64(x)), t) && HeadAlign(t) == 8
    ensures Write(t, Base(Int64(x)), 0).Some? && |Write(t, Base(Int64(x)), 0).value| == 8
    ensures |Direct(t, Base(Int64(x)), 8, Big)| == 8
  {
    hide Fixed, Pattern;
  }

  lemma LongsFit()
    ensures var t := SignatureGrammar.Leaf(INT64);
            SignatureGrammar.Fits([t], false, MAX_OPEN) && SignatureGrammar.Fits([SignatureGrammar.Arr(t)], false, MAX_OPEN)
  {
  }

  lemma ArraysOfLongs(long: Ty)
    requires long == SignatureGrammar.Leaf(INT64)
    ensures HeadAlign(SignatureGrammar.Arr(long)) == 4 && !Settled(SignatureGrammar.Arr(SignatureGrammar.Arr(long)))
  {
    assert Inside(long) == 8;
    assert SignatureGrammar.Tree(SignatureGrammar.Arr(long)).dt == ARRAY;
  }

  /** The place decides for arrays of arrays of 64-bit integers: a non-empty one comes out right
      exactly when its elements start at a multiple of 8 in the message. */
  lemma ArrayOfArraysIff(t: Ty, es: seq<Val>, off: nat)
    requires t == SignatureGrammar.Arr(SignatureGrammar.Arr(SignatureGrammar.Leaf(INT64)))
    requires HasType(List(es), t) && Write(t, List(es), off).Some?
    ensures Write(t, List(es), off).value == Direct(t, List(es), off, Big) <==> es == [] || Start(off, 4) % 8 == 0
  {
    hide *;
    var ts := Repeat(t.elem, |es|);
    ArraysInside(t, es, off);
    RepeatSettled(t.elem, |es|);
    WriteAllIff(ts, es, 0);
    AllSettledAgree(ts, es, 0, 0);
    AllAgreeIsDirect(ts, es, 0, 0);
    ArrayIsDirectIff(t, es, off);
    AnyArray(t.elem, es);
  }

  lemma ArraysInside(t: Ty, es: seq<Val>, off: nat)
    requires t == SignatureGrammar.Arr(SignatureGrammar.Arr(SignatureGrammar.Leaf(INT64)))
    requires HasType(List(es), t) && Write(t, List(es), off).Some?
    ensures t.Arr? && Settled(t.elem) && HeadAlign(t.elem) == 4
    ensures Sync(0, 0) && Half(0, 0)
    ensures HaveTypes(es, Repeat(t.elem, |es|)) && WriteAll(Repeat(t.elem, |es|), es, 0).Some?
  {
    hide WriteAll, Direct, DirectAll, Lengthened, ElemAlign;
  }

  lemma AnyArray(t: Ty, es: seq<Val>)
    requires t == SignatureGrammar.Arr(SignatureGrammar.Leaf(INT64)) && HaveTypes(es, Repeat(t, |es|))
    ensures AnyWide(Repeat(t, |es|), es) <==> es != []
  {
    assert HeadAlign(t.elem) == 8;
    if es != [] { RepeatTail(t, |es|); }
  }

  /** For instance at offset 0, with one integer: four octets longer than the format has it. */
  lemma ArrayOfArraysDiffers(x: int64)
    ensures var t := SignatureGrammar.Arr(SignatureGrammar.Arr(SignatureGrammar.Leaf(INT64)));
            var v := List([List([Base(Int64(x))])]);
            && HasType(v, t) && !Settled(t)
            && Write(t, v, 0).Some? && |Write(t, v, 0).value| == 20 && |Direct(t, v, 0, Big)| == 16
  {
    hide Write, Direct, SignatureGrammar.Fits, HasType, Settled, HeadAlign, Start;
    var long := SignatureGrammar.Leaf(INT64);
    LongLengths(x, long);
    LongsFit();
    ArraysOfLongs(long);
    StartOfArray(0);
    StartOfArray(4);
    OneLength(long, Base(Int64(x)), 0, 8, 8, 8);
    OneLength(long, Base(Int64(x)), 4, 4, 8, 8);
    OneLength(SignatureGrammar.Arr(long), List([Base(Int64(x))]), 0, 4, 12, 16);
  }
}
