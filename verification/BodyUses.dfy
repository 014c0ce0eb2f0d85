/** Where the gates of the array loop are open by themselves, and bodies as they travel inside
    messages. */
module BodyUses {
  import opened Bytes
  import opened Types
  import opened Codec
  import opened Variants
  import opened Signatures
  import opened Messages
  import opened MessageFormat
  import opened Bodies
  import opened Layouts
  import opened ArrayLayouts
  import opened Appending
  import opened Reading
  import opened BodyRoundTrip
  import opened OpenArrays
  import SignatureGrammar

  // ----- arrays at offsets that are multiples of 4 -----

  /** A type without arrays inside. */
  predicate Plain(t: Ty) {
    match t case Leaf(_) => true case Arr(_) => false case Group(_, ms) => AllPlain(ms)
  }

  predicate AllPlain(ts: seq<Ty>) {
    ts != [] ==> Plain(ts[0]) && AllPlain(ts[1..])
  }

  /** The fewest octets a value of a type takes, padding aside. */
  function MinSize(t: Ty): nat {
    match t
    case Leaf(dt) =>
      if dt == VARIANT then 4 else if dt == SIGNATURE then 2
      else if dt == STRING || dt == OBJECT_PATH then 5 else Width(dt)
    case Arr(_) => 4
    case Group(_, ms) => MinSizes(ms)
  }

  function MinSizes(ts: seq<Ty>): nat {
    if ts == [] then 0 else MinSize(ts[0]) + MinSizes(ts[1..])
  }

  /** Elements that take at least as many octets as can stand before them in their array: the
      four of the length, and four more of padding when they are 8-aligned. */
  predicate Roomy(e: Ty) { MinSize(e) >= if HeadAlign(e) == 8 then 8 else 4 }

  /** Every array stands at a multiple of 4, has roomy elements without arrays inside, and is not
      an empty array of 8-aligned elements. */
  predicate Friendly(t: Ty, v: Val, off: nat, en: Endianess)
    requires HasType(v, t)
    decreases v, 0
  {
    match v
    case Base(_) => true
    case Var(_) => true
    case Tuple(ms) => AllFriendly(t.members, ms, AlignUp(off, 8), en)
    case List(es) => off % 4 == 0 && Plain(t.elem) && Roomy(t.elem) && (es != [] || HeadAlign(t.elem) != 8)
  }

  predicate AllFriendly(ts: seq<Ty>, vs: seq<Val>, off: nat, en: Endianess)
    requires HaveTypes(vs, ts)
    decreases vs, 1
  {
    vs != [] ==>
      Friendly(ts[0], vs[0], off, en) && AllFriendly(ts[1..], vs[1..], off + |Direct(ts[0], vs[0], off, en)|, en)
  }

  lemma {:induction false} SizeAtLeast(t: Ty, v: Val, off: nat, en: Endianess)
    requires HasType(v, t) && Carried(v)
    ensures |Direct(t, v, off, en)| >= MinSize(t)
    decreases v, 0
  {
    hide Gap, AlignUp, Fixed, DirectAll, HaveTypes, AllCarried, Code;
    match v
    case Base(b) => BaseSize(b, en);
    case Var(w) => BaseSize(w.value, en);
    case Tuple(ms) => SizesAtLeast(t.members, ms, AlignUp(off, 8), en);
    case List(_) =>
  }

  lemma BaseSize(b: Value, en: Endianess)
    ensures |Raw(b, en)| >= 1
    ensures |Raw(b, en)| >= if b.Sig? then 2 else if IsText(b) then 5 else Width(TypeOf(b))
  {
    hide Fixed;
  }

  lemma {:induction false} SizesAtLeast(ts: seq<Ty>, vs: seq<Val>, off: nat, en: Endianess)
    requires HaveTypes(vs, ts) && AllCarried(vs)
    ensures |DirectAll(ts, vs, off, en)| >= MinSizes(ts)
    decreases vs, 1
  {
    hide Direct, MinSize, Carried, HasType;
    if vs != [] {
      SizeAtLeast(ts[0], vs[0], off, en);
      SizesAtLeast(ts[1..], vs[1..], off + |Direct(ts[0], vs[0], off, en)|, en);
    }
  }

  lemma {:induction false} PlainIsGated(t: Ty, v: Val, off: nat, en: Endianess)
    requires HasType(v, t) && Plain(t)
    ensures Gated(t, v, off, en)
    decreases v, 0
  {
    match v
    case Base(_) =>
    case Var(_) =>
    case Tuple(ms) => AllPlainGated(t.members, ms, AlignUp(off, 8), en);
  }

  lemma {:induction false} AllPlainGated(ts: seq<Ty>, vs: seq<Val>, off: nat, en: Endianess)
    requires HaveTypes(vs, ts) && AllPlain(ts)
    ensures AllGated(ts, vs, off, en)
    decreases vs, 1
  {
    hide Direct;
    if vs != [] {
      PlainIsGated(ts[0], vs[0], off, en);
      AllPlainGated(ts[1..], vs[1..], off + |Direct(ts[0], vs[0], off, en)|, en);
    }
  }

  lemma {:induction false} RepeatPlain(e: Ty, n: nat)
    requires Plain(e)
    ensures AllPlain(Repeat(e, n))
  {
    if n > 0 { RepeatPlain(e, n - 1); RepeatTail(e, n); }
  }

  lemma {:induction false} RoomyInTime(e: Ty, es: seq<Val>, pos: nat, last: nat, lead: nat, en: Endianess)
    requires HaveTypes(es, Repeat(e, |es|)) && AllCarried(es)
    requires 0 < lead <= MinSize(e)
    requires pos + |DirectAll(Repeat(e, |es|), es, pos, en)| <= last + lead
    ensures InTime(e, es, pos, last, en)
    decreases es
  {
    hide Direct, MinSize, Carried, HasType, DirectAll, Repeat;
    if es != [] {
      RepeatTail(e, |es|);
      DirectAllByHead(Repeat(e, |es|), es, pos, en);
      SizeAtLeast(e, es[0], pos, en);
      RoomyInTime(e, es[1..], pos + |Direct(e, es[0], pos, en)|, last, lead, en);
    }
  }

  lemma FriendlyGate(t: Ty, es: seq<Val>, off: nat, en: Endianess)
    requires t.Arr? && HasType(List(es), t) && AllCarried(es) && Friendly(t, List(es), off, en)
    ensures Gate(t, es, off, en)
  {
    hide *;
    FriendlyParts(t, es, off, en);
    var p, a := off + 4, HeadAlign(t.elem);
    StartIsNear(off, a);
    if es != [] {
      var n := |Elements(t, es, off, en)|;
      GateOfFull(t, es, off, en);
      ElementsFromLength(t, es, off, en);
      PadMoves(p, a, n);
      RoomyInTime(t.elem, es, p, off + n, if a == 8 then 8 else 4, en);
    }
  }

  lemma FriendlyParts(t: Ty, es: seq<Val>, off: nat, en: Endianess)
    requires t.Arr? && HasType(List(es), t) && Friendly(t, List(es), off, en)
    ensures off % 4 == 0 && MinSize(t.elem) >= (if HeadAlign(t.elem) == 8 then 8 else 4)
    ensures es == [] ==> HeadAlign(t.elem) != 8 && (Start(off, HeadAlign(t.elem)) == off + 4 ==> Gate(t, es, off, en))
    ensures HaveTypes(es, Repeat(t.elem, |es|))
    ensures AlignUp(off, 4) == off
  {
    hide MinSize, HeadAlign, HaveTypes;
    AlignedIs(off);
  }

  lemma StartIsNear(off: nat, a: Alignment)
    requires off % 4 == 0
    ensures AlignUp(off + 4, a) <= off + 4 + (if a == 8 then 4 else 0)
    ensures a != 8 ==> Start(off, a) == off + 4
  {
    hide Gap;
    StartOfArray(off);
    AlignedIs(off);
  }

  lemma AlignedIs(off: nat)
    requires off % 4 == 0
    ensures AlignUp(off, 4) == off
  {
  }

  lemma {:induction false} FriendlyIsGated(t: Ty, v: Val, off: nat, en: Endianess)
    requires HasType(v, t) && Carried(v) && Friendly(t, v, off, en)
    ensures Gated(t, v, off, en)
    decreases v, 0
  {
    hide Gap, Gate, AlignUp, HaveTypes, Plain;
    match v
    case Base(_) =>
    case Var(_) =>
    case Tuple(ms) => AllFriendlyGated(t.members, ms, AlignUp(off, 8), en);
    case List(es) =>
      FriendlyGate(t, es, off, en);
      RepeatPlain(t.elem, |es|);
      AllPlainGated(Repeat(t.elem, |es|), es, AlignUp(off, 4) + 4, en);
  }

  lemma {:induction false} AllFriendlyGated(ts: seq<Ty>, vs: seq<Val>, off: nat, en: Endianess)
    requires HaveTypes(vs, ts) && AllCarried(vs) && AllFriendly(ts, vs, off, en)
    ensures AllGated(ts, vs, off, en)
    decreases vs, 1
  {
    hide Direct, Friendly, Gated, Carried, HasType;
    if vs != [] {
      FriendlyIsGated(ts[0], vs[0], off, en);
      AllFriendlyGated(ts[1..], vs[1..], off + |Direct(ts[0], vs[0], off, en)|, en);
    }
  }

  // ----- whole bodies -----

  /** A body that any peer wrote in the D-Bus format, in either byte order, is read back under its
      signature and to its end. */
  lemma FormatReadsBack(ts: seq<Ty>, vs: seq<Val>, en: Endianess)
    requires HaveTypes(vs, ts) && AllCarried(vs) && AllShaped(ts) && AllGated(ts, vs, 0, en)
    requires SignatureGrammar.Fits(ts, false, MAX_OPEN) && |DirectAll(ts, vs, 0, en)| < TWO32
    ensures var body := DirectAll(ts, vs, 0, en);
            ReadMembers(Parse(SignatureGrammar.Texts(ts)).nodes, body, 0, en) == Parsed(vs, |body|)
  {
    hide Parse, DirectAll, ReadMembers, AllCarried, AllShaped, AllGated, SignatureGrammar.Fits;
    SignatureGrammar.ParsesExactly(ts);
    Whole(DirectAll(ts, vs, 0, en));
    MembersReadBack(ts, vs, DirectAll(ts, vs, 0, en), 0, en);
  }

  /** Without empty arrays of 8-aligned elements, that is exact: the reader gets the values if and
      only if every array passes its gate, and then reads to the end of the body. */
  lemma FormatReadsBackIff(ts: seq<Ty>, vs: seq<Val>, en: Endianess)
    requires HaveTypes(vs, ts) && AllCarried(vs) && AllShaped(ts) && AllGapless(ts, vs)
    requires SignatureGrammar.Fits(ts, false, MAX_OPEN) && |DirectAll(ts, vs, 0, en)| < TWO32
    ensures var body := DirectAll(ts, vs, 0, en);
            var r := ReadMembers(Parse(SignatureGrammar.Texts(ts)).nodes, body, 0, en);
            (Gives(r, vs) <==> AllGated(ts, vs, 0, en)) && (Gives(r, vs) ==> r.pos == |body|)
  {
    hide Parse, DirectAll, ReadMembers, AllCarried, AllShaped, AllGated, AllGapless, SignatureGrammar.Fits;
    SignatureGrammar.ParsesExactly(ts);
    Whole(DirectAll(ts, vs, 0, en));
    MembersReadBackIff(ts, vs, DirectAll(ts, vs, 0, en), 0, en);
  }

  /** Body round trip: what the append iterator writes, the message iterator reads back
      unchanged, and every array loop stops after exactly the written elements. */
  lemma WrittenReadsBack(ts: seq<Ty>, vs: seq<Val>)
    requires HaveTypes(vs, ts) && AllCarried(vs) && AllShaped(ts) && AllGated(ts, vs, 0, Big)
    requires SignatureGrammar.Fits(ts, false, MAX_OPEN)
    requires AllWritable(ts, vs) && AllAgree(ts, vs, 0, 0) && |NestedAll(ts, vs, 0)| < TWO32
    ensures WriteAll(ts, vs, 0).Some?
    ensures var body := WriteAll(ts, vs, 0).value;
            ReadMembers(Parse(SignatureGrammar.Texts(ts)).nodes, body, 0, Big) == Parsed(vs, |body|)
  {
    hide Parse, DirectAll, NestedAll, WriteAll, ReadMembers, AllCarried, AllShaped, AllGated, AllWritable, AllAgree,
         SignatureGrammar.Fits;
    WriteAllIff(ts, vs, 0);
    BodyIsDirectIff(ts, vs);
    FormatReadsBack(ts, vs, Big);
  }

  /** In particular for basic values, variants, structs of these, and arrays of roomy elements
      at multiples of 4. */
  lemma FriendlyReadsBack(ts: seq<Ty>, vs: seq<Val>)
    requires HaveTypes(vs, ts) && AllCarried(vs) && AllShaped(ts) && AllFriendly(ts, vs, 0, Big)
    requires SignatureGrammar.Fits(ts, false, MAX_OPEN)
    requires AllWritable(ts, vs) && AllAgree(ts, vs, 0, 0) && |NestedAll(ts, vs, 0)| < TWO32
    ensures WriteAll(ts, vs, 0).Some?
    ensures var body := WriteAll(ts, vs, 0).value;
            ReadMembers(Parse(SignatureGrammar.Texts(ts)).nodes, body, 0, Big) == Parsed(vs, |body|)
  {
    hide *;
    AllFriendlyGated(ts, vs, 0, Big);
    WrittenReadsBack(ts, vs);
  }

  /** The element types this covers: every basic type of four octets or more, and dictionaries
      with string keys. */
  predicate Covered(e: Ty) { Roomy(e) && Plain(e) && Settled(SignatureGrammar.Arr(e)) && Shaped(SignatureGrammar.Arr(e)) }

  lemma BasicsAreCovered(dt: SignatureGrammar.LeafType)
    requires dt != BYTE && dt != INT16 && dt != UINT16 && dt != SIGNATURE && dt != VARIANT && dt != UNIX_FD
    ensures Covered(SignatureGrammar.Leaf(dt))
  {
  }

  lemma DictionariesAreCovered(key: Ty, data: Ty)
    requires key.Leaf? && key.dt == STRING
    requires data.Leaf? && (data.dt == STRING || data.dt == VARIANT)
    ensures Covered(SignatureGrammar.Group(true, [key, data]))
  {
    var ms := [key, data];
    OneOf(data);
    assert ms[1..] == [data];
    assert MinSizes(ms) == MinSize(key) + MinSizes(ms[1..]);
    assert AllPlain(ms) && AllSettled(ms) && AllShaped(ms);
  }

  lemma OneOf(t: Ty)
    requires t.Leaf?
    ensures MinSizes([t]) == MinSize(t) && AllPlain([t]) && AllSettled([t]) && AllShaped([t])
  {
    assert [t][1..] == [];
    assert MinSizes([]) == 0 && AllPlain([]) && AllSettled([]) && AllShaped([]);
  }

  /** Basic types, variants, structs of these, and arrays of covered elements. */
  predicate Fragment(t: Ty) {
    match t
    case Leaf(_) => true
    case Arr(e) => Covered(e)
    case Group(dict, ms) => !dict && AllFragment(ms)
  }

  predicate AllFragment(ts: seq<Ty>) {
    ts != [] ==> Fragment(ts[0]) && AllFragment(ts[1..])
  }

  /** Every array stands at a multiple of 4, and is not an empty array of 8-aligned elements. */
  predicate InPlace(t: Ty, v: Val, off: nat, en: Endianess)
    requires HasType(v, t)
    decreases v, 0
  {
    match v
    case Base(_) => true
    case Var(_) => true
    case Tuple(ms) => AllInPlace(t.members, ms, AlignUp(off, 8), en)
    case List(es) => off % 4 == 0 && (es != [] || HeadAlign(t.elem) != 8)
  }

  predicate AllInPlace(ts: seq<Ty>, vs: seq<Val>, off: nat, en: Endianess)
    requires HaveTypes(vs, ts)
    decreases vs, 1
  {
    vs != [] ==>
      InPlace(ts[0], vs[0], off, en) && AllInPlace(ts[1..], vs[1..], off + |Direct(ts[0], vs[0], off, en)|, en)
  }

  lemma {:induction false} FragmentForms(t: Ty)
    requires Fragment(t)
    ensures Settled(t) && Shaped(t)
  {
    if t.Group? { AllFragmentForms(t.members); }
  }

  lemma {:induction false} AllFragmentForms(ts: seq<Ty>)
    requires AllFragment(ts)
    ensures AllSettled(ts) && AllShaped(ts)
  {
    if ts != [] {
      FragmentForms(ts[0]);
      AllFragmentForms(ts[1..]);
    }
  }

  lemma {:induction false} FragmentIsFriendly(t: Ty, v: Val, off: nat, en: Endianess)
    requires HasType(v, t) && Fragment(t) && InPlace(t, v, off, en)
    ensures Friendly(t, v, off, en)
    decreases v, 0
  {
    hide AlignUp, HeadAlign, Plain, Roomy, Settled, Shaped, HaveTypes;
    match v
    case Base(_) =>
    case Var(_) =>
    case Tuple(ms) => AllFragmentFriendly(t.members, ms, AlignUp(off, 8), en);
    case List(_) =>
  }

  lemma {:induction false} AllFragmentFriendly(ts: seq<Ty>, vs: seq<Val>, off: nat, en: Endianess)
    requires HaveTypes(vs, ts) && AllFragment(ts) && AllInPlace(ts, vs, off, en)
    ensures AllFriendly(ts, vs, off, en)
    decreases vs, 1
  {
    hide Direct, Friendly, Fragment, InPlace, HasType;
    if vs != [] {
      FragmentIsFriendly(ts[0], vs[0], off, en);
      AllFragmentFriendly(ts[1..], vs[1..], off + |Direct(ts[0], vs[0], off, en)|, en);
    }
  }

  /** So for types of the fragment only the places of the arrays matter: writable values are
      appended and read back unchanged, to the last octet. */
  lemma FragmentReadsBack(ts: seq<Ty>, vs: seq<Val>)
    requires HaveTypes(vs, ts) && AllCarried(vs) && AllFragment(ts) && AllInPlace(ts, vs, 0, Big)
    requires SignatureGrammar.Fits(ts, false, MAX_OPEN)
    requires AllWritable(ts, vs) && |NestedAll(ts, vs, 0)| < TWO32
    ensures WriteAll(ts, vs, 0).Some?
    ensures var body := WriteAll(ts, vs, 0).value;
            ReadMembers(Parse(SignatureGrammar.Texts(ts)).nodes, body, 0, Big) == Parsed(vs, |body|)
  {
    hide *;
    AllFragmentForms(ts);
    SameOffset(0);
    AllSettledAgree(ts, vs, 0, 0);
    AllFragmentFriendly(ts, vs, 0, Big);
    FriendlyReadsBack(ts, vs);
  }

  lemma SameOffset(off: nat)
    ensures Half(off, off) && Sync(off, off)
  {
  }

  // ----- where the signature gets in the way -----

  const BOOLEANS_THEN_INT := "abi"

  lemma BooleansInner()
    ensures Create(BOOLEANS_THEN_INT, 1, [ARRAY_C], true)
         == Frame([Node(BOOLEAN, []), Node(INT32, [])], 3, [ARRAY_C], true)
  {
    var s, st, b := BOOLEANS_THEN_INT, [ARRAY_C], [Node(BOOLEAN, [])];
    assert s[1] == 'b' && s[2] == 'i' && |s| == 3;
    assert [] + b == b;
    assert Loop(s, 2, st, b, true) == Frame(b + [Node(INT32, [])], 3, st, true);
    assert Loop(s, 1, st, [], true) == Advance(s, 1, 1, st, b, true);
  }

  lemma {:induction false} OneEach(ns: seq<Node>, data: seq<byte>, pos: nat, en: Endianess)
    ensures ReadMembers(ns, data, pos, en).Parsed? ==> |ReadMembers(ns, data, pos, en).value| == |ns|
  {
    hide ReadNode;
    if ns != [] {
      var r := ReadNode(ns[0], data, pos, en);
      if r.Parsed? { OneEach(ns[1..], data, r.pos, en); }
    }
  }

  /** Under any valid signature the reader gets one value for each type, whatever the body, if and only
      if no array before the last type has booleans, doubles or variants innermost: such an array
      takes the types after it, and fewer values are read. */
  lemma OpenArraysTakeTheRest(ts: seq<Ty>, data: seq<byte>, en: Endianess)
    requires Valid(SignatureGrammar.Texts(ts))
    ensures var r := ReadMembers(Parse(SignatureGrammar.Texts(ts)).nodes, data, 0, en);
            r.Parsed? ==> |r.value| == NodeCount(ts) <= |ts| && (|r.value| == |ts| <==> NoneOpen(ts))
  {
    hide *;
    NodesOfValid(ts);
    CountIff(ts);
    OneEach(Parse(SignatureGrammar.Texts(ts)).nodes, data, 0, en);
  }

  /** For instance, an array of booleans takes the types after it into itself, so the value after it is lost:
      the signature has one node, and reading under it gives one value, whatever the body. */
  lemma BooleansTakeTheRest(data: seq<byte>, en: Endianess)
    ensures Valid(BOOLEANS_THEN_INT)
    ensures Parse(BOOLEANS_THEN_INT).nodes == [Node(ARRAY, [Node(BOOLEAN, []), Node(INT32, [])])]
    ensures var r := ReadMembers(Parse(BOOLEANS_THEN_INT).nodes, data, 0, en); r.Parsed? ==> |r.value| == 1
  {
    hide *;
    BooleansParsed();
    OneEach(Parse(BOOLEANS_THEN_INT).nodes, data, 0, en);
  }

  lemma BooleansParsed()
    ensures Valid(BOOLEANS_THEN_INT)
    ensures Parse(BOOLEANS_THEN_INT).nodes == [Node(ARRAY, [Node(BOOLEAN, []), Node(INT32, [])])]
  {
    hide Loop, AfterContainer;
    var s, sub := BOOLEANS_THEN_INT, [Node(BOOLEAN, []), Node(INT32, [])];
    assert s[0] == 'a' && |s| == 3;
    SignatureGrammar.LoopAtArray(s, 0, [], [], true);
    assert [ARRAY_C] == [] + [ARRAY_C];
    BooleansInner();
    BooleansEnd(s, sub);
  }

  lemma BooleansEnd(s: string, sub: seq<Node>)
    requires |s| == 3 && sub != []
    ensures AfterContainer(s, 0, [], ARRAY_C, [] + [Node(ARRAY, sub)], Frame(sub, 3, [ARRAY_C], true))
         == Frame([Node(ARRAY, sub)], 3, [], true)
  {
    assert Pop([ARRAY_C]) == [];
  }

  // ----- from append to read -----

  predicate Ascii(s: string) { forall i :: 0 <= i < |s| ==> s[i] < 128 as char }

  lemma TextOfBytes(s: string)
    requires Ascii(s)
    ensures AsText(AsBytes(s)) == s
  {
  }

  lemma {:induction false} TextIsAscii(t: Ty)
    ensures Ascii(SignatureGrammar.Text(t))
  {
    match t
    case Leaf(_) =>
    case Arr(e) => TextIsAscii(e);
    case Group(_, ms) => TextsAreAscii(ms);
  }

  lemma {:induction false} TextsAreAscii(ts: seq<Ty>)
    ensures Ascii(SignatureGrammar.Texts(ts))
  {
    if ts != [] {
      TextIsAscii(ts[0]);
      TextsAreAscii(ts[1..]);
    }
  }

  /** One append to a message whose signature so far is `g`. */
  lemma SignatureGrows(h: Headers, t: Ty, v: Val, g: seq<byte>)
    requires Field(h, SIGNATURE_FIELD) == Basic(Sig(g)) || (Field(h, SIGNATURE_FIELD) == NoVariant && g == [])
    requires |g| < TWO8 && v != Var(NoVariant)
    ensures SignatureStep(h, t, v) == Some(h[SIGNATURE_FIELD := Basic(Sig(g + AsBytes(SignatureGrammar.Text(t))))])
  {
    hide SignatureGrammar.Text, AsBytes;
    var text := AsBytes(SignatureGrammar.Text(t));
    assert [] + text == text;
    if Field(h, SIGNATURE_FIELD) != NoVariant { assert |g| % 256 == |g| && g[..|g|] == g; }
  }

  lemma BytesOfBoth(s: string, t: string)
    ensures AsBytes(s + t) == AsBytes(s) + AsBytes(t)
  {
  }

  lemma CarriedHead(vs: seq<Val>)
    requires AllCarried(vs) && vs != []
    ensures vs[0] != Var(NoVariant) && AllCarried(vs[1..])
  {
  }

  lemma LastWins(h: Headers, a: Variant, b: Variant)
    ensures h[SIGNATURE_FIELD := a][SIGNATURE_FIELD := b] == h[SIGNATURE_FIELD := b]
  {
  }

  lemma KeepsField(h: Headers, g: seq<byte>)
    requires Field(h, SIGNATURE_FIELD) == Basic(Sig(g))
    ensures h[SIGNATURE_FIELD := Basic(Sig(g + AsBytes([])))] == h
  {
    assert AsBytes([]) == [] && g + [] == g;
  }

  /** Top-level appends to a message without a signature leave the text of all their types in it,
      as long as that is at most 255 octets. */
  lemma {:induction false} SignatureAccumulates(h: Headers, ts: seq<Ty>, vs: seq<Val>, g: seq<byte>)
    requires HaveTypes(vs, ts) && AllCarried(vs)
    requires Field(h, SIGNATURE_FIELD) == Basic(Sig(g)) || (Field(h, SIGNATURE_FIELD) == NoVariant && g == [] && ts != [])
    requires |g| + |SignatureGrammar.Texts(ts)| < TWO8
    ensures SignatureAfter(h, ts, vs) == Some(h[SIGNATURE_FIELD := Basic(Sig(g + AsBytes(SignatureGrammar.Texts(ts))))])
    decreases ts
  {
    hide SignatureAfter, SignatureStep, SignatureGrammar.Text, AsBytes, Carried, AllCarried, HasType;
    if ts == [] {
      SignatureEnds(h, ts);
      KeepsField(h, g);
    } else {
      var text, rest := SignatureGrammar.Text(ts[0]), SignatureGrammar.Texts(ts[1..]);
      var so := g + AsBytes(text);
      CarriedHead(vs);
      SignatureByHead(h, ts, vs);
      SignatureGrows(h, ts[0], vs[0], g);
      SignatureAccumulates(h[SIGNATURE_FIELD := Basic(Sig(so))], ts[1..], vs[1..], so);
      BytesOfBoth(text, rest);
      Associative(g, AsBytes(text), AsBytes(rest));
      LastWins(h, Basic(Sig(so)), Basic(Sig(so + AsBytes(rest))));
    }
  }

  lemma SignatureTaken(m: Msg, text: seq<byte>, body: seq<byte>)
    requires Harmless(m.headers, 0) && Field(m.headers, SIGNATURE_FIELD) == NoVariant
    requires ShortSignatures(m.headers) && FdsMatch(m) && |text| < TWO8
    ensures var h := m.headers[SIGNATURE_FIELD := Basic(Sig(text))];
            Harmless(h, 0) && ShortSignatures(h) && FdsMatch(m.(headers := h, body := body))
  {
    hide Harmless;
    SignatureIsHarmless(m.headers, text, 0);
  }

  lemma AsciiTexts(ts: seq<Ty>)
    ensures AsText(AsBytes(SignatureGrammar.Texts(ts))) == SignatureGrammar.Texts(ts)
  {
    TextsAreAscii(ts);
    TextOfBytes(SignatureGrammar.Texts(ts));
  }

  /** From append to read: values appended to a message without a body, sent and parsed again, come
      back to the reader of the message. The appends succeed, and leave `sent`. */
  lemma AppendedReadsBack(m: Msg, serial: uint32, ts: seq<Ty>, vs: seq<Val>, sent: Msg)
    requires HaveTypes(vs, ts) && AllCarried(vs) && AllShaped(ts) && AllGated(ts, vs, 0, Big) && ts != []
    requires SignatureGrammar.Fits(ts, false, MAX_OPEN) && |SignatureGrammar.Texts(ts)| < TWO8
    requires AllWritable(ts, vs) && AllAgree(ts, vs, 0, 0)
    requires m.body == [] && Field(m.headers, SIGNATURE_FIELD) == NoVariant
    requires Harmless(m.headers, 0) && ShortSignatures(m.headers) && FdsMatch(m)
    requires sent == m.(body := NestedAll(ts, vs, 0), headers :=
                        m.headers[SIGNATURE_FIELD := Basic(Sig(AsBytes(SignatureGrammar.Texts(ts))))])
    requires Accepted([], sent, serial)
    ensures WriteAll(ts, vs, 0) == Some(sent.body) && SignatureAfter(m.headers, ts, vs) == Some(sent.headers)
    ensures var r := CreateFromData(Serialized([], sent, serial), sent.fds);
            && r.Parsed? && Field(r.value.headers, SIGNATURE_FIELD).Basic? && Field(r.value.headers, SIGNATURE_FIELD).value.Sig?
            && ReadMembers(Parse(AsText(Field(r.value.headers, SIGNATURE_FIELD).value.g)).nodes, r.value.body, 0, r.value.endian)
                 == Parsed(vs, |r.value.body|)
  {
    hide Serialized, CreateFromData, Parse, ReadMembers, WriteAll, AllCarried, AllShaped, AllGated, FdsTaken, NestedAll,
         AllWritable, AllAgree, SignatureGrammar.Fits, AsBytes, AsText, SignatureGrammar.Texts, ShortSignatures, FdsMatch,
         SignatureAfter, Harmless, Accepted;
    var text := AsBytes(SignatureGrammar.Texts(ts));
    SignatureTaken(m, text, sent.body);
    RoundTrip(sent, serial);
    BodyIsShort(sent, serial);
    WriteAllIff(ts, vs, 0);
    WrittenReadsBack(ts, vs);
    AsciiTexts(ts);
    SignatureAccumulates(m.headers, ts, vs, []);
    assert [] + text == text;
  }

  lemma BodyIsShort(m: Msg, serial: uint32)
    requires Accepted([], m, serial)
    ensures |m.body| < TWO32
  {
    hide Unpatched, Gap;
  }
}
