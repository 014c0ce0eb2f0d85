/** The D-Bus message format, and how the printer and the parser of messages meet on it. */
module MessageFormat {
  import opened Bytes
  import opened Codec
  import opened Variants
  import opened Messages

  // ----- the format -----

  /** A header field at offset `off`: a struct of its key and a variant. */
  function FieldFormat(k: byte, v: Value, off: nat, e: Endianess): seq<byte> {
    Pad(off, 8) + ([k] + VariantFormat(v, AlignUp(off, 8) + 1, e))
  }

  function FieldsFormat(h: Headers, k: nat, off: nat, e: Endianess): seq<byte>
    decreases 10 - k
  {
    if k > 9 then []
    else match Field(h, k)
      case NoVariant => FieldsFormat(h, k + 1, off, e)
      case Basic(v) =>
        var one := FieldFormat(k, v, off, e);
        one + FieldsFormat(h, k + 1, off + |one|, e)
  }

  /** The message format: sixteen octets, the header array, padding to a multiple of 8, the body. */
  function Image(m: Msg, e: Endianess): seq<byte> {
    var fields := FieldsFormat(m.headers, 0, 16, e);
    Front(m, |fields|, e) + (fields + (Pad(16 + |fields|, 8) + m.body))
  }

  function Front(m: Msg, arrayLen: nat, e: Endianess): (s: seq<byte>)
    ensures |s| == 16
  {
    [if e == Big then 'B' as int else 'l' as int, KindCode(m.kind), m.flags, 1]
    + (Fixed(|m.body|, 4, e) + (Fixed(m.serial, 4, e) + Fixed(arrayLen, 4, e)))
  }

  /** The header fields a message can carry: known keys with a value. */
  function Kept(h: Headers, n: nat): Headers {
    map k | k in h && k < n && k != INVALID_FIELD && h[k].Basic? :: h[k]
  }

  /** Every text in the header has a length its prefix can hold. */
  predicate EncodableHeaders(h: Headers) {
    forall k :: k in h && h[k].Basic? ==> Encodable(h[k].value)
  }

  /** The descriptor count, when there is one, is a 32-bit count of descriptors that are there. */
  predicate FdsPresent(h: Headers, fds: seq<int>) {
    match Field(h, UNIX_FDS)
    case NoVariant => true
    case Basic(UInt32(n)) => n <= |fds| && n < 0x8000_0000
    case _ => false
  }

  function FdsTaken(h: Headers, fds: seq<int>): seq<int>
    requires FdsPresent(h, fds)
  {
    match Field(h, UNIX_FDS) case Basic(UInt32(n)) => fds[..n] case _ => []
  }

  function HeaderUpTo(h: Headers, n: nat, fds: seq<int>): Header
    requires FdsPresent(h, fds)
  {
    Header(Kept(h, n), if n > UNIX_FDS then FdsTaken(h, fds) else [])
  }

  // ----- the header loop reads exactly the fields -----

  lemma ReadFieldAt(k: byte, v: Value, data: seq<byte>, pos: nat, e: Endianess)
    requires Encodable(v) && At(data, pos, FieldFormat(k, v, pos, e))
    ensures ReadField(data, pos, e) == Parsed((k, Basic(v)), pos + |FieldFormat(k, v, pos, e)|)
  {
    hide VariantFormat, DecodeVariant, Gap, Encodable;
    var p := AlignUp(pos, 8);
    var format := VariantFormat(v, p + 1, e);
    AtSplit(data, pos, Pad(pos, 8), [k] + format);
    AtSplit(data, p, [k], format);
    assert data[p] == data[p..p + 1][0] == k;
    DecodeVariantAt(v, data, p + 1, e);
  }

  /** Every field takes more than four octets: a key, a signature of three and a value. */
  lemma FieldIsLong(k: byte, v: Value, off: nat, e: Endianess)
    ensures |FieldFormat(k, v, off, e)| > 4
  {
    hide Gap, Fixed;
    assert |Raw(v, e)| >= 1 by {
      if !IsText(v) { PatternRoundTrip(v); }
    }
  }

  lemma StoreKept(h: Headers, k: nat, fds: seq<int>)
    requires k <= 9 && FdsPresent(h, fds)
    ensures match Field(h, k)
            case NoVariant => HeaderUpTo(h, k + 1, fds) == HeaderUpTo(h, k, fds)
            case Basic(v) => Store(k, Basic(v), fds, HeaderUpTo(h, k, fds)) == Some(HeaderUpTo(h, k + 1, fds))
  {
    match Field(h, k)
    case NoVariant => assert Kept(h, k + 1) == Kept(h, k);
    case Basic(v) =>
      if k == INVALID_FIELD {
        assert Kept(h, k + 1) == Kept(h, k);
      } else {
        assert Kept(h, k + 1) == Kept(h, k)[k := Basic(v)];
        if k == UNIX_FDS { assert [] + fds[..v.u] == fds[..v.u]; }
      }
  }

  lemma FieldsFormatByHead(h: Headers, k: nat, off: nat, e: Endianess, v: Value)
    requires k <= 9 && Field(h, k) == Basic(v)
    ensures FieldsFormat(h, k, off, e)
         == FieldFormat(k, v, off, e) + FieldsFormat(h, k + 1, off + |FieldFormat(k, v, off, e)|, e)
  {
    hide FieldFormat;
  }

  lemma NoFormatLeft(h: Headers, k: nat, off: nat, e: Endianess)
    requires k > 9
    ensures FieldsFormat(h, k, off, e) == []
  {
  }

  lemma FieldsFormatSkip(h: Headers, k: nat, off: nat, e: Endianess)
    requires k <= 9 && Field(h, k) == NoVariant
    ensures FieldsFormat(h, k, off, e) == FieldsFormat(h, k + 1, off, e)
  {
  }

  /** With the fields standing at `pos` and the limit four octets before their end, the loop
      reads exactly the fields, in order, and stops where they stop. */
  lemma {:induction false} FieldsReadBack(h: Headers, k: nat, data: seq<byte>, pos: nat, limit: nat, e: Endianess,
          fds: seq<int>)
    requires k <= 10 && EncodableHeaders(h) && FdsPresent(h, fds)
    requires At(data, pos, FieldsFormat(h, k, pos, e))
    requires limit + 4 == pos + |FieldsFormat(h, k, pos, e)|
    ensures ReadFields(data, pos, limit, e, fds, HeaderUpTo(h, k, fds)) == Parsed(HeaderUpTo(h, 10, fds), limit + 4)
    decreases 10 - k
  {
    hide FieldsFormat, FieldFormat, HeaderUpTo, Store, ReadField, FdsPresent, FdsTaken, At;
    if k > 9 {
      NoFormatLeft(h, k, pos, e);
    } else {
      StoreKept(h, k, fds);
      match Field(h, k)
      case NoVariant =>
        FieldsFormatSkip(h, k, pos, e);
        FieldsReadBack(h, k + 1, data, pos, limit, e, fds);
      case Basic(v) =>
        var one := FieldFormat(k, v, pos, e);
        FieldsFormatByHead(h, k, pos, e, v);
        AtSplit(data, pos, one, FieldsFormat(h, k + 1, pos + |one|, e));
        FieldIsLong(k, v, pos, e);
        ReadFieldAt(k, v, data, pos, e);
        FieldsReadBack(h, k + 1, data, pos + |one|, limit, e, fds);
    }
  }

  // ----- the parser on the format -----

  lemma WordIs(data: seq<byte>, at: nat, x: uint32, e: Endianess)
    requires At(data, at, Fixed(x, 4, e))
    ensures at + 4 <= |data| && Word(data, at, e) == x
  {
    Pow256Values();
    FixedRoundTrip(x, 4, e);
  }

  lemma FrontReadBack(m: Msg, arrayLen: uint32, e: Endianess, data: seq<byte>)
    requires |m.body| < TWO32 && At(data, 0, Front(m, arrayLen, e))
    ensures ReadPrologue(data) == Some(Prologue(e, KindCode(m.kind), m.flags, 1, |m.body|, m.serial, arrayLen))
  {
    hide Fixed, Word;
    var first := [if e == Big then 'B' as int else 'l' as int, KindCode(m.kind), m.flags, 1];
    var a, b, c := Fixed(|m.body|, 4, e), Fixed(m.serial, 4, e), Fixed(arrayLen, 4, e);
    AtSplit(data, 0, first, a + (b + c));
    AtSplit(data, 4, a, b + c);
    AtSplit(data, 8, b, c);
    WordIs(data, 4, |m.body|, e);
    WordIs(data, 8, m.serial, e);
    WordIs(data, 12, arrayLen, e);
    assert data[0..4] == first;
    assert data[0] == first[0] && data[1] == first[1] && data[2] == first[2] && data[3] == first[3];
  }

  /** The parts of a message image, where they stand. */
  lemma ImageParts(m: Msg, e: Endianess)
    ensures var data, fields := Image(m, e), FieldsFormat(m.headers, 0, 16, e);
            var q := AlignUp(16 + |fields|, 8);
            && At(data, 0, Front(m, |fields|, e)) && At(data, 16, fields)
            && |data| == q + |m.body| && data[q..] == m.body
  {
    hide FieldsFormat, Front, Gap, AlignUp;
    var data, fields := Image(m, e), FieldsFormat(m.headers, 0, 16, e);
    var front, pad := Front(m, |fields|, e), Pad(16 + |fields|, 8);
    PadLength(16 + |fields|, 8);
    Whole(data);
    AtSplit(data, 0, front, fields + (pad + m.body));
    AtSplit(data, 16, fields, pad + m.body);
    AtSplit(data, 16 + |fields|, pad, m.body);
  }

  lemma PadLength(off: nat, a: Alignment)
    ensures off + |Pad(off, a)| == AlignUp(off, a)
  {
  }

  lemma Whole(data: seq<byte>)
    ensures At(data, 0, data)
  {
    assert data[0..|data|] == data;
  }

  /** A message that any peer wrote in the D-Bus format, in either byte order and with header
      values of any basic type, is read back field for field, and every octet is consumed. */
  lemma ReadsFormat(m: Msg, e: Endianess, fds: seq<int>)
    requires |Image(m, e)| < TWO32
    requires EncodableHeaders(m.headers) && FdsPresent(m.headers, fds)
    ensures CreateFromData(Image(m, e), fds)
         == Parsed(m.(headers := Kept(m.headers, 10), fds := FdsTaken(m.headers, fds), endian := e), |Image(m, e)|)
  {
    hide Image, FieldsFormat, Front, ReadPrologue, ReadFields, Kept, EncodableHeaders, FdsPresent, FdsTaken, Gap;
    var data, fields := Image(m, e), FieldsFormat(m.headers, 0, 16, e);
    ImageParts(m, e);
    FrontReadBack(m, |fields|, e, data);
    StartsEmpty(m.headers, fds);
    FieldsReadBack(m.headers, 0, data, 16, 12 + |fields|, e, fds);
    assert (12 + |fields|) % TWO32 == 12 + |fields|;
    var q := AlignUp(16 + |fields|, 8);
    assert data[q..q + |m.body|] == data[q..];
  }

  lemma StartsEmpty(h: Headers, fds: seq<int>)
    requires FdsPresent(h, fds)
    ensures HeaderUpTo(h, 0, fds) == Header(map[], [])
    ensures HeaderUpTo(h, 10, fds) == Header(Kept(h, 10), FdsTaken(h, fds))
  {
    assert Kept(h, 0) == map[];
  }

  // ----- the printer on the format -----

  /** No header value needs an alignment of 8. */
  predicate NoWideHeaders(h: Headers) {
    forall k :: k in h && h[k].Basic? ==> Align(h[k].value) != 8
  }

  /** A field is written as the format says exactly when its value is not 8-aligned: the value
      stands four octets after a multiple of 8. */
  lemma FieldWrittenIff(k: byte, v: Value, off: nat)
    ensures OneField(k, v, off) == FieldFormat(k, v, off, Big) <==> Align(v) != 8
  {
    hide Gap, VariantBytes, VariantFormat, TypeOf;
    var p := AlignUp(off, 8);
    AlignUpIsMultiple(off, 8);
    VariantBytesIff(v, p + 1);
    FourAfterEight(p, Align(v));
    var pad, a, b := Pad(off, 8), VariantBytes(v), VariantFormat(v, p + 1, Big);
    if pad + ([k] + a) == pad + ([k] + b) {
      assert (pad + ([k] + a))[|pad| + 1..] == a;
      assert (pad + ([k] + b))[|pad| + 1..] == b;
    }
  }

  lemma FourAfterEight(p: nat, a: Alignment)
    requires Multiple(p, 8)
    ensures Multiple(p + 1 + 3, a) <==> a != 8
  {
    if a != 8 { MultipleOfSmaller(p, a, 8); } else { QuotientUnique(p + 4, 8, p / 8, 4); }
    if a == 4 { QuotientUnique(p + 4, 4, p / 4 + 1, 0); }
    if a == 2 { QuotientUnique(p + 4, 2, p / 2 + 2, 0); }
  }

  lemma NoFields(h: Headers, k: nat, off: nat)
    requires k > 9
    ensures Fields(h, k, off) == FieldsFormat(h, k, off, Big)
  {
  }

  lemma WordAppended(s: seq<byte>, x: uint32)
    requires |s| % 4 == 0
    ensures AppendWord(s, x) == s + Fixed(x, 4, Big)
  {
    hide Fixed;
    assert Pad(|s|, 4) == [];
    assert Encode(UInt32(x), |s|, Big) == [] + Fixed(x, 4, Big);
  }

  /** The sixteen octets before the header array, with a zero for its length. */
  lemma FrontWritten(m: Msg, serial: uint32)
    requires |m.body| < TWO32
    ensures AppendWord(AppendWord(Opening([], m), serial), 0) == Front(m.(serial := serial), 0, Big)
  {
    hide Fixed, AppendWord;
    var first := ['B' as int, KindCode(m.kind), m.flags, 1];
    var a, b, c := Fixed(|m.body|, 4, Big), Fixed(serial, 4, Big), Fixed(0, 4, Big);
    assert [] + first == first;
    WordAppended(first, |m.body|);
    WordAppended(first + a, serial);
    WordAppended(first + a + b, 0);
    assert first + a + b + c == first + (a + (b + c));
  }

  lemma SixteenOctets(m: Msg, serial: uint32)
    ensures |AppendWord(AppendWord(Opening([], m), serial), 0)| == 16
  {
    hide Fixed;
    WordLength(['B' as int, KindCode(m.kind), m.flags, 1], |m.body| % TWO32);
    assert [] + ['B' as int, KindCode(m.kind), m.flags, 1] == ['B' as int, KindCode(m.kind), m.flags, 1];
    WordLength(Opening([], m), serial);
    WordLength(AppendWord(Opening([], m), serial), 0);
  }

  lemma WordLength(s: seq<byte>, x: uint32)
    requires |s| % 4 == 0
    ensures |AppendWord(s, x)| == |s| + 4
  {
    hide Fixed;
    WordAppended(s, x);
  }

  lemma FrontPatched(m: Msg, arrayLen: nat, rest: seq<byte>)
    ensures Patch(Front(m, 0, Big) + rest, 12, Fixed(arrayLen, 4, Big)) == Front(m, arrayLen, Big) + rest
  {
    hide Fixed;
    var f, g := Front(m, 0, Big), Front(m, arrayLen, Big);
    assert f[..12] == g[..12] && g[12..] == Fixed(arrayLen, 4, Big);
    assert (f + rest)[..12] == f[..12] && (f + rest)[16..] == rest;
    assert g == g[..12] + g[12..];
    Associative(g[..12], g[12..], rest);
  }

  /** Into an empty vector, a message is accepted exactly when a return or an error has a reply
      serial other than 0, and its sixteen octets, its header fields rounded up to 8 and its body
      stay below 2^27 octets. Calls and signals need no reply serial. */
  lemma AcceptedIff(m: Msg, serial: uint32)
    ensures Accepted([], m, serial) <==>
              && (m.kind == RETURN || m.kind == ERROR ==>
                    5 in m.headers && m.headers[5].Basic? && m.headers[5].value.UInt32? && m.headers[5].value.u != 0)
              && AlignUp(16 + |Fields(m.headers, 0, 16)|, 8) + |m.body| < 0x800_0000
  {
    hide Fields, Front, Opening, AppendWord, Gap, MissingReply, Fixed;
    NeedsReplySerial(m.kind, m.headers);
    SixteenOctets(m, serial);
    PadLength(|Unpatched([], m, serial)|, 8);
    assert |Unpatched([], m, serial)| == 16 + |Fields(m.headers, 0, 16)|;
  }

  lemma NeedsReplySerial(kind: Kind, h: Headers)
    ensures MissingReply(kind, h) <==>
              (kind == RETURN || kind == ERROR)
              && !(5 in h && h[5].Basic? && h[5].value.UInt32? && h[5].value.u != 0)
  {
  }

  // ----- what the D-Bus specification says of the first octets -----

  /** The message starts with its byte order, the code of its kind, its flags and the version, then
      the length of the body, the serial and the length of the header array. */
  lemma FirstOctets(m: Msg, e: Endianess)
    ensures var all, n := Image(m, e), |FieldsFormat(m.headers, 0, 16, e)|;
            && |all| >= 16
            && all[0] == (if e == Big then 'B' as int else 'l' as int)
            && all[1] == (match m.kind case CALL => 1 case RETURN => 2 case ERROR => 3 case SIGNAL => 4)
            && all[2] == m.flags && all[3] == 1
            && all[4..8] == Fixed(|m.body|, 4, e) && all[8..12] == Fixed(m.serial, 4, e) && all[12..16] == Fixed(n, 4, e)
  {
    hide Fixed, FieldsFormat;
    var n := |FieldsFormat(m.headers, 0, 16, e)|;
    var front, rest := Front(m, n, e), FieldsFormat(m.headers, 0, 16, e) + (Pad(16 + n, 8) + m.body);
    var a, b, c := Fixed(|m.body|, 4, e), Fixed(m.serial, 4, e), Fixed(n, 4, e);
    assert Image(m, e) == front + rest;
    assert (front + rest)[4..8] == front[4..8] == a;
    assert (front + rest)[8..12] == front[8..12] == b;
    assert (front + rest)[12..16] == front[12..16] == c;
  }

  /** Into a vector that holds something already, the length of the header array still goes to octet 12:
      it overwrites four octets of what was there. */
  lemma PatchedAtTwelve(pre: seq<byte>, m: Msg, serial: uint32)
    requires |pre| >= 16 && !MissingReply(m.kind, m.headers)
    ensures var all := Serialized(pre, m, serial);
            && |all| >= |pre| && all[..12] == pre[..12] && all[16..|pre|] == pre[16..]
            && all[12..16] == Fixed((|Unpatched(pre, m, serial)| - 16) % 0x1_0000_0000, 4, Big)
            && |all| == AlignUp(|Unpatched(pre, m, serial)|, 8) + |m.body|
  {
    hide Fixed, Gap, Encode, Fields, MissingReply;
    var f := Unpatched(pre, m, serial);
    assert pre <= f;
    PadLength(|f|, 8);
  }

  /** A field with a key that the D-Bus specification does not have is read past and dropped. */
  lemma UnknownFieldDropped(k: byte, v: Value, data: seq<byte>, pos: nat, limit: nat, e: Endianess, fds: seq<int>,
                            acc: Header)
    requires (k == 0 || k > 9) && Encodable(v) && pos < limit && At(data, pos, FieldFormat(k, v, pos, e))
    ensures ReadFields(data, pos, limit, e, fds, acc)
         == ReadFields(data, pos + |FieldFormat(k, v, pos, e)|, limit, e, fds, acc)
  {
    hide ReadField, FieldFormat, Encodable, At;
    ReadFieldAt(k, v, data, pos, e);
  }

  /** Of two fields with the same key the later one counts. */
  lemma LaterFieldCounts(k: byte, v: Variant, w: Variant, fds: seq<int>, acc: Header)
    requires 1 <= k <= 8
    ensures Store(k, v, fds, acc).Some?
    ensures Store(k, w, fds, Store(k, v, fds, acc).value) == Some(Header(acc.headers[k := w], acc.fds))
  {
    assert acc.headers[k := v][k := w] == acc.headers[k := w];
  }

  /** The count of descriptors must be a 32-bit number; read as a signed one it must not exceed the
      descriptors received, and that many are taken. */
  lemma DescriptorsCounted(v: Variant, fds: seq<int>, acc: Header)
    ensures Store(9, v, fds, acc).Some? <==>
              v.Basic? && v.value.UInt32? && (v.value.u >= 0x8000_0000 || v.value.u <= |fds|)
    ensures Store(9, v, fds, acc).Some? ==>
              Store(9, v, fds, acc).value.fds == acc.fds + fds[..if v.value.u >= 0x8000_0000 then 0 else v.value.u]
  {
  }

  /** What the parser needs of data beside readable fields: sixteen octets, one of the four kinds, and
      the announced body. */
  lemma CreateStops(data: seq<byte>, fds: seq<int>)
    ensures |data| < 16 ==> CreateFromData(data, fds).Abort?
    ensures |data| >= 16 && !(1 <= data[1] <= 4) ==> CreateFromData(data, fds).Abort?
    ensures CreateFromData(data, fds).Parsed? ==>
              var m := CreateFromData(data, fds).value;
              && |data| >= 16 && (m.body != [] ==> CreateFromData(data, fds).pos <= |data|)
              && m.endian == (if data[0] == 'l' as int then Little else Big) && m.flags == data[2]
              && data[1] == (match m.kind case CALL => 1 case RETURN => 2 case ERROR => 3 case SIGNAL => 4)
              && m.serial == FromFixed(data[8..12], m.endian) && |m.body| == FromFixed(data[4..8], m.endian)
  {
    hide ReadFields, FromFixed;
  }

  // ----- when 8-aligned header values do no harm -----

  predicate Followed(h: Headers, k: nat)
    decreases 10 - k
  {
    k <= 9 && (Field(h, k).Basic? || Followed(h, k + 1))
  }

  predicate Zero(v: Value) { !IsText(v) && Pattern(v) == 0 }

  /** From field `k` on, every 8-aligned value is zero and has another field after it. */
  predicate Harmless(h: Headers, k: nat)
    decreases 10 - k
  {
    k <= 9 ==>
      && (Field(h, k).Basic? && Align(Field(h, k).value) == 8 ==> Zero(Field(h, k).value) && Followed(h, k + 1))
      && Harmless(h, k + 1)
  }

  /** What the printer writes of the fields starts with the padding to 8, and so does the format. */
  lemma {:induction false} FieldsPadded(h: Headers, k: nat, off: nat)
    ensures Followed(h, k) ==> Fields(h, k, off) == Pad(off, 8) + Fields(h, k, AlignUp(off, 8))
    ensures !Followed(h, k) ==> Fields(h, k, off) == []
    decreases 10 - k
  {
    hide Gap, VariantBytes, AlignUp;
    if k <= 9 {
      FieldsByHead(h, k, off);
      FieldsByHead(h, k, AlignUp(off, 8));
      match Field(h, k)
      case NoVariant => FieldsPadded(h, k + 1, off);
      case Basic(v) => OneFieldPadded(k, v, off, Fields(h, k + 1, AlignUp(off, 8) + 1 + |VariantBytes(v)|));
    }
  }

  lemma OneFieldPadded(k: byte, v: Value, off: nat, rest: seq<byte>)
    ensures OneField(k, v, off) + rest == Pad(off, 8) + (OneField(k, v, AlignUp(off, 8)) + rest)
    ensures off + |OneField(k, v, off)| == AlignUp(off, 8) + 1 + |VariantBytes(v)|
    ensures AlignUp(off, 8) + |OneField(k, v, AlignUp(off, 8))| == AlignUp(off, 8) + 1 + |VariantBytes(v)|
  {
    hide Gap, VariantBytes;
    AlignUpIsMultiple(off, 8);
    AlignUpIsMultiple(AlignUp(off, 8), 8);
    var field := [k] + VariantBytes(v);
    assert OneField(k, v, AlignUp(off, 8)) == [] + field == field;
    Associative(Pad(off, 8), field, rest);
  }

  /** An 8-aligned value as it is written and in the format: the same key and signature, then the
      value without and with four octets before it. */
  lemma WideForms(k: byte, v: Value, off: nat)
    requires Align(v) == 8
    ensures var head, q := Pad(off, 8) + ([k] + RawSignature(SignatureOf(v))), AlignUp(off, 8);
            && OneField(k, v, off) == head + Raw(v, Big) && off + |OneField(k, v, off)| == q + 12
            && FieldFormat(k, v, off, Big) == head + (Zeros(4) + Raw(v, Big))
            && off + |FieldFormat(k, v, off, Big)| == q + 16
    ensures |Raw(v, Big)| == 8 && (Raw(v, Big) == Zeros(8) <==> Zero(v))
  {
    hide Gap, Fixed, Code, AlignUp;
    var sig, raw, q := RawSignature(SignatureOf(v)), Raw(v, Big), AlignUp(off, 8);
    AlignUpIsMultiple(off, 8);
    QuotientUnique(q + 4, 8, q / 8, 4);
    PadOfFour(q);
    PadLength(off, 8);
    Associative(Pad(off, 8), [k] + sig, raw);
    Associative(Pad(off, 8), [k] + sig, Zeros(4) + raw);
    Associative([k], sig, raw);
    Associative([k], sig, Zeros(4) + raw);
    Pow256Values();
    PatternRoundTrip(v);
    FixedIsZero(Pattern(v), 8, Big);
  }

  lemma PadOfFour(q: nat)
    requires q % 8 == 0
    ensures Pad(q + 4, 8) == Zeros(4) && AlignUp(q + 12, 8) == q + 16 && Pad(q + 12, 8) == Zeros(4)
  {
    QuotientUnique(q + 4, 8, q / 8, 4);
    QuotientUnique(q + 12, 8, q / 8 + 1, 4);
  }

  /** A value and what follows, against the same moved on by four octets. */
  lemma MovedByFour(x: seq<byte>, rest: seq<byte>, w: seq<byte>)
    requires |x| == 8
    ensures x + (Zeros(4) + rest) == Zeros(4) + x + w <==> x == Zeros(8) && rest == w
  {
    var a, b := x + (Zeros(4) + rest), Zeros(4) + x + w;
    if a == b {
      forall i | 0 <= i < 8 ensures x[i] == 0 {
        assert x[i] == a[i] == b[i];
        if i >= 4 { assert b[i] == x[i - 4] == a[i - 4] == b[i - 4]; }
      }
      assert a[12..] == rest && b[12..] == w;
    }
    if x == Zeros(8) { assert x + Zeros(4) == Zeros(4) + x; Associative(x, Zeros(4), rest); }
  }

  lemma {:induction false} FieldsWrittenIff(h: Headers, k: nat, off: nat)
    requires k <= 10
    ensures Fields(h, k, off) == FieldsFormat(h, k, off, Big) <==> Harmless(h, k)
    decreases 10 - k
  {
    hide Fields, FieldsFormat, OneField, FieldFormat, Align, Zero, Followed;
    if k > 9 {
      NoFields(h, k, off);
    } else {
      FieldsByHead(h, k, off);
      match Field(h, k)
      case NoVariant =>
        FieldsFormatSkip(h, k, off, Big);
        FieldsWrittenIff(h, k + 1, off);
      case Basic(v) =>
        FieldsFormatByHead(h, k, off, Big, v);
        if Align(v) == 8 { WideWrittenIff(h, k, v, off); } else { NarrowWrittenIff(h, k, v, off); }
    }
  }

  lemma {:induction false} NarrowWrittenIff(h: Headers, k: nat, v: Value, off: nat)
    requires k <= 9 && Field(h, k) == Basic(v) && Align(v) != 8
    ensures OneField(k, v, off) == FieldFormat(k, v, off, Big)
    ensures var one := OneField(k, v, off);
            one + Fields(h, k + 1, off + |one|) == one + FieldsFormat(h, k + 1, off + |one|, Big) <==> Harmless(h, k + 1)
    decreases 10 - k, 0
  {
    hide Fields, FieldsFormat, OneField, FieldFormat, Align, Harmless;
    var one := OneField(k, v, off);
    FieldWrittenIff(k, v, off);
    FieldsWrittenIff(h, k + 1, off + |one|);
    SameRest(one, Fields(h, k + 1, off + |one|), FieldsFormat(h, k + 1, off + |one|, Big));
  }

  lemma SameRest(a: seq<byte>, b: seq<byte>, c: seq<byte>)
    ensures a + b == a + c <==> b == c
  {
    assert (a + b)[|a|..] == b && (a + c)[|a|..] == c;
  }

  lemma {:induction false} WideWrittenIff(h: Headers, k: nat, v: Value, off: nat)
    requires k <= 9 && Field(h, k) == Basic(v) && Align(v) == 8
    ensures OneField(k, v, off) + Fields(h, k + 1, off + |OneField(k, v, off)|)
              == FieldFormat(k, v, off, Big) + FieldsFormat(h, k + 1, off + |FieldFormat(k, v, off, Big)|, Big)
       <==> Zero(v) && Followed(h, k + 1) && Harmless(h, k + 1)
    decreases 10 - k, 0
  {
    hide Fields, FieldsFormat, OneField, FieldFormat, Align, Harmless, Followed, Zero, Raw, AlignUp, Pad, Zeros;
    var q, raw := AlignUp(off, 8), Raw(v, Big);
    var head := Pad(off, 8) + ([k] + RawSignature(SignatureOf(v)));
    WideForms(k, v, off);
    AlignUpIsMultiple(off, 8);
    PadOfFour(q);
    FieldsPadded(h, k + 1, q + 12);
    FieldsWrittenIff(h, k + 1, q + 16);
    var written, after := Fields(h, k + 1, q + 12), FieldsFormat(h, k + 1, q + 16, Big);
    Associative(head, raw, written);
    Associative(head, Zeros(4) + raw, after);
    SameRest(head, raw + written, Zeros(4) + raw + after);
    if Followed(h, k + 1) {
      MovedByFour(raw, Fields(h, k + 1, q + 16), after);
    } else {
      assert |raw + written| < |Zeros(4) + raw + after|;
    }
  }

  /** An accepted message is written in the D-Bus format if and only if every 8-aligned header value
      is zero and has another field after it, whose padding makes up for the missing one. */
  lemma WrittenIff(m: Msg, serial: uint32)
    requires Accepted([], m, serial)
    ensures Serialized([], m, serial) == Image(m.(serial := serial), Big) <==> Harmless(m.headers, 0)
  {
    hide Fields, FieldsFormat, Front, Accepted, Serialized, Pad, Harmless, Image;
    var sent := m.(serial := serial);
    var f, g := Fields(m.headers, 0, 16), FieldsFormat(m.headers, 0, 16, Big);
    SerializedParts(m, serial);
    FieldsWrittenIff(m.headers, 0, 16);
    var a, b := f + (Pad(16 + |f|, 8) + m.body), g + (Pad(16 + |g|, 8) + m.body);
    assert Image(sent, Big) == Front(sent, |g|, Big) + b by { ImageForm(sent); }
    if Serialized([], m, serial) == Image(sent, Big) {
      Cancel(Front(sent, |f|, Big), a, Front(sent, |g|, Big), b);
      SameLengths(sent, |f|, |g|);
      Cancel(f, Pad(16 + |f|, 8) + m.body, g, Pad(16 + |g|, 8) + m.body);
    }
  }

  /** In particular, a message that passes the size check and has no 8-aligned header value. */
  lemma WritesFormat(m: Msg, serial: uint32)
    requires Accepted([], m, serial) && NoWideHeaders(m.headers)
    ensures Serialized([], m, serial) == Image(m.(serial := serial), Big)
  {
    hide Accepted, Serialized, Image, Harmless, NoWideHeaders;
    NoWideIsHarmless(m.headers, 0);
    WrittenIff(m, serial);
  }

  lemma {:induction false} NoWideIsHarmless(h: Headers, k: nat)
    requires NoWideHeaders(h)
    ensures Harmless(h, k)
    decreases 10 - k
  {
    hide Align;
    if k <= 9 { NoWideIsHarmless(h, k + 1); }
  }

  /** A signature field put into a header without one takes no follower away. */
  lemma {:induction false} SignatureIsHarmless(h: Headers, g: seq<byte>, k: nat)
    requires Harmless(h, k) && Field(h, SIGNATURE_FIELD) == NoVariant
    ensures Harmless(h[SIGNATURE_FIELD := Basic(Sig(g))], k)
    ensures Followed(h, k) ==> Followed(h[SIGNATURE_FIELD := Basic(Sig(g))], k)
    decreases 10 - k
  {
    if k <= 9 { SignatureIsHarmless(h, g, k + 1); }
  }

  lemma ImageForm(m: Msg)
    ensures var g := FieldsFormat(m.headers, 0, 16, Big);
            Image(m, Big) == Front(m, |g|, Big) + (g + (Pad(16 + |g|, 8) + m.body))
  {
    hide Front, FieldsFormat, Pad;
  }

  lemma SameLengths(m: Msg, x: nat, y: nat)
    requires x < TWO32 && y < TWO32 && Front(m, x, Big) == Front(m, y, Big)
    ensures x == y
  {
    hide Fixed, FromFixed;
    assert Front(m, x, Big)[12..] == Fixed(x, 4, Big) && Front(m, y, Big)[12..] == Fixed(y, 4, Big);
    Pow256Values();
    FixedRoundTrip(x, 4, Big);
    FixedRoundTrip(y, 4, Big);
  }

  lemma SerializedParts(m: Msg, serial: uint32)
    requires Accepted([], m, serial)
    ensures var f := Fields(m.headers, 0, 16);
            Serialized([], m, serial) == Front(m.(serial := serial), |f|, Big) + (f + (Pad(16 + |f|, 8) + m.body))
    ensures |Fields(m.headers, 0, 16)| < TWO32 && |Serialized([], m, serial)| < TWO32
  {
    hide Fields, Front, Opening, AppendWord, Gap, Patch, MissingReply, Fixed;
    var sent, fields := m.(serial := serial), Fields(m.headers, 0, 16);
    FrontWritten(m, serial);
    var f := Unpatched([], m, serial);
    assert f == Front(sent, 0, Big) + fields;
    assert (|f| - 16) % TWO32 == |fields|;
    FrontPatched(sent, |fields|, fields);
    var front, pad := Front(sent, |fields|, Big), Pad(16 + |fields|, 8);
    assert Serialized([], m, serial) == front + fields + pad + m.body;
    Regroup(front, fields, pad, m.body);
  }

  lemma Regroup(a: seq<byte>, b: seq<byte>, c: seq<byte>, d: seq<byte>)
    ensures a + b + c + d == a + (b + (c + d))
  {
  }

  /** A text in an accepted message is shorter than the message. */
  lemma {:induction false} AcceptedIsEncodable(h: Headers, k: nat, off: nat, j: nat)
    requires k <= j <= 9 && j in h && h[j].Basic?
    ensures |Fields(h, k, off)| >= |Raw(h[j].value, Big)|
    decreases j - k
  {
    hide Fields, Raw, Gap, RawSignature;
    FieldsByHead(h, k, off);
    if k < j {
      match Field(h, k)
      case NoVariant => AcceptedIsEncodable(h, k + 1, off, j);
      case Basic(v) => AcceptedIsEncodable(h, k + 1, off + |OneField(k, v, off)|, j);
    }
  }

  /** Signature texts of at most 255 octets, as the D-Bus specification has it. */
  predicate ShortSignatures(h: Headers) {
    forall k :: k in h ==> match h[k] case Basic(Sig(g)) => |g| < TWO8 case _ => true
  }

  lemma AcceptedEncodable(m: Msg, serial: uint32)
    requires Accepted([], m, serial) && ShortSignatures(m.headers)
    ensures EncodableHeaders(m.headers)
  {
    hide Fields, Opening, AppendWord, Fixed, Gap;
    var d := AppendWord(AppendWord(Opening([], m), serial), 0);
    forall k | k in m.headers && m.headers[k].Basic? ensures Encodable(m.headers[k].value) {
      AcceptedIsEncodable(m.headers, 0, |d|, k);
    }
  }

  /** The descriptors a message holds are the ones its header counts. */
  predicate FdsMatch(m: Msg) {
    FdsPresent(m.headers, m.fds) && FdsTaken(m.headers, m.fds) == m.fds
  }

  /** Whole-message round trip: what `serialize_to_vector` writes for an accepted message,
      `create_from_data` turns back into that message, consuming every octet. */
  lemma RoundTrip(m: Msg, serial: uint32)
    requires Accepted([], m, serial)
    requires Harmless(m.headers, 0) && ShortSignatures(m.headers) && FdsMatch(m)
    ensures CreateFromData(Serialized([], m, serial), m.fds)
         == Parsed(m.(serial := serial, headers := Kept(m.headers, 10), endian := Big), |Serialized([], m, serial)|)
  {
    hide Serialized, Image, CreateFromData, Kept, FdsTaken, Harmless;
    WrittenIff(m, serial);
    AcceptedEncodable(m, serial);
    ReadsFormat(m.(serial := serial), Big, m.fds);
  }

  /** For the header fields of the D-Bus specification nothing is dropped. */
  lemma KeepsAll(h: Headers)
    requires forall k :: k in h ==> k != INVALID_FIELD && h[k].Basic?
    ensures Kept(h, 10) == h
  {
    assert forall k :: k in h ==> k < 10;
  }
}
