/** Variants that hold a basic value (variant.cpp): their bytes inside a message, and the
    reader that picks a type from the signature it finds in the data. */
module Variants {
  import opened Bytes
  import opened Types
  import opened Codec
  import opened Signatures
  import opened Wire

  /** A variant is empty, or holds a basic value. Its marshaled form is big-endian, and starts
      at offset 0 of a buffer of its own, so nothing comes before its octets. */
  datatype Variant = NoVariant | Basic(value: Value)

  /** The character that stands for the type of a value, as an octet. */
  function Code(t: DataType): (c: byte)
    requires Readable(t)
    ensures TypeToChar(t) == Some(c as char)
  {
    TypeToChar(t).value as int
  }

  /** `DBus::signature` of a basic value. */
  function SignatureOf(v: Value): seq<byte> { [Code(TypeOf(v))] }

  /** `Marshaling::marshal(Variant)`: signature and marshaled octets, with no padding between. */
  function VariantBytes(v: Value): seq<byte> { RawSignature(SignatureOf(v)) + Raw(v, Big) }

  /** A variant in the D-Bus format at offset `off`: signature, then the value padded to its
      own alignment. */
  function VariantFormat(v: Value, off: nat, e: Endianess): seq<byte> {
    RawSignature(SignatureOf(v)) + Encode(v, off + 3, e)
  }

  function AsText(s: seq<byte>): (t: string)
    ensures |t| == |s|
  {
    seq(|s|, i requires 0 <= i < |s| => s[i] as char)
  }

  function AsBytes(s: string): (t: seq<byte>)
    ensures |t| == |s|
  {
    seq(|s|, i requires 0 <= i < |s| => s[i] as int % 256)
  }

  /** `demarshal_variant`. An array or a variant inside is read as another variant; a struct, a
      dict entry, a file descriptor or an invalid signature gives an empty variant. */
  function DecodeVariant(data: seq<byte>, pos: nat, e: Endianess): (r: Parsed<Variant>)
    ensures r.Parsed? ==> pos < r.pos <= |data| + 1
    decreases |data| + 1 - pos
  {
    match DecodeSignature(data, pos)
    case Abort => Abort
    case Parsed(sig, p) =>
      var t := FirstType(AsText(sig));
      if t == ARRAY || t == VARIANT then DecodeVariant(data, p, e)
      else if Readable(t) then
        match Decode(t, data, p, e)
        case Abort => Abort
        case Parsed(v, q) => Parsed(Basic(v), q)
      else Parsed(NoVariant, p)
  }

  lemma TypeOfCode(t: DataType)
    requires Readable(t)
    ensures AsText([Code(t)]) == [Code(t) as char]
    ensures FirstType([Code(t) as char]) == t
  {
    var s := [Code(t) as char];
    assert CharToType(s[0]) == t && !IsEnding(s[0]);
    assert Parse(s) == Loop(s, 0, [], [], true);
    assert Loop(s, 0, [], [], true) == Advance(s, 0, 0, [], [] + [Node(t, [])], true);
  }

  /** A basic variant that stands in the D-Bus format is read back, in either byte order. */
  lemma DecodeVariantAt(v: Value, data: seq<byte>, pos: nat, e: Endianess)
    requires Encodable(v)
    requires At(data, pos, VariantFormat(v, pos, e))
    ensures DecodeVariant(data, pos, e) == Parsed(Basic(v), pos + |VariantFormat(v, pos, e)|)
  {
    hide Encode, Decode, TypeOf, FirstType, RawSignature, DecodeSignature, AsText, Readable, Encodable, Code;
    var sig := SignatureOf(v);
    AtSplit(data, pos, RawSignature(sig), Encode(v, pos + 3, e));
    CodeLength(v);
    DecodeSignatureAt(sig, data, pos);
    TypeOfCode(TypeOf(v));
    ReadableIsBasic(TypeOf(v));
    DecodeEncodedAt(v, data, pos + 3, e);
  }

  lemma CodeLength(v: Value)
    ensures |RawSignature(SignatureOf(v))| == 3
  {
  }

  lemma ReadableIsBasic(t: DataType)
    requires Readable(t)
    ensures t != ARRAY && t != VARIANT
  {
  }

  /** What the writer puts into a message agrees with the format exactly when no padding is due. */
  lemma VariantBytesIff(v: Value, off: nat)
    ensures VariantBytes(v) == VariantFormat(v, off, Big) <==> Multiple(off + 3, Align(v))
  {
    hide Raw, TypeOf, RawSignature;
    var sig := RawSignature(SignatureOf(v));
    var pad := Pad(off + 3, Align(v));
    AlignUpIsMultiple(off + 3, Align(v));
    assert |VariantFormat(v, off, Big)| == |VariantBytes(v)| + |pad|;
    if pad == [] { assert pad + Raw(v, Big) == Raw(v, Big); }
  }

  /** `operator==` compares types and marshaled octets: two basic variants are equal for it
      exactly when they hold the same value. */
  lemma EqualIff(v: Value, w: Value)
    ensures TypeOf(v) == TypeOf(w) && Raw(v, Big) == Raw(w, Big) <==> v == w
  {
    hide Raw, TypeOf;
    if TypeOf(v) == TypeOf(w) && Raw(v, Big) == Raw(w, Big) {
      SameKind(v, w);
      if IsText(v) {
        TextInside(v);
        TextInside(w);
      } else {
        PatternInside(v);
        PatternInside(w);
      }
    }
  }

  lemma SameKind(v: Value, w: Value)
    requires TypeOf(v) == TypeOf(w)
    ensures IsText(v) == IsText(w) && v.Sig? == w.Sig?
    ensures IsText(v) && Text(v) == Text(w) ==> v == w
  {
  }

  /** The value is a function of its type and its octets. */
  lemma PatternInside(v: Value)
    requires !IsText(v)
    ensures var n, u := Width(TypeOf(v)), FromFixed(Raw(v, Big), Big);
            n > 0 && u < Pow256(n) && Interpret(TypeOf(v), u) == v
  {
    hide Fixed, FromFixed, Interpret, Pattern, Pow256;
    PatternRoundTrip(v);
    FixedRoundTrip(Pattern(v), Width(TypeOf(v)), Big);
  }

  lemma TextInside(v: Value)
    requires IsText(v)
    ensures var r, from := Raw(v, Big), if v.Sig? then 1 else 4;
            from < |r| && r[from..|r| - 1] == Text(v)
  {
    hide Fixed;
  }

  /** The type code that stands before each kind of value. */
  lemma CodeOfValue(v: Value)
    ensures TypeToChar(TypeOf(v)) == Some(match v
                                          case Byte(_) => 'y' case Boolean(_) => 'b'
                                          case Int16(_) => 'n' case UInt16(_) => 'q'
                                          case Int32(_) => 'i' case UInt32(_) => 'u'
                                          case Int64(_) => 'x' case UInt64(_) => 't'
                                          case Double(_) => 'd' case Str(_) => 's'
                                          case ObjectPath(_) => 'o' case Sig(_) => 'g')
    ensures RawSignature(SignatureOf(v)) == [1, TypeToChar(TypeOf(v)).value as int, 0]
  {
  }

  /** A signature that starts with an array or a variant is followed by another variant as far as the
      reader goes, and that one is the result. */
  lemma ReadsOn(sig: seq<byte>, data: seq<byte>, pos: nat, e: Endianess)
    requires |sig| < TWO8 && At(data, pos, RawSignature(sig)) && FirstType(AsText(sig)) in {ARRAY, VARIANT}
    ensures DecodeVariant(data, pos, e) == DecodeVariant(data, pos + |sig| + 2, e)
  {
    hide FirstType, Decode, AsText, DecodeSignature;
    DecodeSignatureAt(sig, data, pos);
  }

  /** A variant inside a variant is read through: the inner one is the result. */
  lemma VariantInVariant(v: Value, data: seq<byte>, pos: nat, e: Endianess)
    requires Encodable(v)
    requires At(data, pos, [1, 'v' as int, 0] + VariantFormat(v, pos + 3, e))
    ensures DecodeVariant(data, pos, e) == Parsed(Basic(v), pos + 3 + |VariantFormat(v, pos + 3, e)|)
  {
    hide VariantFormat, DecodeSignature, FirstType, Decode, AsText;
    AtSplit(data, pos, [1, 'v' as int, 0], VariantFormat(v, pos + 3, e));
    var sig := ['v' as int];
    assert RawSignature(sig) == [1, 'v' as int, 0];
    DecodeSignatureAt(sig, data, pos);
    VariantCode(sig);
    DecodeVariantAt(v, data, pos + 3, e);
  }

  lemma VariantCode(sig: seq<byte>)
    requires sig == ['v' as int]
    ensures FirstType(AsText(sig)) == VARIANT
  {
    var s := AsText(sig);
    assert s == ['v'] && CharToType(s[0]) == VARIANT && !IsEnding(s[0]);
    assert Parse(s) == Loop(s, 0, [], [], true);
    assert Loop(s, 0, [], [], true) == Advance(s, 0, 0, [], [] + [Node(VARIANT, [])], true);
  }

  /** A signature that is rejected, or that starts with a struct, a dict entry or a descriptor, gives
      an empty variant, and nothing after the signature is read. */
  lemma EmptyVariant(sig: seq<byte>, data: seq<byte>, pos: nat, e: Endianess)
    requires |sig| < TWO8 && At(data, pos, RawSignature(sig))
    requires FirstType(AsText(sig)) in {STRUCT, DICT_ENTRY, UNIX_FD, INVALID}
    ensures DecodeVariant(data, pos, e) == Parsed(NoVariant, pos + |sig| + 2)
  {
    hide FirstType, Decode, AsText, DecodeSignature;
    DecodeSignatureAt(sig, data, pos);
  }

  // ----- the methods -----

  method MarshalVariant(m: Marshaling, v: Value)
    modifies m.buffer
    ensures m.buffer.data == old(m.buffer.data) + VariantBytes(v)
  {
    hide Raw, Code, Pad, Encode, RawSignature;
    var own := new Buffer();
    var into := new Marshaling(own, Big);
    into.Marshal(v);
    FromZero(v);
    m.MarshalSignature(SignatureOf(v));
    m.PushAll(own.data);
  }

  lemma FromZero(v: Value)
    ensures [] + Encode(v, 0, Big) == Raw(v, Big)
  {
    assert Pad(0, Align(v)) == [];
  }

  method DemarshalVariant(d: Demarshaling) returns (r: Option<Variant>)
    modifies d`pos
    ensures match DecodeVariant(d.data, old(d.pos), d.endian)
            case Abort => r == None
            case Parsed(v, p) => r == Some(v) && d.pos == p
    decreases |d.data| + 1 - d.pos
  {
    hide Decode, FirstType, Readable;
    var sig := d.DemarshalSignature();
    if sig == None { return None; }
    var t := FirstType(AsText(sig.value));
    if t == ARRAY || t == VARIANT {
      r := DemarshalVariant(d);
    } else if Readable(t) {
      var v := d.Demarshal(t);
      if v == None { return None; }
      r := Some(Basic(v.value));
    } else {
      r := Some(NoVariant);
    }
  }
}
