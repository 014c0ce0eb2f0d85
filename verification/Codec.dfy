/** The basic values and their wire form: `Marshaling` appends values to a shared
    octet vector, `Demarshaling` reads them back (marshaling.cpp, demarshaling.cpp). */
module Codec {
  import opened Bytes
  import opened Types

  /** A basic value. Doubles are their 64-bit patterns; strings are octet strings. */
  datatype Value =
    | Byte(y: byte)
    | Boolean(b: bool)
    | Int16(n: int16)
    | UInt16(q: uint16)
    | Int32(i: int32)
    | UInt32(u: uint32)
    | Int64(x: int64)
    | UInt64(t: uint64)
    | Double(bits: uint64)
    | Str(s: seq<byte>)
    | ObjectPath(o: seq<byte>)
    | Sig(g: seq<byte>)

  function TypeOf(v: Value): (t: DataType)
    ensures Readable(t)
  {
    match v
    case Byte(_) => BYTE
    case Boolean(_) => BOOLEAN
    case Int16(_) => INT16
    case UInt16(_) => UINT16
    case Int32(_) => INT32
    case UInt32(_) => UINT32
    case Int64(_) => INT64
    case UInt64(_) => UINT64
    case Double(_) => DOUBLE
    case Str(_) => STRING
    case ObjectPath(_) => OBJECT_PATH
    case Sig(_) => SIGNATURE
  }

  /** The types that hold a basic value. */
  predicate Readable(t: DataType) {
    !IsContainer(t) && t != UNIX_FD && t != INVALID
  }

  /** The values whose length prefix holds their length. */
  predicate Encodable(v: Value) {
    match v
    case Str(s) => |s| < TWO32
    case ObjectPath(s) => |s| < TWO32
    case Sig(s) => |s| < TWO8
    case _ => true
  }

  // ----- what a value looks like on the wire -----

  function RawString(s: seq<byte>, e: Endianess): seq<byte> {
    Fixed(|s| % TWO32, 4, e) + (s + [0])
  }

  function RawSignature(s: seq<byte>): seq<byte> {
    [|s| % TWO8] + (s + [0])
  }

  /** The octets of a fixed-width value; 0 for strings and signatures. */
  function Width(t: DataType): nat {
    match t
    case BYTE => 1
    case INT16 => 2
    case UINT16 => 2
    case BOOLEAN => 4
    case INT32 => 4
    case UINT32 => 4
    case INT64 => 8
    case UINT64 => 8
    case DOUBLE => 8
    case _ => 0
  }

  predicate IsText(v: Value) { v.Str? || v.ObjectPath? || v.Sig? }

  /** The unsigned integer that stands for a fixed-width value. */
  function Pattern(v: Value): nat
    requires !IsText(v)
  {
    match v
    case Byte(y) => y
    case Boolean(b) => if b then 1 else 0
    case Int16(n) => Unsigned(n, TWO16)
    case UInt16(q) => q
    case Int32(i) => Unsigned(i, TWO32)
    case UInt32(u) => u
    case Int64(x) => Unsigned(x, TWO64)
    case UInt64(t) => t
    case Double(bits) => bits
  }

  function Text(v: Value): seq<byte>
    requires IsText(v)
  {
    match v case Str(s) => s case ObjectPath(s) => s case Sig(s) => s
  }

  /** The octets of a value, without the padding before it. */
  function Raw(v: Value, e: Endianess): seq<byte> {
    if !IsText(v) then Fixed(Pattern(v), Width(TypeOf(v)), e)
    else if v.Sig? then RawSignature(v.g)
    else RawString(Text(v), e)
  }

  function Align(v: Value): Alignment { AlignmentOf(TypeOf(v)) }

  /** A value written at offset `off`: zero padding to its alignment, then its octets. */
  function Encode(v: Value, off: nat, e: Endianess): seq<byte> {
    Pad(off, Align(v)) + Raw(v, e)
  }

  function EncodeAll(vs: seq<Value>, off: nat, e: Endianess): seq<byte> {
    if vs == [] then []
    else
      var first := Encode(vs[0], off, e);
      first + EncodeAll(vs[1..], off + |first|, e)
  }

  // ----- reading -----

  /** An aligned integer of `n` octets at `pos`; `is_valid` aborts when it does not fit. */
  function DecodeFixed(n: nat, data: seq<byte>, pos: nat, e: Endianess): (r: Parsed<nat>)
    requires n == 1 || n == 2 || n == 4 || n == 8
    ensures r.Parsed? ==> r.value < Pow256(n) && r.pos <= |data| && pos < r.pos
  {
    var p := AlignUp(pos, n);
    if p + n > |data| then Abort
    else
      FromFixedBound(data[p..p + n], e);
      Parsed(FromFixed(data[p..p + n], e), p + n)
  }

  function DecodeByte(data: seq<byte>, pos: nat): (r: Parsed<byte>)
    ensures r.Parsed? ==> pos < r.pos <= |data|
  {
    if pos + 1 > |data| then Abort else Parsed(data[pos], pos + 1)
  }

  function DecodeString(data: seq<byte>, pos: nat, e: Endianess): (r: Parsed<seq<byte>>)
    ensures r.Parsed? ==> pos < r.pos <= |data|
  {
    match DecodeFixed(4, data, pos, e)
    case Abort => Abort
    case Parsed(len, p) =>
      if p + len + 1 > |data| then Abort else Parsed(data[p..p + len], p + len + 1)
  }

  /** `demarshal_signature` checks only its length octet: the terminator is skipped
      without being read, so the position may end one past the data. */
  function DecodeSignature(data: seq<byte>, pos: nat): (r: Parsed<seq<byte>>)
    ensures r.Parsed? ==> pos < r.pos <= |data| + 1
  {
    match DecodeByte(data, pos)
    case Abort => Abort
    case Parsed(len, p) =>
      if p + len > |data| then Abort else Parsed(data[p..p + len], p + len + 1)
  }

  /** The value of a fixed-width type that an unsigned pattern stands for. */
  function Interpret(t: DataType, u: nat): (v: Value)
    requires Width(t) > 0 && u < Pow256(Width(t))
    ensures TypeOf(v) == t
  {
    Pow256Values();
    match t
    case BYTE => Byte(u)
    case BOOLEAN => Boolean(u != 0)
    case INT16 => Int16(Signed(u, TWO16))
    case UINT16 => UInt16(u)
    case INT32 => Int32(Signed(u, TWO32))
    case UINT32 => UInt32(u)
    case INT64 => Int64(Signed(u, TWO64))
    case UINT64 => UInt64(u)
    case DOUBLE => Double(u)
  }

  function Decode(t: DataType, data: seq<byte>, pos: nat, e: Endianess): (r: Parsed<Value>)
    requires Readable(t)
    ensures r.Parsed? ==> pos < r.pos <= |data| + 1 && TypeOf(r.value) == t
  {
    if Width(t) > 0 then
      match DecodeFixed(Width(t), data, pos, e)
      case Abort => Abort
      case Parsed(u, p) => Parsed(Interpret(t, u), p)
    else if t == SIGNATURE then
      match DecodeSignature(data, pos)
      case Abort => Abort
      case Parsed(s, p) => Parsed(Sig(s), p)
    else
      match DecodeString(data, pos, e)
      case Abort => Abort
      case Parsed(s, p) => Parsed(if t == STRING then Str(s) else ObjectPath(s), p)
  }

  function DecodeAll(ts: seq<DataType>, data: seq<byte>, pos: nat, e: Endianess): Parsed<seq<Value>>
    requires forall t :: t in ts ==> Readable(t)
  {
    if ts == [] then Parsed([], pos)
    else match Decode(ts[0], data, pos, e)
      case Abort => Abort
      case Parsed(v, p) =>
        match DecodeAll(ts[1..], data, p, e)
        case Abort => Abort
        case Parsed(vs, q) => Parsed([v] + vs, q)
  }

  // ----- the codec reads back what it wrote -----

  lemma DecodeFixedAt(v: nat, n: nat, data: seq<byte>, pos: nat, e: Endianess)
    requires n == 1 || n == 2 || n == 4 || n == 8
    requires v < Pow256(n)
    requires At(data, AlignUp(pos, n), Fixed(v, n, e))
    ensures DecodeFixed(n, data, pos, e) == Parsed(v, AlignUp(pos, n) + n)
  {
    FixedRoundTrip(v, n, e);
  }

  lemma DecodeStringAt(s: seq<byte>, data: seq<byte>, pos: nat, e: Endianess)
    requires |s| < TWO32
    requires At(data, AlignUp(pos, 4), RawString(s, e))
    ensures DecodeString(data, pos, e) == Parsed(s, AlignUp(pos, 4) + |RawString(s, e)|)
  {
    hide *;
    var p := AlignUp(pos, 4);
    RawStringParts(s, e);
    AtSplit(data, p, Fixed(|s|, 4, e), s + [0]);
    AtSplit(data, p + 4, s, [0]);
    Pow256Values();
    DecodeFixedAt(|s|, 4, data, pos, e);
    DecodeAfterLength(s, data, pos, p + 4, e);
  }

  lemma RawStringParts(s: seq<byte>, e: Endianess)
    requires |s| < TWO32
    ensures RawString(s, e) == Fixed(|s|, 4, e) + (s + [0]) && |RawString(s, e)| == |s| + 5
  {
    hide Fixed;
  }

  lemma DecodeAfterLength(s: seq<byte>, data: seq<byte>, pos: nat, p: nat, e: Endianess)
    requires DecodeFixed(4, data, pos, e) == Parsed(|s|, p) && At(data, p, s) && At(data, p + |s|, [0])
    ensures DecodeString(data, pos, e) == Parsed(s, p + |s| + 1)
  {
    hide DecodeFixed;
  }

  lemma DecodeSignatureAt(s: seq<byte>, data: seq<byte>, pos: nat)
    requires |s| < TWO8
    requires At(data, pos, RawSignature(s))
    ensures DecodeSignature(data, pos) == Parsed(s, pos + |RawSignature(s)|)
  {
    AtSplit(data, pos, [|s|], s + [0]);
    AtSplit(data, pos + 1, s, [0]);
    assert data[pos..pos + 1][0] == |s|;
  }

  /** A value whose octets stand at its aligned position is read back, in either byte order. */
  lemma DecodeAt(v: Value, data: seq<byte>, pos: nat, e: Endianess)
    requires Encodable(v)
    requires At(data, AlignUp(pos, Align(v)), Raw(v, e))
    ensures Decode(TypeOf(v), data, pos, e) == Parsed(v, AlignUp(pos, Align(v)) + |Raw(v, e)|)
  {
    hide Fixed, Gap, DecodeFixed, DecodeString, DecodeSignature, Interpret, Pattern, RawString, RawSignature;
    if !IsText(v) {
      PatternRoundTrip(v);
      DecodeFixedAt(Pattern(v), Width(TypeOf(v)), data, pos, e);
    } else if v.Sig? {
      DecodeSignatureAt(v.g, data, pos);
    } else {
      DecodeStringAt(Text(v), data, pos, e);
    }
  }

  lemma PatternRoundTrip(v: Value)
    requires !IsText(v)
    ensures Width(TypeOf(v)) == Align(v)
    ensures Pattern(v) < Pow256(Width(TypeOf(v)))
    ensures Interpret(TypeOf(v), Pattern(v)) == v
  {
    Pow256Values();
  }

  lemma DecodeEncodedAt(v: Value, data: seq<byte>, pos: nat, e: Endianess)
    requires Encodable(v)
    requires At(data, pos, Encode(v, pos, e))
    ensures Decode(TypeOf(v), data, pos, e) == Parsed(v, pos + |Encode(v, pos, e)|)
  {
    hide Raw, Decode, Gap, Encodable, At, Align, TypeOf;
    AtSplit(data, pos, Pad(pos, Align(v)), Raw(v, e));
    DecodeAt(v, data, pos, e);
  }

  function TypesOf(vs: seq<Value>): (ts: seq<DataType>)
    ensures |ts| == |vs|
    ensures forall t :: t in ts ==> Readable(t)
  {
    if vs == [] then [] else [TypeOf(vs[0])] + TypesOf(vs[1..])
  }

  /** Basic-value codec: any heterogeneous list written after any prefix, in either byte
      order, is read back, and the read ends where the list ends. */
  lemma ListRoundTrip(vs: seq<Value>, before: seq<byte>, after: seq<byte>, e: Endianess)
    requires forall v :: v in vs ==> Encodable(v)
    ensures DecodeAll(TypesOf(vs), before + EncodeAll(vs, |before|, e) + after, |before|, e)
         == Parsed(vs, |before| + |EncodeAll(vs, |before|, e)|)
  {
    hide DecodeAll, EncodeAll, TypesOf, Encodable;
    var all := EncodeAll(vs, |before|, e);
    assert (before + all + after)[|before|..|before| + |all|] == all;
    DecodeAllAt(vs, before + all + after, |before|, e);
  }

  lemma {:induction false} DecodeAllAt(vs: seq<Value>, data: seq<byte>, pos: nat, e: Endianess)
    requires forall v :: v in vs ==> Encodable(v)
    requires At(data, pos, EncodeAll(vs, pos, e))
    ensures DecodeAll(TypesOf(vs), data, pos, e) == Parsed(vs, pos + |EncodeAll(vs, pos, e)|)
  {
    hide Decode, Encode, TypeOf, Readable, Encodable, At;
    if vs != [] {
      var first := Encode(vs[0], pos, e);
      AtSplit(data, pos, first, EncodeAll(vs[1..], pos + |first|, e));
      DecodeEncodedAt(vs[0], data, pos, e);
      DecodeAllAt(vs[1..], data, pos + |first|, e);
      TypesByHead(vs);
      assert vs == [vs[0]] + vs[1..];
    }
  }

  lemma TypesByHead(vs: seq<Value>)
    requires vs != []
    ensures TypesOf(vs)[0] == TypeOf(vs[0]) && TypesOf(vs)[1..] == TypesOf(vs[1..])
  {
    hide TypeOf;
  }

  /** A single value survives exactly when its length prefix can hold its length. */
  lemma RoundTripIff(v: Value, before: seq<byte>, e: Endianess)
    ensures Encodable(v) <==>
            Decode(TypeOf(v), before + Encode(v, |before|, e), |before|, e)
              == Parsed(v, |before| + |Encode(v, |before|, e)|)
  {
    hide Encode, Decode, Encodable, TypeOf;
    var data := before + Encode(v, |before|, e);
    assert data[|before|..] == Encode(v, |before|, e);
    if Encodable(v) {
      DecodeEncodedAt(v, data, |before|, e);
    } else {
      TruncatedAt(v, data, |before|, e);
    }
  }

  lemma TruncatedAt(v: Value, data: seq<byte>, pos: nat, e: Endianess)
    requires !Encodable(v) && At(data, pos, Encode(v, pos, e))
    ensures Decode(TypeOf(v), data, pos, e).Parsed? ==> Decode(TypeOf(v), data, pos, e).value != v
  {
    hide Fixed, Gap, DecodeFixed, DecodeString, DecodeSignature, Interpret, Pattern, RawString, RawSignature, At;
    AtSplit(data, pos, Pad(pos, Align(v)), Raw(v, e));
    if v.Sig? { TruncatedSignature(v.g, data, pos); } else { TruncatedString(Text(v), data, pos, e); }
  }

  lemma TruncatedSignature(s: seq<byte>, data: seq<byte>, pos: nat)
    requires |s| >= TWO8 && At(data, pos, RawSignature(s))
    ensures DecodeSignature(data, pos).Parsed? ==> DecodeSignature(data, pos).value != s
  {
    assert data[pos] == RawSignature(s)[0] == |s| % TWO8;
  }

  lemma TruncatedString(s: seq<byte>, data: seq<byte>, pos: nat, e: Endianess)
    requires |s| >= TWO32 && At(data, AlignUp(pos, 4), RawString(s, e))
    ensures DecodeString(data, pos, e).Parsed? ==> DecodeString(data, pos, e).value != s
  {
    hide Fixed, FromFixed, Gap, Pow256;
    Pow256Values();
    AtSplit(data, AlignUp(pos, 4), Fixed(|s| % TWO32, 4, e), s + [0]);
    DecodeFixedAt(|s| % TWO32, 4, data, pos, e);
  }

  /** Where each value of a list stands: at a multiple of its alignment, after fewer zero
      octets than the alignment (so the padding is minimal), and its octets follow. */
  lemma {:induction false} LayoutOf(vs: seq<Value>, off: nat, e: Endianess, k: nat)
    requires k < |vs|
    ensures var all, p := EncodeAll(vs, off, e), |EncodeAll(vs[..k], off, e)|;
            && Gap(off + p, Align(vs[k])) < Align(vs[k])
            && Multiple(AlignUp(off + p, Align(vs[k])), Align(vs[k]))
            && At(all, p, Pad(off + p, Align(vs[k])) + Raw(vs[k], e))
  {
    hide Raw, TypeOf, Gap, Multiple, Pad, Encode, EncodeAll, Align;
    var first := Encode(vs[0], off, e);
    var p := |EncodeAll(vs[..k], off, e)|;
    AlignUpIsMultiple(off + p, Align(vs[k]));
    EncodeAllByHead(vs, off, e);
    EncodeForm(vs[k], off + p, e);
    if k == 0 {
      assert vs[..0] == [];
      EncodeAllNone(off, e);
      assert (first + EncodeAll(vs[1..], off + |first|, e))[..|first|] == first;
    } else {
      LayoutOf(vs[1..], off + |first|, e, k - 1);
      assert vs[1..][..k - 1] == vs[..k][1..] && vs[..k][0] == vs[0];
      EncodeAllByHead(vs[..k], off, e);
      AtLater(first, EncodeAll(vs[1..], off + |first|, e), p - |first|, Encode(vs[k], off + p, e));
    }
  }

  lemma EncodeForm(v: Value, off: nat, e: Endianess)
    ensures Encode(v, off, e) == Pad(off, Align(v)) + Raw(v, e) && Gap(off, Align(v)) < Align(v)
  {
  }

  lemma EncodeAllByHead(vs: seq<Value>, off: nat, e: Endianess)
    requires vs != []
    ensures var first := Encode(vs[0], off, e);
            EncodeAll(vs, off, e) == first + EncodeAll(vs[1..], off + |first|, e)
  {
    hide Encode;
  }

  lemma EncodeAllNone(off: nat, e: Endianess)
    ensures EncodeAll([], off, e) == []
  {
  }

  lemma AtLater(first: seq<byte>, rest: seq<byte>, p: nat, bytes: seq<byte>)
    requires At(rest, p, bytes)
    ensures At(first + rest, |first| + p, bytes)
  {
    assert (first + rest)[|first| + p..|first| + p + |bytes|] == rest[p..p + |bytes|];
  }

  // ----- what the D-Bus specification says of the octets -----

  /** A string or an object path: padding to 4, its length in four octets, its octets, and a NUL. */
  lemma StringOctets(v: Value, off: nat, e: Endianess)
    requires v.Str? || v.ObjectPath?
    ensures var all, s, p := Encode(v, off, e), Text(v), (4 - off % 4) % 4;
            && |all| == p + 4 + |s| + 1 && all[..p] == Zeros(p)
            && all[p..p + 4] == Fixed(|s| % 0x1_0000_0000, 4, e)
            && all[p + 4..p + 4 + |s|] == s && all[p + 4 + |s|] == 0
  {
    hide Fixed, Gap, Zeros, Encode, Text;
    GapOfFour(off);
    StringForm(v, off, e);
    FourParts(Pad(off, 4), Fixed(|Text(v)| % 0x1_0000_0000, 4, e), Text(v));
  }

  lemma GapOfFour(off: nat)
    ensures Gap(off, 4) == (4 - off % 4) % 4
  {
  }

  lemma StringForm(v: Value, off: nat, e: Endianess)
    requires v.Str? || v.ObjectPath?
    ensures Encode(v, off, e) == Pad(off, 4) + (Fixed(|Text(v)| % 0x1_0000_0000, 4, e) + (Text(v) + [0]))
  {
    hide Fixed, Pad;
  }

  lemma FourParts(p: seq<byte>, len: seq<byte>, s: seq<byte>)
    requires |len| == 4
    ensures var all := p + (len + (s + [0]));
            && |all| == |p| + 4 + |s| + 1 && all[..|p|] == p && all[|p|..|p| + 4] == len
            && all[|p| + 4..|p| + 4 + |s|] == s && all[|p| + 4 + |s|] == 0
  {
  }

  /** A signature: its length in one octet, its octets, and a NUL, without padding. */
  lemma SignatureOctets(g: seq<byte>, off: nat, e: Endianess)
    ensures var all := Encode(Sig(g), off, e);
            |all| == |g| + 2 && all[0] == |g| % 256 && all[1..|g| + 1] == g && all[|g| + 1] == 0
  {
    SignatureForm(g, off, e);
    hide Encode;
    ThreeParts(|g| % 256, g);
  }

  lemma SignatureForm(g: seq<byte>, off: nat, e: Endianess)
    ensures Encode(Sig(g), off, e) == [|g| % 256] + (g + [0])
  {
    hide Gap, Fixed, RawSignature;
    assert Encode(Sig(g), off, e) == Pad(off, 1) + RawSignature(g);
    NoPadding(off);
    assert RawSignature(g) == [|g| % 256] + (g + [0]) by { SignatureRaw(g); }
    assert [] + RawSignature(g) == RawSignature(g);
  }

  lemma NoPadding(off: nat)
    ensures Pad(off, 1) == []
  {
  }

  lemma SignatureRaw(g: seq<byte>)
    ensures RawSignature(g) == [|g| % 256] + (g + [0])
  {
  }

  lemma ThreeParts(len: byte, g: seq<byte>)
    ensures var all := [len] + (g + [0]);
            |all| == |g| + 2 && all[0] == len && all[1..|g| + 1] == g && all[|g| + 1] == 0
  {
  }

  /** The octets that a number takes. */
  function NumberWidth(v: Value): nat {
    if v.Byte? then 1 else if v.Int16? || v.UInt16? then 2 else if v.Int64? || v.UInt64? || v.Double? then 8 else 4
  }

  /** A fixed-width value takes as many octets as its type says, at a multiple of that number. */
  lemma NumberOctets(v: Value, off: nat, e: Endianess)
    requires !IsText(v)
    ensures var all, n := Encode(v, off, e), NumberWidth(v);
            && n <= |all| < 2 * n && (off + |all|) % n == 0
            && all[|all| - n..] == Fixed(Pattern(v), n, e) && all[..|all| - n] == Zeros(|all| - n)
  {
    NumberForm(v, off, e);
    SumModuloNumberOf(off, Align(v));
    hide Encode, Fixed, Gap, Pattern, Zeros, Align, NumberWidth;
    TwoParts(Pad(off, Align(v)), Fixed(Pattern(v), NumberWidth(v), e));
  }

  lemma NumberForm(v: Value, off: nat, e: Endianess)
    requires !IsText(v)
    ensures Align(v) == NumberWidth(v) && Encode(v, off, e) == Pad(off, Align(v)) + Fixed(Pattern(v), NumberWidth(v), e)
  {
    hide Fixed, Gap, Pattern;
  }

  lemma TwoParts(a: seq<byte>, b: seq<byte>)
    ensures (a + b)[|a|..] == b && (a + b)[..|a|] == a && |a + b| == |a| + |b|
  {
  }

  /** The numbers in those octets: two's complement for the signed types, 1 for true. */
  lemma NumbersModulo(v: Value)
    ensures v.Boolean? ==> Pattern(v) == if v.b then 1 else 0
    ensures v.Int16? ==> Pattern(v) == v.n % 0x1_0000
    ensures v.Int32? ==> Pattern(v) == v.i % 0x1_0000_0000
    ensures v.Int64? ==> Pattern(v) == v.x % 0x1_0000_0000_0000_0000
  {
  }

  lemma SumModuloNumberOf(off: nat, a: Alignment)
    ensures (AlignUp(off, a) + a) % a == 0
  {
    AlignUpIsMultiple(off, a);
    if a == 2 { SumModuloNumber(AlignUp(off, 2), 2, 2); }
    else if a == 4 { SumModuloNumber(AlignUp(off, 4), 4, 4); }
    else if a == 8 { SumModuloNumber(AlignUp(off, 8), 8, 8); }
  }

  /** When a read stops the program: an aligned integer or a string with its NUL must lie inside the
      data; of a signature only the octets must, and its NUL is passed over unseen. */
  lemma DecodeStopsIff(data: seq<byte>, pos: nat, e: Endianess, n: nat)
    requires n == 1 || n == 2 || n == 4 || n == 8
    ensures DecodeFixed(n, data, pos, e).Abort? <==> AlignUp(pos, n) + n > |data|
    ensures DecodeString(data, pos, e).Abort? <==>
              AlignUp(pos, 4) + 4 > |data|
              || AlignUp(pos, 4) + 4 + FromFixed(data[AlignUp(pos, 4)..AlignUp(pos, 4) + 4], e) + 1 > |data|
    ensures DecodeSignature(data, pos).Abort? <==> pos + 1 > |data| || pos + 1 + data[pos] > |data|
  {
    hide FromFixed, Gap, Pow256;
  }

  /** Any number other than 0 is read as true. */
  lemma AnyNonzeroIsTrue(u: uint32, data: seq<byte>, pos: nat, e: Endianess)
    requires At(data, AlignUp(pos, 4), Fixed(u, 4, e))
    ensures Decode(BOOLEAN, data, pos, e) == Parsed(Boolean(u != 0), AlignUp(pos, 4) + 4)
  {
    hide Fixed, FromFixed, Gap, Pow256, DecodeFixed;
    Pow256Values();
    DecodeFixedAt(u, 4, data, pos, e);
  }
}
