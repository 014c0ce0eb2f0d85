/** The two objects that move values to and from octets. `Marshaling` appends to a vector
    it shares with its owner; `Demarshaling` moves a read position over fixed data. */
module Wire {
  import opened Bytes
  import opened Types
  import opened Codec

  // ----- the octets that shifts and masks pick out -----

  function Quarter(v: nat): seq<byte> {
    [v % 0x100, v / 0x100 % 0x100, v / 0x1_0000 % 0x100, v / 0x100_0000 % 0x100]
  }

  lemma ShiftedBytes(v: nat)
    ensures LittleBytes(v, 2) == [v % 0x100, v / 0x100 % 0x100]
    ensures LittleBytes(v, 4) == Quarter(v)
  {
    var a := v / 0x100;
    var b := a / 0x100;
    assert b == v / 0x1_0000 && b / 0x100 == v / 0x100_0000;
    assert LittleBytes(v, 2) == [v % 0x100] + LittleBytes(a, 1);
    assert LittleBytes(a, 1) == [a % 0x100] + LittleBytes(b, 0);
    assert LittleBytes(v, 4) == [v % 0x100] + LittleBytes(a, 3);
    assert LittleBytes(a, 3) == [a % 0x100] + LittleBytes(b, 2);
    assert LittleBytes(b, 2) == [b % 0x100] + LittleBytes(b / 0x100, 1);
    assert LittleBytes(b / 0x100, 1) == [b / 0x100 % 0x100] + LittleBytes(b / 0x100 / 0x100, 0);
  }

  function DropOctets(v: nat, n: nat): nat {
    if n == 0 then v else DropOctets(v / 256, n - 1)
  }

  lemma {:induction false} LittleBytesSplit(v: nat, n: nat, m: nat)
    ensures LittleBytes(v, n + m) == LittleBytes(v, n) + LittleBytes(DropOctets(v, n), m)
  {
    if n > 0 { LittleBytesSplit(v / 256, n - 1, m); }
  }

  lemma DropFour(v: nat)
    ensures DropOctets(v, 4) == v / 0x1_0000_0000
  {
    var a := v / 256 / 256;
    assert a == v / 0x1_0000;
    assert a / 256 / 256 == a / 0x1_0000 == v / 0x1_0000_0000;
    assert DropOctets(v, 4) == DropOctets(v / 256, 3);
    assert DropOctets(v / 256, 3) == DropOctets(a, 2);
    assert DropOctets(a, 2) == DropOctets(a / 256, 1);
    assert DropOctets(a / 256, 1) == DropOctets(a / 256 / 256, 0);
  }

  lemma HighQuarter(v: nat)
    ensures Quarter(v / 0x1_0000_0000)
         == [v / 0x1_0000_0000 % 0x100, v / 0x100_0000_0000 % 0x100,
             v / 0x1_0000_0000_0000 % 0x100, v / 0x100_0000_0000_0000 % 0x100]
  {
    var b := v / 0x1_0000_0000;
    assert b / 0x100 == v / 0x100_0000_0000;
    assert b / 0x1_0000 == v / 0x1_0000_0000_0000;
    assert b / 0x100_0000 == v / 0x100_0000_0000_0000;
  }

  lemma ShiftedBytes8(v: nat)
    ensures LittleBytes(v, 8) == Quarter(v)
              + [v / 0x1_0000_0000 % 0x100, v / 0x100_0000_0000 % 0x100,
                 v / 0x1_0000_0000_0000 % 0x100, v / 0x100_0000_0000_0000 % 0x100]
  {
    LittleBytesSplit(v, 4, 4);
    DropFour(v);
    HighQuarter(v);
    hide LittleBytes, DropOctets;
    ShiftedBytes(v);
    ShiftedBytes(v / 0x1_0000_0000);
  }

  lemma ReverseOf(s: seq<byte>, t: seq<byte>)
    requires |s| == |t| && forall i :: 0 <= i < |s| ==> t[i] == s[|s| - 1 - i]
    ensures Reverse(s) == t
  {
  }

  lemma LittleOctets8(v: nat)
    ensures Fixed(v, 8, Little)
         == [v % 0x100, v / 0x100 % 0x100, v / 0x1_0000 % 0x100, v / 0x100_0000 % 0x100,
             v / 0x1_0000_0000 % 0x100, v / 0x100_0000_0000 % 0x100,
             v / 0x1_0000_0000_0000 % 0x100, v / 0x100_0000_0000_0000 % 0x100]
  {
    hide LittleBytes;
    ShiftedBytes8(v);
  }

  lemma BigOctets8(v: nat)
    ensures Fixed(v, 8, Big)
         == [v / 0x100_0000_0000_0000 % 0x100, v / 0x1_0000_0000_0000 % 0x100,
             v / 0x100_0000_0000 % 0x100, v / 0x1_0000_0000 % 0x100,
             v / 0x100_0000 % 0x100, v / 0x1_0000 % 0x100, v / 0x100 % 0x100, v % 0x100]
  {
    hide LittleBytes;
    ShiftedBytes8(v);
    ReverseOf(LittleBytes(v, 8),
              [v / 0x100_0000_0000_0000 % 0x100, v / 0x1_0000_0000_0000 % 0x100,
               v / 0x100_0000_0000 % 0x100, v / 0x1_0000_0000 % 0x100,
               v / 0x100_0000 % 0x100, v / 0x1_0000 % 0x100, v / 0x100 % 0x100, v % 0x100]);
  }

  lemma FixedForm(v: Value, off: nat, e: Endianess)
    requires !IsText(v)
    ensures Encode(v, off, e) == Pad(off, Codec.Align(v)) + Fixed(Pattern(v), Width(TypeOf(v)), e)
    ensures v.Byte? ==> Encode(v, off, e) == Fixed(v.y, 1, e)
  {
    hide Fixed;
  }

  lemma TextForm(v: Value, off: nat, e: Endianess)
    requires IsText(v)
    ensures Encode(v, off, e) == if v.Sig? then RawSignature(v.g) else Pad(off, 4) + RawString(Text(v), e)
  {
    hide RawString, RawSignature;
  }

  class Marshaling {
    const buffer: Buffer
    var endian: Endianess

    constructor (buffer: Buffer, endian: Endianess)
      ensures this.buffer == buffer && this.endian == endian
    {
      this.buffer := buffer;
      this.endian := endian;
    }

    method MarshalByte(v: byte)
      modifies buffer
      ensures buffer.data == old(buffer.data) + [v]
    {
      buffer.data := buffer.data + [v];
    }

    method Align(alignment: Alignment)
      modifies buffer
      ensures buffer.data == old(buffer.data) + Pad(|old(buffer.data)|, alignment)
    {
      var bytesToAlign := alignment - |buffer.data| % alignment;
      GapIsDistance(|buffer.data|, alignment);
      if bytesToAlign == alignment {
        return;
      }
      for x := 0 to bytesToAlign
        invariant buffer.data == old(buffer.data) + Zeros(x)
      {
        MarshalByte(0);
      }
    }

    method MarshalShort(v: uint16)
      modifies buffer
      ensures buffer.data == old(buffer.data) + Pad(|old(buffer.data)|, 2) + Fixed(v, 2, endian)
    {
      Align(2);
      ShiftedBytes(v);
      if endian == Big {
        ReverseOf(LittleBytes(v, 2), [v / 0x100 % 0x100, v % 0x100]);
        MarshalByte(v / 0x100 % 0x100);
        MarshalByte(v % 0x100);
      } else {
        MarshalByte(v % 0x100);
        MarshalByte(v / 0x100 % 0x100);
      }
    }

    method MarshalInt(v: uint32)
      modifies buffer
      ensures buffer.data == old(buffer.data) + Pad(|old(buffer.data)|, 4) + Fixed(v, 4, endian)
    {
      Align(4);
      ShiftedBytes(v);
      if endian == Big {
        ReverseOf(LittleBytes(v, 4),
                  [v / 0x100_0000 % 0x100, v / 0x1_0000 % 0x100, v / 0x100 % 0x100, v % 0x100]);
        MarshalByte(v / 0x100_0000 % 0x100);
        MarshalByte(v / 0x1_0000 % 0x100);
        MarshalByte(v / 0x100 % 0x100);
        MarshalByte(v % 0x100);
      } else {
        MarshalByte(v % 0x100);
        MarshalByte(v / 0x100 % 0x100);
        MarshalByte(v / 0x1_0000 % 0x100);
        MarshalByte(v / 0x100_0000 % 0x100);
      }
    }

    method MarshalLongBig(v: uint64)
      modifies buffer
      ensures buffer.data == old(buffer.data) + Pad(|old(buffer.data)|, 8) + Fixed(v, 8, Big)
    {
      hide *;
      Align(8);
      ghost var start := buffer.data;
      MarshalByte(v / 0x100_0000_0000_0000 % 0x100);
      MarshalByte(v / 0x1_0000_0000_0000 % 0x100);
      MarshalByte(v / 0x100_0000_0000 % 0x100);
      MarshalByte(v / 0x1_0000_0000 % 0x100);
      MarshalByte(v / 0x100_0000 % 0x100);
      MarshalByte(v / 0x1_0000 % 0x100);
      MarshalByte(v / 0x100 % 0x100);
      MarshalByte(v % 0x100);
      BigOctets8(v);
      assert buffer.data == start + Fixed(v, 8, Big);
    }

    method MarshalLongLittle(v: uint64)
      modifies buffer
      ensures buffer.data == old(buffer.data) + Pad(|old(buffer.data)|, 8) + Fixed(v, 8, Little)
    {
      hide *;
      Align(8);
      ghost var start := buffer.data;
      MarshalByte(v % 0x100);
      MarshalByte(v / 0x100 % 0x100);
      MarshalByte(v / 0x1_0000 % 0x100);
      MarshalByte(v / 0x100_0000 % 0x100);
      MarshalByte(v / 0x1_0000_0000 % 0x100);
      MarshalByte(v / 0x100_0000_0000 % 0x100);
      MarshalByte(v / 0x1_0000_0000_0000 % 0x100);
      MarshalByte(v / 0x100_0000_0000_0000 % 0x100);
      LittleOctets8(v);
      assert buffer.data == start + Fixed(v, 8, Little);
    }

    method MarshalLong(v: uint64)
      modifies buffer
      ensures buffer.data == old(buffer.data) + Pad(|old(buffer.data)|, 8) + Fixed(v, 8, endian)
    {
      if endian == Big { MarshalLongBig(v); } else { MarshalLongLittle(v); }
    }

    method PushAll(s: seq<byte>)
      modifies buffer
      ensures buffer.data == old(buffer.data) + s
    {
      for i := 0 to |s|
        invariant buffer.data == old(buffer.data) + s[..i]
      {
        MarshalByte(s[i]);
      }
    }

    method MarshalString(s: seq<byte>)
      modifies buffer
      ensures buffer.data == old(buffer.data) + Pad(|old(buffer.data)|, 4) + RawString(s, endian)
    {
      MarshalInt(|s| % TWO32);
      PushAll(s);
      MarshalByte(0);
    }

    method MarshalSignature(s: seq<byte>)
      modifies buffer
      ensures buffer.data == old(buffer.data) + RawSignature(s)
    {
      MarshalByte(|s| % TWO8);
      PushAll(s);
      MarshalByte(0);
    }

    /** The overloaded `marshal`: whatever the buffer holds, the value is appended in its
        aligned wire form. */
    method Marshal(v: Value)
      modifies buffer
      ensures buffer.data == old(buffer.data) + Encode(v, |old(buffer.data)|, endian)
    {
      hide Fixed, Gap, RawString, RawSignature, LittleBytes, Pad, Encode, Raw;
      ghost var off := |buffer.data|;
      if IsText(v) { TextForm(v, off, endian); } else { FixedForm(v, off, endian); }
      match v
      case Byte(y) =>
        ByteIsFixed(y, endian);
        MarshalByte(y);
      case Boolean(b) => MarshalInt(if b then 1 else 0);
      case Int16(n) => MarshalShort(Unsigned(n, TWO16));
      case UInt16(q) => MarshalShort(q);
      case Int32(i) => MarshalInt(Unsigned(i, TWO32));
      case UInt32(u) => MarshalInt(u);
      case Int64(x) => MarshalLong(Unsigned(x, TWO64));
      case UInt64(t) => MarshalLong(t);
      case Double(bits) => MarshalLong(bits);
      case Str(s) => MarshalString(s);
      case ObjectPath(s) => MarshalString(s);
      case Sig(s) => MarshalSignature(s);
    }

    /** Overwrites four octets in place, for a length that is known only afterwards. */
    method MarshalAtOffset(offset: nat, v: uint32)
      requires offset + 4 <= |buffer.data|
      modifies buffer
      ensures buffer.data == old(buffer.data)[..offset] + Fixed(v, 4, endian) + old(buffer.data)[offset + 4..]
    {
      ShiftedBytes(v);
      var was := buffer.data;
      if endian == Little {
        buffer.data := buffer.data[offset := v % 0x100];
        buffer.data := buffer.data[offset + 1 := v / 0x100 % 0x100];
        buffer.data := buffer.data[offset + 2 := v / 0x1_0000 % 0x100];
        buffer.data := buffer.data[offset + 3 := v / 0x100_0000 % 0x100];
      } else {
        ReverseOf(LittleBytes(v, 4),
                  [v / 0x100_0000 % 0x100, v / 0x1_0000 % 0x100, v / 0x100 % 0x100, v % 0x100]);
        buffer.data := buffer.data[offset := v / 0x100_0000 % 0x100];
        buffer.data := buffer.data[offset + 1 := v / 0x1_0000 % 0x100];
        buffer.data := buffer.data[offset + 2 := v / 0x100 % 0x100];
        buffer.data := buffer.data[offset + 3 := v % 0x100];
      }
    }
  }

  lemma ByteIsFixed(y: byte, e: Endianess)
    ensures Fixed(y, 1, e) == [y]
  {
    assert LittleBytes(y, 1) == [y] + LittleBytes(y / 256, 0);
  }

  /** The padding count of the code, `alignment - size % alignment` with the full
      alignment standing for none, is the gap to the next multiple. */
  lemma GapIsDistance(off: nat, a: Alignment)
    ensures a - off % a == if Gap(off, a) == 0 then a else Gap(off, a)
  {
    if a == 1 {} else if a == 2 {} else if a == 4 {} else { assert a == 8; }
  }

  /** The reader. A read that fails its bounds assertion, or would leave the data, returns
      `None`; the position is then unspecified by the source and kept here. */
  class Demarshaling {
    const data: seq<byte>
    var pos: nat
    var endian: Endianess

    constructor (data: seq<byte>, endian: Endianess)
      ensures this.data == data && this.endian == endian && pos == 0
    {
      this.data := data;
      this.endian := endian;
      pos := 0;
    }

    method DemarshalByte() returns (r: Option<byte>)
      modifies this`pos
      ensures Took(DecodeByte(data, old(pos)), old(pos), r, pos)
    {
      if pos + 1 > |data| { return None; }
      r := Some(data[pos]);
      pos := pos + 1;
    }

    /** `align`, where an alignment of 0 leaves the position alone. */
    method Align(alignment: nat)
      requires alignment in {0, 1, 2, 4, 8}
      modifies this`pos
      ensures pos == if alignment == 0 then old(pos) else AlignUp(old(pos), alignment)
    {
      if alignment == 0 { return; }
      var bytesToAlign := alignment - pos % alignment;
      GapIsDistance(pos, alignment);
      if bytesToAlign == alignment { return; }
      pos := pos + bytesToAlign;
    }

    /** `demarshalShort`, `demarshalInt` and `demarshalLong` in the two byte orders: octet k
        of a little-endian integer weighs 256 to the k, octet k from the end of a big-endian one. */
    method DemarshalFixed(n: nat) returns (r: Option<nat>)
      requires n in {1, 2, 4, 8}
      modifies this`pos
      ensures match DecodeFixed(n, data, old(pos), endian)
              case Abort => r == None
              case Parsed(u, p) => r == Some(u) && pos == p
    {
      hide FromFixed, Gap, Fixed, Pow256;
      Align(n);
      if pos + n > |data| { return None; }
      var sum := Combine(data[pos..pos + n]);
      r := Some(sum);
      pos := pos + n;
    }

    method Combine(octets: seq<byte>) returns (sum: nat)
      ensures sum == FromFixed(octets, endian)
    {
      var ordered := if endian == Little then octets else Reverse(octets);
      var k := |octets|;
      sum := 0;
      while k > 0
        invariant 0 <= k <= |octets|
        invariant sum == FromLittle(ordered[k..])
      {
        k := k - 1;
        assert ordered[k..][1..] == ordered[k + 1..];
        sum := ordered[k] + 256 * sum;
      }
      assert ordered[0..] == ordered;
    }

    method DemarshalString() returns (r: Option<seq<byte>>)
      modifies this`pos
      ensures Took(DecodeString(data, old(pos), endian), old(pos), r, pos)
    {
      var start := pos;
      var len := DemarshalFixed(4);
      if len == None { pos := start; return None; }
      if pos + len.value + 1 > |data| { pos := start; return None; }
      r := Some(data[pos..pos + len.value]);
      pos := pos + len.value + 1;
    }

    method DemarshalSignature() returns (r: Option<seq<byte>>)
      modifies this`pos
      ensures Took(DecodeSignature(data, old(pos)), old(pos), r, pos)
    {
      var start := pos;
      var len := DemarshalByte();
      if len == None { return None; }
      if pos + len.value > |data| { pos := start; return None; }
      r := Some(data[pos..pos + len.value]);
      pos := pos + len.value + 1;
    }

    /** The typed `demarshal_*` members: what they return and where they leave the position
        is the decoding of the data at the old position. */
    method Demarshal(t: DataType) returns (r: Option<Value>)
      requires Readable(t)
      modifies this`pos
      ensures Took(Decode(t, data, old(pos), endian), old(pos), r, pos)
    {
      var start := pos;
      if Width(t) > 0 {
        var u := DemarshalFixed(Width(t));
        if u == None { pos := start; return None; }
        r := Some(Interpret(t, u.value));
      } else if t == SIGNATURE {
        var s := DemarshalSignature();
        if s == None { return None; }
        r := Some(Sig(s.value));
      } else {
        var s := DemarshalString();
        if s == None { return None; }
        r := Some(if t == STRING then Str(s.value) else ObjectPath(s.value));
      }
    }
  }

  /** A stateful read did what the decoding function says. */
  predicate Took<T(==)>(spec: Parsed<T>, before: nat, r: Option<T>, after: nat) {
    match spec
    case Abort => r == None && after == before
    case Parsed(v, p) => r == Some(v) && after == p
  }
}
