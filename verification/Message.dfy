/** Whole messages (message.cpp): the printer `serialize_to_vector`, the parser
    `create_from_data`, and the fields they work on. */
module Messages {
  import opened Bytes
  import opened Codec
  import opened Wire
  import opened Variants

  type HeaderField = k: nat | k <= 9

  const INVALID_FIELD: HeaderField := 0
  const REPLY_SERIAL: HeaderField := 5
  const SIGNATURE_FIELD: HeaderField := 8
  const UNIX_FDS: HeaderField := 9

  type Headers = map<HeaderField, Variant>

  datatype Kind = CALL | RETURN | ERROR | SIGNAL

  /** What a message is: its subclass and its private data. */
  datatype Msg = Msg(kind: Kind, flags: byte, serial: uint32, headers: Headers, body: seq<byte>,
                     fds: seq<int>, endian: Endianess)

  const MAX_MESSAGE: nat := 0x800_0000

  function KindCode(k: Kind): byte {
    match k case CALL => 1 case RETURN => 2 case ERROR => 3 case SIGNAL => 4
  }

  function KindOf(c: byte): Option<Kind> {
    if c == 1 then Some(CALL) else if c == 2 then Some(RETURN)
    else if c == 3 then Some(ERROR) else if c == 4 then Some(SIGNAL) else None
  }

  /** `header_field`. */
  function Field(h: Headers, k: nat): Variant {
    if k in h then h[k] else NoVariant
  }

  /** `append_signature` extends the signature text, or throws (`None`) when the field holds
      something else. A text of 256 octets or more has lost its length already: reading it gives
      it cut to its length modulo 256. */
  function WithSignature(h: Headers, text: seq<byte>): Option<Headers> {
    match Field(h, SIGNATURE_FIELD)
    case NoVariant => Some(h[SIGNATURE_FIELD := Basic(Sig(text))])
    case Basic(Sig(g)) => Some(h[SIGNATURE_FIELD := Basic(Sig(g[..|g| % 256] + text))])
    case _ => None
  }

  // ----- writing -----

  /** The header fields from key `k` on, in key order, as the writer appends them at `off`. */
  function Fields(h: Headers, k: nat, off: nat): seq<byte>
    decreases 10 - k
  {
    if k > 9 then []
    else match Field(h, k)
      case NoVariant => Fields(h, k + 1, off)
      case Basic(v) => OneField(k, v, off) + Fields(h, k + 1, off + |OneField(k, v, off)|)
  }

  function OneField(k: byte, v: Value, off: nat): seq<byte> {
    Pad(off, 8) + ([k] + VariantBytes(v))
  }

  lemma FieldsStep(h: Headers, k: byte, v: Value, before: seq<byte>)
    requires k <= 9 && Field(h, k) == Basic(v)
    ensures before + Fields(h, k, |before|)
         == before + OneField(k, v, |before|) + Fields(h, k + 1, |before| + |OneField(k, v, |before|)|)
  {
    hide *;
    FieldsByHead(h, k, |before|);
    Associative(before, OneField(k, v, |before|), Fields(h, k + 1, |before| + |OneField(k, v, |before|)|));
  }

  lemma FieldsByHead(h: Headers, k: nat, off: nat)
    requires k <= 9
    ensures Fields(h, k, off)
         == match Field(h, k)
            case NoVariant => Fields(h, k + 1, off)
            case Basic(v) => OneField(k, v, off) + Fields(h, k + 1, off + |OneField(k, v, off)|)
  {
    hide OneField;
  }

  lemma NoFieldsLeft(h: Headers, before: seq<byte>)
    ensures before + Fields(h, 10, |before|) == before
  {
  }

  method WriteField(m: Marshaling, k: byte, v: Value)
    requires m.endian == Big
    modifies m.buffer
    ensures m.buffer.data == old(m.buffer.data) + OneField(k, v, |old(m.buffer.data)|)
  {
    hide Pad, VariantBytes;
    m.Align(8);
    m.MarshalByte(k);
    MarshalVariant(m, v);
  }

  /** Replies need a reply serial, and 0 is none. */
  predicate MissingReply(kind: Kind, h: Headers) {
    (kind == RETURN || kind == ERROR)
    && match Field(h, REPLY_SERIAL) case Basic(UInt32(n)) => n == 0 case _ => true
  }

  function Patch(s: seq<byte>, at: nat, w: seq<byte>): (r: seq<byte>)
    requires at + |w| <= |s|
    ensures |r| == |s|
  {
    s[..at] + w + s[at + |w|..]
  }

  function AppendWord(s: seq<byte>, x: uint32): (r: seq<byte>)
    ensures |r| >= |s| + 4
  {
    s + Encode(UInt32(x), |s|, Big)
  }

  /** `pre` and the first eight octets. */
  function Opening(pre: seq<byte>, m: Msg): seq<byte> {
    AppendWord(pre + ['B' as int, KindCode(m.kind), m.flags, 1], |m.body| % TWO32)
  }

  /** Everything before the body, with a zero for the length of the header array. */
  function Unpatched(pre: seq<byte>, m: Msg, serial: uint32): (r: seq<byte>)
    ensures |r| >= 16
  {
    var d := AppendWord(AppendWord(Opening(pre, m), serial), 0);
    d + Fields(m.headers, 0, |d|)
  }

  /** What `serialize_to_vector` leaves in a vector that held `pre`. */
  function Serialized(pre: seq<byte>, m: Msg, serial: uint32): seq<byte> {
    if MissingReply(m.kind, m.headers) then Opening(pre, m)
    else
      var f := Unpatched(pre, m, serial);
      var g := Patch(f, 12, Fixed((|f| - 16) % TWO32, 4, Big));
      g + Pad(|g|, 8) + m.body
  }

  predicate Accepted(pre: seq<byte>, m: Msg, serial: uint32) {
    !MissingReply(m.kind, m.headers) && |Serialized(pre, m, serial)| < MAX_MESSAGE
  }

  // ----- reading -----

  /** The first sixteen octets. */
  datatype Prologue = Prologue(endian: Endianess, kind: byte, flags: byte, version: byte,
                               bodyLen: uint32, serial: uint32, arrayLen: uint32)

  function ReadPrologue(data: seq<byte>): Option<Prologue> {
    if |data| < 16 then None
    else
      var e := if data[0] == 'l' as int then Little else Big;
      Some(Prologue(e, data[1], data[2], data[3], Word(data, 4, e), Word(data, 8, e), Word(data, 12, e)))
  }

  function Word(data: seq<byte>, at: nat, e: Endianess): uint32
    requires at + 4 <= |data|
  {
    Pow256Values();
    FromFixedBound(data[at..at + 4], e);
    FromFixed(data[at..at + 4], e)
  }

  lemma WordAt(data: seq<byte>, at: nat, e: Endianess)
    requires at % 4 == 0
    ensures DecodeFixed(4, data, at, e) == if at + 4 > |data| then Abort else Parsed(Word(data, at, e), at + 4)
  {
  }

  datatype Header = Header(headers: Headers, fds: seq<int>)

  /** `int_to_header_field`. */
  function FieldOf(key: byte): HeaderField { if 1 <= key <= 9 then key else INVALID_FIELD }

  function ReadField(data: seq<byte>, pos: nat, e: Endianess): (r: Parsed<(byte, Variant)>)
    ensures r.Parsed? ==> pos < r.pos
  {
    match DecodeByte(data, AlignUp(pos, 8))
    case Abort => Abort
    case Parsed(key, p) =>
      match DecodeVariant(data, p, e)
      case Abort => Abort
      case Parsed(v, q) => Parsed((key, v), q)
  }

  /** What one field does to the result: an unknown key is dropped, and the count of file
      descriptors takes that many from the ones received. `None` is an exception or a read
      outside the received descriptors. */
  function Store(key: byte, v: Variant, fds: seq<int>, acc: Header): Option<Header> {
    var field := FieldOf(key);
    if field == INVALID_FIELD then Some(acc)
    else if field == UNIX_FDS then
      match v
      case Basic(UInt32(n)) =>
        var total := Signed(n, TWO32);
        if total > |fds| then None
        else Some(Header(acc.headers[field := v], acc.fds + fds[..if total < 0 then 0 else total]))
      case _ => None
    else Some(Header(acc.headers[field := v], acc.fds))
  }

  /** The loop over the header array: it stops at the first field that does not start before
      `limit`. */
  function ReadFields(data: seq<byte>, pos: nat, limit: nat, e: Endianess, fds: seq<int>, acc: Header): Parsed<Header>
    decreases if pos < limit then limit - pos else 0
  {
    if pos >= limit then Parsed(acc, pos)
    else match ReadField(data, pos, e)
      case Abort => Abort
      case Parsed(entry, p) =>
        match Store(entry.0, entry.1, fds, acc)
        case None => Abort
        case Some(next) => ReadFields(data, p, limit, e, fds, next)
  }

  /** `create_from_data`. */
  function CreateFromData(data: seq<byte>, fds: seq<int>): Parsed<Msg> {
    match ReadPrologue(data)
    case None => Abort
    case Some(h) =>
      match ReadFields(data, 16, (12 + h.arrayLen) % TWO32, h.endian, fds, Header(map[], []))
      case Abort => Abort
      case Parsed(fields, p) =>
        var q := AlignUp(p, 8);
        match KindOf(h.kind)
        case None => Abort
        case Some(kind) =>
          if h.bodyLen > 0 && q + h.bodyLen > |data| then Abort
          else
            var body := if h.bodyLen == 0 then [] else data[q..q + h.bodyLen];
            Parsed(Msg(kind, h.flags, h.serial, fields.headers, body, fields.fds, h.endian), q + h.bodyLen)
  }

  // ----- the object -----

  class Message {
    const kind: Kind
    const body: Buffer
    var headers: Headers
    var flags: byte
    var serial: uint32
    var fds: seq<int>
    var endian: Endianess
    var valid: bool

    constructor (kind: Kind)
      ensures fresh(body)
      ensures Value() == Msg(kind, 0, 0, map[], [], [], Big) && valid
    {
      this.kind := kind;
      body := new Buffer();
      headers, flags, serial, fds, endian, valid := map[], 0, 0, [], Big, true;
    }

    function Value(): Msg
      reads this, body
    {
      Msg(kind, flags, serial, headers, body.data, fds, endian)
    }

    method SetHeaderField(k: HeaderField, v: Variant) returns (was: Variant)
      modifies this`headers
      ensures was == Field(old(headers), k)
      ensures headers == old(headers)[k := v]
    {
      was := Field(headers, k);
      headers := headers[k := v];
    }

    method AppendSignature(text: seq<byte>) returns (ok: bool)
      modifies this`headers
      ensures ok == WithSignature(old(headers), text).Some?
      ensures headers == if ok then WithSignature(old(headers), text).value else old(headers)
      ensures 8 !in old(headers) || old(headers)[8] == NoVariant ==> ok && headers == old(headers)[8 := Basic(Sig(text))]
      ensures 8 in old(headers) && old(headers)[8].Basic? ==>
                var was := old(headers)[8].value;
                if !was.Sig? then !ok
                else ok && headers == old(headers)[8 := Basic(Sig(was.g[..|was.g| % 256] + text))]
    {
      match Field(headers, SIGNATURE_FIELD)
      case NoVariant =>
        headers := headers[SIGNATURE_FIELD := Basic(Sig(text))];
        return true;
      case Basic(v) =>
        if !v.Sig? { return false; }
        var kept := new Buffer();
        var into := new Marshaling(kept, Big);
        into.Marshal(v);
        FromZero(v);
        var from := new Demarshaling(kept.data, Big);
        var read := from.DemarshalSignature();
        SignatureReadBack(v.g);
        headers := headers[SIGNATURE_FIELD := Basic(Sig(read.value + text))];
        return true;
    }

    method AddFiledescriptor(fd: int)
      modifies this`fds, this`headers
      ensures fds == old(fds) + [fd]
      ensures headers == old(headers)[UNIX_FDS := Basic(UInt32(|fds| % TWO32))]
    {
      fds := fds + [fd];
      var _ := SetHeaderField(UNIX_FDS, Basic(UInt32(|fds| % TWO32)));
    }

    method ClearSigAndData()
      modifies this`headers, body
      ensures headers == old(headers) - {SIGNATURE_FIELD} && body.data == []
    {
      headers := headers - {SIGNATURE_FIELD};
      body.data := [];
    }

    method SerializeToVector(vec: Buffer, serial: uint32) returns (ok: bool)
      requires vec != body
      modifies vec
      ensures vec.data == Serialized(old(vec.data), old(Value()), serial)
      ensures ok == Accepted(old(vec.data), old(Value()), serial)
    {
      hide Encode, Fields, Pad, Fixed, KindCode;
      var m := new Marshaling(vec, Big);
      ghost var pre, value := vec.data, Value();
      m.PushAll(['B' as int, KindCode(kind), flags, 1]);
      m.Marshal(UInt32(|body.data| % TWO32));
      assert vec.data == Opening(pre, value);
      if kind == RETURN || kind == ERROR {
        match Field(headers, REPLY_SERIAL)
        case Basic(UInt32(n)) => if n == 0 { return false; }
        case _ => return false;
      }
      m.Marshal(UInt32(serial));
      m.Marshal(UInt32(0));
      WriteFields(m);
      assert vec.data == Unpatched(pre, value, serial);
      m.MarshalAtOffset(12, (|vec.data| - 16) % TWO32);
      m.Align(8);
      m.PushAll(body.data);
      ok := |vec.data| < MAX_MESSAGE;
    }

    method WriteFields(m: Marshaling)
      requires m.endian == Big && m.buffer != body
      modifies m.buffer
      ensures m.buffer.data == old(m.buffer.data) + Fields(headers, 0, |old(m.buffer.data)|)
    {
      hide Fields, Pad, VariantBytes, OneField;
      ghost var all := old(m.buffer.data) + Fields(headers, 0, |m.buffer.data|);
      var k: nat := 0;
      while k <= 9
        invariant k <= 10
        invariant m.buffer.data + Fields(headers, k, |m.buffer.data|) == all
      {
        ghost var before := m.buffer.data;
        match Field(headers, k) {
          case NoVariant => FieldsByHead(headers, k, |before|);
          case Basic(v) =>
            FieldsStep(headers, k, v, before);
            WriteField(m, k, v);
        }
        k := k + 1;
      }
      NoFieldsLeft(headers, m.buffer.data);
    }

    static method FromData(data: seq<byte>, fds: seq<int>) returns (msg: Message?)
      ensures match CreateFromData(data, fds)
              case Abort => msg == null
              case Parsed(m, _) => msg != null && fresh(msg) && fresh(msg.body) && msg.Value() == m && msg.valid
    {
      hide Fields, DecodeVariant, FromFixed, Gap, ReadFields, ReadPrologue, KindOf;
      var d := new Demarshaling(data, Big);
      var h := StartReading(d);
      if h == None { return null; }
      var header := ReadHeader(d, (12 + h.value.arrayLen) % TWO32, fds);
      if header == None { return null; }
      d.Align(8);
      var kind := KindOf(h.value.kind);
      if kind == None { return null; }
      var body := ReadBody(d, h.value.bodyLen);
      if body == None { return null; }
      msg := new Message(kind.value);
      msg.serial, msg.flags, msg.valid := h.value.serial, h.value.flags, true;
      msg.headers, msg.endian, msg.fds := header.value.headers, h.value.endian, header.value.fds;
      msg.body.data := body.value;
    }
  }

  lemma SignatureReadBack(g: seq<byte>)
    ensures var r := DecodeSignature(Raw(Sig(g), Big), 0); r.Parsed? && r.value == g[..|g| % 256]
  {
    var data := RawSignature(g);
    assert data[0] == |g| % 256;
    assert data[1..1 + |g| % 256] == g[..|g| % 256];
  }

  method StartReading(d: Demarshaling) returns (h: Option<Prologue>)
    requires d.pos == 0 && d.endian == Big
    modifies d
    ensures h == ReadPrologue(d.data)
    ensures h.Some? ==> d.pos == 16 && d.endian == h.value.endian
  {
    hide FromFixed, DecodeFixed, Gap, Word, Pow256;
    var first := d.DemarshalByte();
    if first == None { return None; }
    if first.value == 'l' as int { d.endian := Little; }
    var kind := d.DemarshalByte();
    if kind == None { return None; }
    var flags := d.DemarshalByte();
    if flags == None { return None; }
    var version := d.DemarshalByte();
    if version == None { return None; }
    Pow256Values();
    WordAt(d.data, 4, d.endian);
    WordAt(d.data, 8, d.endian);
    WordAt(d.data, 12, d.endian);
    var bodyLen := d.DemarshalFixed(4);
    if bodyLen == None { return None; }
    var serial := d.DemarshalFixed(4);
    if serial == None { return None; }
    var arrayLen := d.DemarshalFixed(4);
    if arrayLen == None { return None; }
    h := Some(Prologue(d.endian, kind.value, flags.value, version.value, bodyLen.value, serial.value, arrayLen.value));
  }

  method ReadHeader(d: Demarshaling, limit: nat, fds: seq<int>) returns (r: Option<Header>)
    modifies d`pos
    ensures match ReadFields(d.data, old(d.pos), limit, d.endian, fds, Header(map[], []))
            case Abort => r == None
            case Parsed(h, p) => r == Some(h) && d.pos == p
  {
    hide DecodeVariant, Gap;
    ghost var all := ReadFields(d.data, d.pos, limit, d.endian, fds, Header(map[], []));
    var headers: Headers, realFds: seq<int> := map[], [];
    while d.pos < limit
      invariant ReadFields(d.data, d.pos, limit, d.endian, fds, Header(headers, realFds)) == all
      decreases limit - d.pos
    {
      d.Align(8);
      var key := d.DemarshalByte();
      if key == None { return None; }
      var value := DemarshalVariant(d);
      if value == None { return None; }
      var field := FieldOf(key.value);
      if field == INVALID_FIELD { continue; }
      if field == UNIX_FDS {
        if !(value.value.Basic? && value.value.value.UInt32?) { return None; }
        var total := Signed(value.value.value.u, TWO32);
        ghost var were := realFds;
        for i := 0 to if total < 0 then 0 else total
          invariant i <= |fds|
          invariant realFds == were + fds[..i]
        {
          if i >= |fds| { return None; }
          realFds := realFds + [fds[i]];
        }
      }
      headers := headers[field := value.value];
    }
    r := Some(Header(headers, realFds));
  }

  method ReadBody(d: Demarshaling, len: nat) returns (r: Option<seq<byte>>)
    modifies d`pos
    ensures if len > 0 && old(d.pos) + len > |d.data| then r == None
            else d.pos == old(d.pos) + len
                 && r == Some(if len == 0 then [] else d.data[old(d.pos)..old(d.pos) + len])
  {
    ghost var start := d.pos;
    var body := [];
    for x := 0 to len
      invariant d.pos == start + x && |body| == x
      invariant x > 0 ==> d.pos <= |d.data| && body == d.data[start..start + x]
    {
      var b := d.DemarshalByte();
      if b == None { return None; }
      body := body + [b.value];
    }
    r := Some(body);
  }
}
