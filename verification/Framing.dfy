/** Messages on a byte stream (sendmsgtransport.cpp): the reader recomputes the length of a
    message from its first sixteen octets. */
module Framing {
  import opened Bytes
  import opened Messages
  import opened MessageFormat

  /** What the first sixteen octets say. `Total` is signed: the body length is read as a signed
      32-bit integer, and nothing rejects a negative one. */
  datatype Frame = Unknown | TooBig | Total(len: int)

  function FrameOf(h: seq<byte>): (f: Frame)
    requires |h| >= 16
  {
    if h[0] != 'l' as int && h[0] != 'B' as int then Unknown
    else
      var e := if h[0] == 'l' as int then Little else Big;
      Sized(Signed(Word(h, 4, e), TWO32), Word(h, 12, e))
  }

  function Sized(bodyLen: int, arrayLen: uint32): Frame {
    if bodyLen + arrayLen + 16 > MAX_MESSAGE then TooBig
    else Total((16 + Rounded(arrayLen)) % TWO32 + bodyLen)
  }

  function Rounded(arrayLen: uint32): uint32 {
    if arrayLen % 8 != 0 then (arrayLen + (8 - arrayLen % 8)) % TWO32 else arrayLen
  }

  /** How a call of `readMessage` ends: with a message, with a null pointer, in an abort, or
      still waiting for octets. */
  datatype Outcome = Got(m: Msg) | Nothing | Crash | Waiting

  /** One call of `readMessage`: its outcome, the octets it leaves unread, and whether the
      transport is still good. A message that is too big is not taken off the stream: the purge
      receives zero octets. */
  datatype Reading = Reading(outcome: Outcome, rest: seq<byte>, ok: bool)

  function ReadFrame(stream: seq<byte>, fds: seq<int>, ok: bool): Reading {
    if |stream| < 16 then Reading(Waiting, stream, ok)
    else match FrameOf(stream)
      case Unknown => Reading(Nothing, stream, false)
      case TooBig => Reading(Nothing, stream, ok)
      case Total(len) =>
        if len < 0 then Reading(Crash, stream, ok)
        else if len == 0 then Reading(Nothing, stream, false)
        else if |stream| < len then Reading(Waiting, stream, ok)
        else match CreateFromData(stream[..len], fds)
          case Abort => Reading(Crash, stream[len..], ok)
          case Parsed(m, _) => Reading(Got(m), stream[len..], ok)
  }

  /** Successive calls of `readMessage`, one for each set of descriptors, while each gives a message. */
  function ReadAll(stream: seq<byte>, fdss: seq<seq<int>>, ok: bool): (seq<Msg>, seq<byte>) {
    if fdss == [] then ([], stream)
    else
      var r := ReadFrame(stream, fdss[0], ok);
      if !r.outcome.Got? then ([], r.rest)
      else
        var more := ReadAll(r.rest, fdss[1..], r.ok);
        ([r.outcome.m] + more.0, more.1)
  }

  class SendmsgTransport {
    var sendBuffer: Buffer
    var sent: seq<byte>
    var unread: seq<byte>
    var capacity: nat
    var ok: bool

    constructor (capacity: nat)
      ensures fresh(sendBuffer)
      ensures sent == [] && unread == [] && ok && this.capacity == capacity
    {
      sendBuffer := new Buffer();
      sent, unread, ok, this.capacity := [], [], true, capacity;
    }

    /** A message that does not serialize is not sent at all. `sends` tells whether the system call
        takes the octets; when it does not, the transport is no longer good. */
    method WriteMessage(message: Message, serial: uint32, sends: bool) returns (ret: int)
      requires sendBuffer != message.body
      modifies sendBuffer, this`sent, this`ok
      ensures if !Accepted([], old(message.Value()), serial) then sent == old(sent) && ret == 0 && ok == old(ok)
              else if !sends then sent == old(sent) && ret == -1 && !ok
              else sent == old(sent) + Serialized([], old(message.Value()), serial)
                   && ret == |sent| - |old(sent)| && ok == old(ok)
    {
      hide Serialized, Accepted, MissingReply;
      sendBuffer.data := [];
      var accepted := message.SerializeToVector(sendBuffer, serial);
      if !accepted { return 0; }
      if !sends {
        ok := false;
        return -1;
      }
      sent := sent + sendBuffer.data;
      ret := |sendBuffer.data|;
    }

    /** `readMessage`, with the outcome made explicit; `fds` come beside the octets. */
    method ReadMessage(fds: seq<int>) returns (message: Message?, outcome: Outcome)
      modifies this`unread, this`ok, this`capacity
      ensures Reading(outcome, unread, ok) == ReadFrame(old(unread), fds, old(ok))
      ensures outcome.Got? <==> message != null
      ensures message != null ==> fresh(message) && outcome == Got(message.Value())
      ensures message != null ==> capacity >= |old(unread)| - |unread|
    {
      hide CreateFromData, FrameOf;
      if |unread| < 16 { return null, Waiting; }
      SameFrame(unread);
      var frame := Measure(unread[..16]);
      if frame.Unknown? { ok := false; }
      if !frame.Total? { return null, Nothing; }
      var totalLen := frame.len;
      if capacity < totalLen { capacity := totalLen; }
      if totalLen < 0 { return null, Crash; }
      if totalLen == 0 {
        ok := false;
        return null, Nothing;
      }
      if |unread| < totalLen { return null, Waiting; }
      var data := unread[..totalLen];
      unread := unread[totalLen..];
      message := Message.FromData(data, fds);
      outcome := if message == null then Crash else Got(message.Value());
    }

    /** The length arithmetic on the sixteen octets that were peeked at. */
    method Measure(header: seq<byte>) returns (f: Frame)
      requires |header| == 16
      ensures f == FrameOf(header)
    {
      hide Word;
      var bodyLen: int, arrayLen: uint32;
      if header[0] == 'l' as int {
        bodyLen := Signed(Word(header, 4, Little), TWO32);
        arrayLen := Word(header, 12, Little);
      } else if header[0] == 'B' as int {
        bodyLen := Signed(Word(header, 4, Big), TWO32);
        arrayLen := Word(header, 12, Big);
      } else {
        return Unknown;
      }
      if bodyLen + arrayLen + 12 + 4 > MAX_MESSAGE {
        return TooBig;
      }
      WrapTwice(Rounded(arrayLen));
      if arrayLen % 8 != 0 { arrayLen := (arrayLen + (8 - arrayLen % 8)) % TWO32; }
      f := Total((12 + (4 + arrayLen) % TWO32) % TWO32 + bodyLen);
    }
  }

  lemma WrapTwice(n: uint32)
    ensures (12 + (4 + n) % TWO32) % TWO32 == (16 + n) % TWO32
  {
    if n >= TWO32 - 4 { assert (4 + n) % TWO32 == 4 + n - TWO32; }
  }

  lemma SameWord(stream: seq<byte>, at: nat)
    requires at + 4 <= 16 <= |stream|
    ensures forall e :: Word(stream[..16], at, e) == Word(stream, at, e)
  {
    assert stream[..16][at..at + 4] == stream[at..at + 4];
  }

  lemma SameFrame(stream: seq<byte>)
    requires |stream| >= 16
    ensures FrameOf(stream[..16]) == FrameOf(stream)
  {
    hide Word;
    SameWord(stream, 4);
    SameWord(stream, 12);
  }

  // ----- the stream is cut at the message boundaries -----

  /** A message on its way: some peer wrote it in one of the byte orders. */
  datatype Flight = Flight(m: Msg, endian: Endianess)

  /** It keeps to the limits of the D-Bus specification, and its descriptors come with it. */
  predicate Travels(f: Flight) {
    |Image(f.m, f.endian)| <= 0x800_0000 && EncodableHeaders(f.m.headers) && FdsMatch(f.m)
  }

  function Arrival(f: Flight): Msg {
    f.m.(headers := Kept(f.m.headers, 10), endian := f.endian)
  }

  function Octets(fs: seq<Flight>): seq<byte> {
    if fs == [] then [] else Image(fs[0].m, fs[0].endian) + Octets(fs[1..])
  }

  function Arrivals(fs: seq<Flight>): seq<Msg> {
    if fs == [] then [] else [Arrival(fs[0])] + Arrivals(fs[1..])
  }

  function FdsOf(fs: seq<Flight>): (r: seq<seq<int>>)
    ensures |r| == |fs|
  {
    if fs == [] then [] else [fs[0].m.fds] + FdsOf(fs[1..])
  }

  lemma RoundUp(n: nat)
    requires n < 0x8000_0000
    ensures Rounded(n) == AlignUp(n, 8)
    ensures AlignUp(16 + n, 8) == 16 + AlignUp(n, 8)
  {
    GapShift(16, n, 8, 8);
  }

  /** The length recomputed from the first sixteen octets is the length of the message: the
      header array rounded up to 8, and the size gate lets it pass. */
  lemma LengthIsRecomputed(f: Flight, data: seq<byte>)
    requires Travels(f) && Image(f.m, f.endian) <= data
    ensures |data| >= 16 && FrameOf(data) == Total(|Image(f.m, f.endian)|)
    ensures |Image(f.m, f.endian)| >= 16
  {
    hide Word, FieldsFormat, Image, Front, Fixed, Gap, AlignUp;
    var image, fields := Image(f.m, f.endian), FieldsFormat(f.m.headers, 0, 16, f.endian);
    ImageParts(f.m, f.endian);
    RoundedIsLater(16 + |fields|);
    Prefix(image, data, Front(f.m, |fields|, f.endian));
    FrontReadBack(f.m, |fields|, f.endian, data);
    FirstOctet(f.m, |fields|, f.endian, data);
    RoundUp(|fields|);
  }

  lemma FirstOctet(m: Msg, arrayLen: nat, e: Endianess, data: seq<byte>)
    requires At(data, 0, Front(m, arrayLen, e))
    ensures |data| >= 16 && data[0] == if e == Big then 'B' as int else 'l' as int
  {
    hide Fixed;
    assert data[0] == data[0..16][0];
  }

  lemma RoundedIsLater(n: nat)
    ensures n <= AlignUp(n, 8)
  {
  }

  lemma Prefix(image: seq<byte>, data: seq<byte>, front: seq<byte>)
    requires image <= data && At(image, 0, front)
    ensures At(data, 0, front)
  {
    assert data[0..|front|] == image[0..|front|];
  }

  lemma ReadsFirst(f: Flight, rest: seq<byte>)
    requires Travels(f)
    ensures ReadFrame(Image(f.m, f.endian) + rest, f.m.fds, true) == Reading(Got(Arrival(f)), rest, true)
  {
    hide Image, FrameOf, CreateFromData, FdsTaken, Kept;
    var image := Image(f.m, f.endian);
    LengthIsRecomputed(f, image + rest);
    assert (image + rest)[..|image|] == image && (image + rest)[|image|..] == rest;
    ReadsFormat(f.m, f.endian, f.m.fds);
  }

  /** Stream framing: the octets of any list of messages are cut exactly at the message
      boundaries and read back as that list, and nothing is left. */
  lemma {:induction false} StreamReadBack(fs: seq<Flight>)
    requires forall f :: f in fs ==> Travels(f)
    ensures ReadAll(Octets(fs), FdsOf(fs), true) == (Arrivals(fs), [])
  {
    hide Travels, ReadFrame, Image, Arrival;
    if fs != [] {
      assert fs == [fs[0]] + fs[1..];
      ReadsFirst(fs[0], Octets(fs[1..]));
      StreamReadBack(fs[1..]);
      assert FdsOf(fs)[1..] == FdsOf(fs[1..]);
    }
  }

  /** A message and the serial it is sent under. */
  datatype Outgoing = Outgoing(m: Msg, serial: uint32)

  predicate Sendable(o: Outgoing) {
    && Accepted([], o.m, o.serial)
    && Harmless(o.m.headers, 0) && ShortSignatures(o.m.headers) && FdsMatch(o.m)
  }

  function Written(os: seq<Outgoing>): seq<byte> {
    if os == [] then [] else Serialized([], os[0].m, os[0].serial) + Written(os[1..])
  }

  function Flights(os: seq<Outgoing>): (fs: seq<Flight>)
    ensures |fs| == |os|
    ensures forall i :: 0 <= i < |os| ==> fs[i] == Flight(os[i].m.(serial := os[i].serial), Big)
  {
    if os == [] then [] else [Flight(os[0].m.(serial := os[0].serial), Big)] + Flights(os[1..])
  }

  lemma {:induction false} WrittenIsOctets(os: seq<Outgoing>)
    requires forall o :: o in os ==> Sendable(o)
    ensures Written(os) == Octets(Flights(os))
    ensures forall f :: f in Flights(os) ==> Travels(f)
  {
    hide Image, Serialized, Accepted;
    if os != [] {
      assert os == [os[0]] + os[1..];
      SendableTravels(os[0]);
      hide Travels, Sendable;
      WrittenIsOctets(os[1..]);
      assert Flights(os)[1..] == Flights(os[1..]);
    }
  }

  lemma SendableTravels(o: Outgoing)
    requires Sendable(o)
    ensures Serialized([], o.m, o.serial) == Image(o.m.(serial := o.serial), Big)
    ensures Travels(Flight(o.m.(serial := o.serial), Big))
  {
    hide Serialized, Image, FdsTaken;
    WrittenIff(o.m, o.serial);
    AcceptedEncodable(o.m, o.serial);
  }

  /** What one end writes with `writeMessage`, the other end reads with `readMessage`: the same
      messages under the serials they were sent with, in order, with nothing left over. */
  lemma WrittenIsReadBack(os: seq<Outgoing>)
    requires forall o :: o in os ==> Sendable(o)
    ensures ReadAll(Written(os), FdsOf(Flights(os)), true) == (Arrivals(Flights(os)), [])
  {
    WrittenIsOctets(os);
    StreamReadBack(Flights(os));
  }

  // ----- how a read can end -----

  /** The number of octets that the first sixteen announce, when the byte order is known: the header
      array rounded up to 8 in 32 bits, and the body, whose length is read as a signed number. */
  ghost predicate Announces(stream: seq<byte>, len: int) {
    && |stream| >= 16 && (stream[0] == 'l' as int || stream[0] == 'B' as int)
    && var e := if stream[0] == 'l' as int then Little else Big;
       var body, fields := FromFixed(stream[4..8], e), FromFixed(stream[12..16], e);
       var signed := if body < 0x8000_0000 then body else body - 0x1_0000_0000;
       && signed + fields + 16 <= 0x800_0000
       && len == signed + (16 + (fields + 7) / 8 * 8 % 0x1_0000_0000) % 0x1_0000_0000
  }

  lemma RoundedIs(n: uint32)
    ensures Rounded(n) == (n + 7) / 8 * 8 % 0x1_0000_0000
  {
  }

  lemma AnnouncedByHeader(stream: seq<byte>, len: int)
    ensures Announces(stream, len) ==> |stream| >= 16 && (stream[0] == 'l' as int || stream[0] == 'B' as int)
  {
    hide FromFixed;
  }

  lemma FrameIsAnnounced(stream: seq<byte>, len: int)
    requires |stream| >= 16
    ensures FrameOf(stream) == Total(len) <==> Announces(stream, len)
  {
    hide FromFixed, Pow256;
    var e := if stream[0] == 'l' as int then Little else Big;
    RoundedIs(Word(stream, 12, e));
    hide Rounded;
  }

  /** Every way a call of `readMessage` ends: it waits for sixteen octets and for those announced; an
      unknown byte order and a length of 0 give nothing and spoil the transport; a negative length
      stops the program; and a message takes exactly the announced octets. */
  lemma OutcomeIs(stream: seq<byte>, fds: seq<int>, ok: bool, len: int)
    ensures |stream| < 16 ==> ReadFrame(stream, fds, ok) == Reading(Waiting, stream, ok)
    ensures |stream| >= 16 && stream[0] != 'l' as int && stream[0] != 'B' as int ==>
              ReadFrame(stream, fds, ok) == Reading(Nothing, stream, false)
    ensures Announces(stream, len) && len < 0 ==> ReadFrame(stream, fds, ok) == Reading(Crash, stream, ok)
    ensures Announces(stream, len) && len == 0 ==> ReadFrame(stream, fds, ok) == Reading(Nothing, stream, false)
    ensures Announces(stream, len) && len > |stream| ==> ReadFrame(stream, fds, ok) == Reading(Waiting, stream, ok)
    ensures Announces(stream, len) && 0 < len <= |stream| ==>
              var r := ReadFrame(stream, fds, ok);
              && r.rest == stream[len..] && r.ok == ok
              && match CreateFromData(stream[..len], fds)
                 case Abort => r.outcome == Crash
                 case Parsed(m, _) => r.outcome == Got(m)
  {
    hide CreateFromData, Announces, Sized;
    AnnouncedByHeader(stream, len);
    if |stream| >= 16 { FrameIsAnnounced(stream, len); }
  }

  // ----- a message that is too big -----

  /** The first octet names a byte order, and the lengths read in it add up to more than 2^27. */
  predicate Oversized(stream: seq<byte>) {
    && |stream| >= 16
    && (stream[0] == 'l' as int || stream[0] == 'B' as int)
    && var e := if stream[0] == 'l' as int then Little else Big;
       Signed(Word(stream, 4, e), TWO32) + Word(stream, 12, e) + 16 > 0x800_0000
  }

  /** A good transport gives no message, takes nothing off the stream and stays good if and only if
      the message that comes next is too big. */
  lemma StuckIff(stream: seq<byte>, fds: seq<int>)
    ensures ReadFrame(stream, fds, true) == Reading(Nothing, stream, true) <==> Oversized(stream)
  {
    hide Word, CreateFromData;
  }

  /** Octets that arrive, with descriptors, before the next call of `readMessage`. */
  datatype Round = Round(octets: seq<byte>, fds: seq<int>)

  /** Calls of `readMessage` whatever they give, with octets arriving between them. */
  function Calls(stream: seq<byte>, rounds: seq<Round>, ok: bool): (seq<Outcome>, seq<byte>, bool)
    decreases rounds
  {
    if rounds == [] then ([], stream, ok)
    else
      var r := ReadFrame(stream + rounds[0].octets, rounds[0].fds, ok);
      var more := Calls(r.rest, rounds[1..], r.ok);
      ([r.outcome] + more.0, more.1, more.2)
  }

  function Arriving(rounds: seq<Round>): seq<byte> {
    if rounds == [] then [] else rounds[0].octets + Arriving(rounds[1..])
  }

  lemma StaysOversized(stream: seq<byte>, more: seq<byte>)
    requires Oversized(stream)
    ensures Oversized(stream + more)
  {
    hide Word;
    SameWord(stream, 4);
    SameWord(stream, 12);
    SameWord(stream + more, 4);
    SameWord(stream + more, 12);
    assert (stream + more)[..16] == stream[..16];
  }

  /** Once a message that is too big comes next, no call ever gives a message again, the octets pile
      up unread, and the transport goes on calling itself what it was. */
  lemma {:induction false} StuckForever(stream: seq<byte>, rounds: seq<Round>, ok: bool)
    requires Oversized(stream)
    ensures Calls(stream, rounds, ok) == (seq(|rounds|, _ => Nothing), stream + Arriving(rounds), ok)
    decreases rounds
  {
    hide Oversized, ReadFrame;
    if rounds == [] {
      assert stream + [] == stream;
    } else {
      StaysOversized(stream, rounds[0].octets);
      OversizedRead(stream + rounds[0].octets, rounds[0].fds, ok);
      StuckForever(stream + rounds[0].octets, rounds[1..], ok);
      Associative(stream, rounds[0].octets, Arriving(rounds[1..]));
      assert [Nothing] + seq(|rounds| - 1, _ => Nothing) == seq(|rounds|, _ => Nothing);
    }
  }

  lemma OversizedRead(stream: seq<byte>, fds: seq<int>, ok: bool)
    requires Oversized(stream)
    ensures ReadFrame(stream, fds, ok) == Reading(Nothing, stream, ok)
  {
    hide Word, CreateFromData;
  }

  /** The shortest such message has no header fields and a body of 2^27 - 15 octets; with one octet
      less it is a message of exactly 2^27. */
  lemma SmallestOversized(low: byte, serial: seq<byte>, rest: seq<byte>)
    requires |serial| == 4
    ensures var stream := ['l' as int, 1, 0, 1] + [low, 0xFF, 0xFF, 0x07] + serial + [0, 0, 0, 0] + rest;
            && (Oversized(stream) <==> low > 0xF0)
            && (low == 0xF0 ==> FrameOf(stream) == Total(0x800_0000))
  {
    var stream := ['l' as int, 1, 0, 1] + [low, 0xFF, 0xFF, 0x07] + serial + [0, 0, 0, 0] + rest;
    assert stream[4..8] == [low, 0xFF, 0xFF, 0x07] && stream[12..16] == [0, 0, 0, 0];
    LittleWord(low, 0xFF, 0xFF, 0x07);
    LittleWord(0, 0, 0, 0);
    hide FromFixed;
  }

  lemma LittleWord(a: byte, b: byte, c: byte, d: byte)
    ensures FromFixed([a, b, c, d], Little) == a + 0x100 * b + 0x1_0000 * c + 0x100_0000 * d
  {
    hide FromLittle;
    NoOctets();
    var bytes := [a, b, c, d];
    assert bytes[0..] == bytes;
    assert bytes[1..] == [b, c, d] && bytes[2..] == [c, d] && bytes[3..] == [d] && bytes[4..] == [];
    LittleByHead(bytes, 0);
    LittleByHead(bytes, 1);
    LittleByHead(bytes, 2);
    LittleByHead(bytes, 3);
  }

  lemma NoOctets()
    ensures FromLittle([]) == 0
  {
  }

  lemma LittleByHead(s: seq<byte>, k: nat)
    requires k < |s|
    ensures FromLittle(s[k..]) == s[k] + 256 * FromLittle(s[k + 1..])
  {
    assert s[k..][1..] == s[k + 1..];
  }
}
