# dbus-cxx: a verified model of its protocol core

dbus-cxx implements the D-Bus protocol itself: it marshals values, parses type signatures, builds
and reads whole messages, cuts a byte stream into messages, and runs a connection with a
dispatcher thread and many calling threads. This project models that logic in Dafny and proves
what it is for. `dafny verify dfyconfig.toml` verifies everything.

| files | what they model |
|---|---|
| `Bytes.dfy`, `Types.dfy`, `Codec.dfy`, `Wire.dfy` | octets, alignment, byte orders, type tables, basic values, `Marshaling` and `Demarshaling` |
| `Signature.dfy`, `SignatureBalance.dfy`, `SignatureMachine.dfy`, `SignatureGrammar.dfy`, `OpenArray.dfy`, `SignaturePrinter.dfy` | the recursive signature parser, what acceptance implies, the parser as a machine and which bracket kinds it compares, the grammar it gets right, the arrays that take the types after them, the printer |
| `Variants.dfy`, `Message.dfy`, `MessageFormat.dfy`, `Framing.dfy` | variants, `serialize_to_vector`, `create_from_data`, the message format, `readMessage` |
| `Body.dfy`, `Layout.dfy`, `ArrayLayout.dfy`, `Append.dfy`, `Reader.dfy`, `BodyRoundTrip.dfy`, `BodyUses.dfy` | message bodies: values and their format, when an append succeeds and gives the format, the append iterator, the message iterator, and the round trip between them |
| `Connection.dfy`, `Wakeup.dfy`, `Routing.dfy` | serials, queues and replies; the dispatcher and its wake bytes; where an incoming call goes |
| `PropertyCache.dfy` | server properties, change signals and the proxy's cache |
| `Address.dfy`, `Path.dfy` | server addresses and object paths |

How the model is built:

- Code that changes an object is a class with the same fields; each method is proved equal to a
  function of the old state, and the theorems are about those functions. Pure tables and the
  recursive printer are functions.
- The connection, the dispatcher and the property cache are state machines over atomic steps; a
  theorem about them holds in the state after every list of steps that can happen. A locked region
  is one step. The check for a waiting caller and the store of its reply
  (dbus-cxx/connection.cpp:620-625) hold no lock in the code and are one step here. So is the test for
  serial 0 (dbus-cxx/connection.cpp:364) together with the locked region after it. In the dispatcher
  these too are one step each though no lock joins them: the status write of a sender and its wake byte
  (dbus-cxx/connection.cpp:1035-1043); the test for empty queues and the store of the status
  (dbus-cxx/connection.cpp:568-599); the end of poll and the read of the byte; clearing the running flag
  and its wake byte; reading the status and the byte the thread then sends itself. The dispatching
  thread stays the same throughout. A set of a property is two steps, its signal and its reply, because
  sending the signal dispatches and so handles other requests first.
- A failed bounds assertion, an exception while reading, a null dereference, or a read outside the
  data is `Abort` (or `None`, `Crash`, `broken`) and ends the operation.

Assumptions: `current_offset() + demarshal_uint32_t()` is evaluated left to right
(dbus-cxx/messageiterator.cpp:63); doubles are 64-bit patterns; `recvmsg` delivers all the octets it is
asked for; reading a `std::string` at its end position gives NUL; data is shorter than 2^32 octets,
so that read positions do not wrap; connections stay valid; a property is set, and its signal sent, on
the thread that answers calls to it.

What the proofs found out about the code, each with a theorem below:

- The parser takes `b`, `d` and `v` as array elements only where the text ends. Before other types, an
  array with one of them innermost takes the next types into itself, up to the first that ends it, and
  the reader gets fewer values than there are types: in `abi` it loses the integer.
- A struct directly inside brackets ends the frame of the parser, so it is only right in last place.
- The kind of a closing bracket goes unchecked exactly where it comes directly after a struct or dict
  entry that stands directly in a bracket: `((i)}` is accepted. Every other closing bracket of an accepted
  text has the kind of its opening one.
- The printer gives a parsed text back exactly when there are no struct brackets and every dict
  entry opens directly after an array or another dict entry.
- The array loop measures from the octet before the length. A non-empty array whose elements read back
  does so exactly when each element takes octets and the last one, its own padding included, takes at least as many as stand
  between that octet and the first element. An empty one always reads back as empty, but the position
  after it is right exactly when no padding follows its length. A body without empty arrays of 8-aligned
  elements reads back if and only if all its arrays do.
- Arrays and structs are built in buffers of their own, at offset 0. That gives the octets of the D-Bus
  format exactly when whatever is padded to 8 in its buffer stands in step with the message. For an array
  whose contents are right by themselves: when its elements start at a multiple of 8 in the message or
  hold nothing that is 8-aligned. So a non-empty `aax` comes out wrong at offset 0, and right at offset 4.
- A header value that is 8-aligned is written without its padding. The message has the D-Bus format all
  the same exactly when every such value is zero and has another field after it; the header fields of
  the D-Bus specification need no padding.
- Cleaning up expired dispatchers takes the paths of the dispatching thread with them when that
  thread has an expired dispatcher of its own, and changes no other route.
- Appending to the root path gives an invalid path.
- The purge of an oversized message receives zero octets, where its comment says that the buffer is
  reset. The stream stays as it is, the transport stays good, and no later call gives a message again.
- The values of a write-only property are given away, by the signal that every set sends.
- Only a plain send skips serial 0: a call right after serial 2^32 - 1 goes out under 0.

## Model

| member | source | states |
|---|---|---|
| `Bytes.AlignUpIsMultiple` | dbus-cxx/marshaling.cpp:153-164 | padding brings an offset to a multiple of the alignment, and adds nothing exactly when it is one |
| `Bytes.AlignUpIsLeast` | dbus-cxx/marshaling.cpp:153-164 | no smaller offset would do: the padding is minimal |
| `Bytes.FixedRoundTrip` | dbus-cxx/demarshaling.cpp:223-316 | a fixed-width integer is recovered from its octets in either byte order |
| `Bytes.FixedOctets` | dbus-cxx/marshaling.cpp:166-216 | octet by octet: little-endian order starts with the lowest weight, big-endian order with the highest |
| `Bytes.Signed` | dbus-cxx/demarshaling.cpp:69-107 | the signed reading of an unsigned pattern is the one number in range with that pattern |
| `Codec.ListRoundTrip` | dbus-cxx/demarshaling.cpp:54-158 | any heterogeneous list of basic values, written after any prefix in either byte order, reads back as the same list and ends where the list ends |
| `Codec.RoundTripIff` | dbus-cxx/marshaling.cpp:126-151 | a value survives exactly when its length prefix can hold its length (255 octets for signatures, 2^32 - 1 for strings) |
| `Codec.LayoutOf` | dbus-cxx/marshaling.cpp:55-164 | every value of a list stands at a multiple of its alignment after fewer zero octets than that alignment |
| `Codec.DecodeAt` | dbus-cxx/demarshaling.cpp:54-158 | a value whose octets stand at its aligned position is read back, and the position moves past them |
| `Codec.PatternRoundTrip` | dbus-cxx/types.cpp:192-224 | the width of a fixed-width type is its alignment, and its unsigned pattern fits that width and determines the value |
| `Codec.StringOctets` | dbus-cxx/marshaling.cpp:126-138 | a string or path is padding to 4, four octets of length, its octets and a NUL |
| `Codec.SignatureOctets` | dbus-cxx/marshaling.cpp:140-151 | a signature is one octet of length, its octets and a NUL, without padding |
| `Codec.NumberOctets` | dbus-cxx/marshaling.cpp:55-124 | a number takes 1, 2, 4 or 8 octets at a multiple of that number |
| `Codec.NumbersModulo` | dbus-cxx/marshaling.cpp:55-124 | signed numbers are written in two's complement, and true as 1 |
| `Codec.DecodeStopsIff` | dbus-cxx/demarshaling.cpp:110-158 | a read stops the program exactly when the integer, the string with its NUL, or the octets of the signature lie outside the data |
| `Codec.AnyNonzeroIsTrue` | dbus-cxx/demarshaling.cpp:59-67 | any number other than 0 is read as true |
| `Types.CodeAlignments` | dbus-cxx/types.cpp:192-224 | the alignment of every type code |
| `Types.CodesKnown` | dbus-cxx/types.h:43-103 | which characters are type codes |
| `Types.CodesPrinted` | dbus-cxx/types.cpp:226-279 | the printer gives back every type code except brackets, `r` and `e` |
| `Types.CodeClasses` | dbus-cxx/types.cpp:143-190 | which codes are basic, containers and closing |
| `Wire.Marshaling.Marshal` | dbus-cxx/marshaling.cpp:55-151 | appends exactly the aligned wire form of the value to what the buffer held, in the byte order of the marshaler |
| `Wire.Marshaling.Align` | dbus-cxx/marshaling.cpp:153-164 | the padding loop appends exactly the gap to the next multiple, as zeros |
| `Wire.Marshaling.MarshalShort` | dbus-cxx/marshaling.cpp:166-196 | the shifted octets are the big- or little-endian form |
| `Wire.Marshaling.MarshalInt` | dbus-cxx/marshaling.cpp:172-204 | the shifted octets are the big- or little-endian form |
| `Wire.Marshaling.MarshalLong` | dbus-cxx/marshaling.cpp:180-216 | the shifted octets are the big- or little-endian form |
| `Wire.Marshaling.MarshalAtOffset` | dbus-cxx/marshaling.cpp:242-254 | overwrites exactly four octets in place and leaves the rest |
| `Wire.Demarshaling.Align` | dbus-cxx/demarshaling.cpp:323-335 | moves to the next multiple; an alignment of 0 leaves the position |
| `Wire.Demarshaling.DemarshalFixed` | dbus-cxx/demarshaling.cpp:223-321 | reads the integer at the aligned position, or aborts when it does not fit |
| `Wire.Demarshaling.Demarshal` | dbus-cxx/demarshaling.cpp:54-158 | the typed reads return the decoding of the data at the old position and move past it |
| `Signatures.Create` | dbus-cxx/signature.cpp:123-142 | one call of the parser, on every text and stack: terminates, moves the iterator forward only, leaves the caller's stack entries, and leaves exactly the stack it found unless it clears the flag |
| `Signatures.Loop` | dbus-cxx/signature.cpp:141-255 | the same discipline for the do-while loop from any round |
| `Signatures.AfterContainer` | dbus-cxx/signature.cpp:196-253 | the same discipline for what follows a recursive call; its pops never meet an empty stack |
| `Signatures.Parser.CreateSignatureTree` | dbus-cxx/signature.cpp:123-258 | the loop over the shared iterator, stack and flag computes that function |
| `Signatures.Parser.Container` | dbus-cxx/signature.cpp:192-253 | one container round: push, recurse, link, close |
| `Signatures.Parser.constructor` | dbus-cxx/signature.cpp:289-314 | a signature is valid exactly when the parse keeps its flag, empties the stack and uses up the text |
| `SignatureBalance.AcceptedIsBalanced` | dbus-cxx/signature.cpp:123-258 | in an accepted text the brackets balance, no prefix closes more than it opened, at most 64 are open, and the tree nests at most 64 deep |
| `SignatureBalance.KindsMayDiffer` | dbus-cxx/signature.cpp:203-219 | the witness that kinds may differ: `((i)}` is accepted (which kinds go unchecked in general is `SignatureMachine.KindsMatch` and `FlipKeepsIff`) |
| `SignatureMachine.MachineIsParser` | dbus-cxx/signature.cpp:123-258 | the recursive parser accepts exactly the texts of a machine that reads one character after the other with a stack of open containers |
| `SignatureMachine.KindsMatch` | dbus-cxx/signature.cpp:203-219 | in an accepted text every closing bracket has the kind of its opening one, unless it comes directly after a struct or dict entry that stands directly in a bracket |
| `SignatureMachine.FlipKeepsIff` | dbus-cxx/signature.cpp:203-219 | exactly: with one closing bracket replaced by the other kind an accepted text stays accepted if and only if that bracket is in such a place |
| `SignatureMachine.SeparateKindsMatch` | dbus-cxx/signature.cpp:155-166 | a closing bracket that does not directly follow another one has the kind of its opening one |
| `SignatureMachine.AllKindsMatch` | dbus-cxx/signature.cpp:203-219 | where no two closing brackets are adjacent, all kinds match |
| `SignatureGrammar.ParsesExactly` | dbus-cxx/signature.cpp:123-258 | the text of a type list is valid and parsed to that list's own tree if and only if the list fits the parser's frames |
| `SignatureGrammar.StandardParses` | dbus-cxx/signature.cpp:123-258 | which covers every type list nested at most 64 deep with dict entries only in arrays, no struct directly in a struct and no boolean, double or variant directly in an array |
| `SignatureGrammar.ListFrame` | dbus-cxx/signature.cpp:141-255 | the two-way correspondence for the types of one frame: the tree is appended and the iterator stands after them, or the frame is spoiled for good |
| `SignatureGrammar.ElemFrame` | dbus-cxx/signature.cpp:184-190 | the same for an array element: one node, or spoiled |
| `OpenArrays.NodesOfValid` | dbus-cxx/signature.cpp:184-253 | the number of top-level nodes of every valid type list: one for each type, except the types that an array with `b`, `d` or `v` innermost takes, up to the first that ends it |
| `OpenArrays.CountIff` | dbus-cxx/signature.cpp:184-253 | that is one for each type if and only if no array before the last type has `b`, `d` or `v` innermost |
| `SignaturePrinter.SignatureIterator.Next` | dbus-cxx/signatureiterator.cpp:72-84 | steps through the chain and invalidates itself after the last node |
| `SignaturePrinter.SignatureIterator.Recurse` | dbus-cxx/signatureiterator.cpp:138-146 | starts on the contents of a container, and is invalid elsewhere |
| `SignaturePrinter.SignatureIterator.Signature` | dbus-cxx/signatureiterator.cpp:148-179 | the printing loop gives the print of the whole chain, wherever the iterator stands |
| `SignaturePrinter.SignatureIterator.IterateOverSubsig` | dbus-cxx/signatureiterator.cpp:181-210 | the recursive printing loop gives the print of a nested chain |
| `SignaturePrinter.PrintKeepsCodes` | dbus-cxx/signatureiterator.cpp:148-210 | the tree of any type list is printed with all its type codes, in order; only brackets differ |
| `SignaturePrinter.NoParentheses` | dbus-cxx/signatureiterator.cpp:181-210 | parentheses are never printed, and braces exactly around a chain that starts with a dict entry |
| `SignaturePrinter.PrintUndoesParseIff` | dbus-cxx/signatureiterator.cpp:148-210 | printing the tree of an accepted text gives it back if and only if it has none of `(`, `)`, `r`, `e` and each `{` follows `a` or `{` |
| `SignaturePrinter.PrintUndoesParse` | dbus-cxx/signatureiterator.cpp:148-210 | in particular for accepted texts without structs whose dict entries open directly after `a` |
| `Variants.DecodeVariantAt` | dbus-cxx/demarshaling.cpp:160-221 | a basic variant in the D-Bus format is read back, in either byte order |
| `Variants.ReadsOn` | dbus-cxx/demarshaling.cpp:160-221 | a signature that starts with an array or a variant is taken to be followed by another variant, which is the result |
| `Variants.VariantInVariant` | dbus-cxx/demarshaling.cpp:160-221 | so a variant inside a variant is read through |
| `Variants.EmptyVariant` | dbus-cxx/demarshaling.cpp:160-221 | a signature that is rejected or starts with a struct, a dict entry or a descriptor gives an empty variant, and nothing after it is read |
| `Variants.CodeOfValue` | dbus-cxx/variant.cpp:25-160 | the type code that stands before each kind of value |
| `Variants.VariantBytesIff` | dbus-cxx/marshaling.cpp:226-240 | a variant is written as the format has it exactly when its value needs no padding after the signature |
| `Variants.EqualIff` | dbus-cxx/variant.cpp:475-484 | two basic variants are equal exactly when they hold the same value |
| `Variants.MarshalVariant` | dbus-cxx/marshaling.cpp:226-240 | signature and big-endian octets, with nothing between |
| `Variants.DemarshalVariant` | dbus-cxx/demarshaling.cpp:160-221 | reads by the signature found in the data, through arrays and variants |
| `Messages.Message.SetHeaderField` | dbus-cxx/message.cpp:414-420 | replaces one field and returns what it held |
| `Messages.Message.AppendSignature` | dbus-cxx/message.cpp:371-382 | extends the signature text, or throws when the field holds something else |
| `Messages.Message.AddFiledescriptor` | dbus-cxx/message.cpp:430-435 | the descriptor count in the header is the number of descriptors |
| `Messages.Message.ClearSigAndData` | dbus-cxx/message.cpp:395-404 | removes exactly the signature field and the body |
| `Messages.Message.SerializeToVector` | dbus-cxx/message.cpp:182-265 | what the vector holds afterwards, whatever it held before, also when the message is refused; and when it is refused: a reply without a reply serial, or 2^27 octets and more |
| `Messages.Message.WriteFields` | dbus-cxx/message.cpp:242-248 | the header loop appends the fields in key order, each after padding to 8, and skips empty variants |
| `Messages.ReadHeader` | dbus-cxx/message.cpp:292-323 | the loop on the read offset collects the fields and the descriptors they count |
| `Messages.ReadBody` | dbus-cxx/message.cpp:358-360 | the body loop reads exactly the announced octets, or aborts |
| `Messages.Message.FromData` | dbus-cxx/message.cpp:267-369 | builds the message that the data stands for, or nothing when reading aborts |
| `MessageFormat.FieldIsLong` | dbus-cxx/message.cpp:242-248 | every header field takes more than four octets |
| `MessageFormat.FieldsReadBack` | dbus-cxx/message.cpp:292-323 | with the limit four octets before the end of the fields, the loop reads exactly the fields and stops where they stop |
| `MessageFormat.ReadsFormat` | dbus-cxx/message.cpp:267-369 | a message in the D-Bus format, in either byte order and with header values of any basic type, is read back field for field and to its last octet |
| `MessageFormat.FieldWrittenIff` | dbus-cxx/message.cpp:245-247 | a header field is written as the format has it exactly when its value is not 8-aligned |
| `MessageFormat.WrittenIff` | dbus-cxx/message.cpp:182-265 | an accepted message is written in the D-Bus format if and only if every 8-aligned header value is zero and has another field after it |
| `MessageFormat.WritesFormat` | dbus-cxx/message.cpp:182-265 | in particular an accepted message without 8-aligned header values |
| `MessageFormat.AcceptedIff` | dbus-cxx/message.cpp:194-262 | a message is accepted exactly when a return or an error has a 32-bit reply serial other than 0, and its sixteen octets, its header fields rounded up to 8 and its body stay below 2^27 octets; calls and signals need no reply serial |
| `MessageFormat.FirstOctets` | dbus-cxx/message.cpp:182-240 | byte order, kind, flags, version, body length, serial and header length stand in the first sixteen octets |
| `MessageFormat.PatchedAtTwelve` | dbus-cxx/message.cpp:250-252 | the header length goes to octet 12 also when the vector held something already, and overwrites four octets of it |
| `MessageFormat.UnknownFieldDropped` | dbus-cxx/message.cpp:292-323 | a field with an unknown key is read past and dropped |
| `MessageFormat.LaterFieldCounts` | dbus-cxx/message.cpp:292-323 | of two fields with the same key the later one counts |
| `MessageFormat.DescriptorsCounted` | dbus-cxx/message.cpp:292-323 | the descriptor count must be a 32-bit number that, read as signed, does not exceed the descriptors received; that many are taken |
| `MessageFormat.CreateStops` | dbus-cxx/message.cpp:267-369 | data needs sixteen octets, one of the four kinds and the announced body, and what is read from the first octets |
| `MessageFormat.AcceptedEncodable` | dbus-cxx/message.cpp:260-262 | in an accepted message with signatures of at most 255 octets every text has a length its prefix can hold |
| `MessageFormat.RoundTrip` | dbus-cxx/message.cpp:182-369 | whole-message round trip: type, flags, serial, header fields, body and descriptors come back, and every octet is consumed |
| `MessageFormat.KeepsAll` | dbus-cxx/enums.h:150-161 | of the header map itself nothing is dropped, when its keys are those of the D-Bus specification and hold values |
| `Framing.LengthIsRecomputed` | dbus-cxx/sendmsgtransport.cpp:367-413 | the length recomputed from the first sixteen octets is the length of the message, and the size gate lets it pass |
| `Framing.StreamReadBack` | dbus-cxx/sendmsgtransport.cpp:355-457 | the octets of any list of messages, in mixed byte orders, are cut exactly at the message boundaries and read back as that list |
| `Framing.WrittenIsReadBack` | dbus-cxx/sendmsgtransport.cpp:272-457 | what one end writes the other end reads: the same messages under their serials, in order, with nothing left |
| `Framing.SendmsgTransport.WriteMessage` | dbus-cxx/sendmsgtransport.cpp:272-353 | an accepted message is sent as serialized, or not at all when the system call fails, which returns -1 and clears the good flag; a refused one is not sent and returns 0 |
| `Framing.SendmsgTransport.ReadMessage` | dbus-cxx/sendmsgtransport.cpp:355-457 | takes one message off the stream, or says why not; the receive buffer is large enough for it |
| `Framing.SendmsgTransport.Measure` | dbus-cxx/sendmsgtransport.cpp:374-413 | the length arithmetic step by step, with its 32-bit wrap-around and its signed body length |
| `Framing.StuckIff` | dbus-cxx/sendmsgtransport.cpp:401-407 | a good transport gives no message, takes nothing and stays good if and only if the byte order is known and body length, array length and 16 exceed 2^27 |
| `Framing.OutcomeIs` | dbus-cxx/sendmsgtransport.cpp:374-457 | every way a read ends, by the first sixteen octets: waiting, unknown byte order, length 0, negative length, or a message of exactly the announced octets |
| `Framing.StuckForever` | dbus-cxx/sendmsgtransport.cpp:467-480 | from then on any number of calls give no message, whatever octets arrive between them, and all octets stay unread |
| `Framing.SmallestOversized` | dbus-cxx/sendmsgtransport.cpp:401-407 | the header that does it: no header fields and a body of 2^27 - 15 octets; one octet less gives a message of exactly 2^27 |
| `Bodies.DirectShift` | dbus-cxx/types.cpp:192-224 | a value is laid out alike from every base that is a multiple of the largest alignment inside it |
| `Bodies.ElemAlignFound` | dbus-cxx/messageappenditerator.cpp:344-349 | the alignment found by parsing an element signature is the alignment of the element, when the parser accepts the signature |
| `Bodies.ElemAlignIff` | dbus-cxx/messageappenditerator.cpp:344-349 | and there is one exactly when the parser accepts the signature |
| `Layouts.WriteIff` | dbus-cxx/messageappenditerator.cpp:376-411 | an append succeeds, wherever the value stands, if and only if its signature values have at most 255 octets, its arrays at most 2^26 (their length taken modulo 2^32), and the parser accepts every element signature |
| `Layouts.NestedIsDirectIff` | dbus-cxx/messageappenditerator.cpp:326-411 | containers built in working buffers from offset 0 give the octets of the D-Bus format if and only if whatever is padded to 8 in its buffer stands in step with the message, all the way down |
| `Layouts.BodyIsDirectIff` | dbus-cxx/messageappenditerator.cpp:326-411 | the same for whole bodies |
| `ArrayLayouts.ArrayIsDirectIff` | dbus-cxx/messageappenditerator.cpp:382-393 | one array whose contents are right in their own buffer is right in the message if and only if its elements start at a multiple of 8 there or hold nothing 8-aligned, variants judged by what they hold |
| `ArrayLayouts.NestedIsDirect` | dbus-cxx/messageappenditerator.cpp:326-411 | in particular every type whose array elements are aligned at least as much as what they contain, at any offset |
| `ArrayLayouts.ArrayOfArraysIff` | dbus-cxx/messageappenditerator.cpp:382-393 | an array of arrays of 64-bit integers is right if and only if it is empty or its elements start at a multiple of 8 |
| `ArrayLayouts.ArrayOfArraysDiffers` | dbus-cxx/messageappenditerator.cpp:382-393 | for instance at offset 0 with one integer: 20 octets where the format has 16 |
| `Appending.MessageAppendIterator.OpenContainer` | dbus-cxx/messageappenditerator.cpp:326-374 | starts an empty working buffer of its own and, at the top, extends the message signature |
| `Appending.MessageAppendIterator.CloseContainer` | dbus-cxx/messageappenditerator.cpp:376-411 | copies the working buffer after length and padding; an array over its limit invalidates the message |
| `Appending.MessageAppendIterator.Append` | dbus-cxx/messageappenditerator.h:75-146 | on a valid message appends exactly the octets and the signature of the value, or invalidates the message, or aborts, and says when |
| `Appending.MessageAppendIterator.AppendEach` | dbus-cxx/messageappenditerator.h:75-146 | a chain of top-level appends adds the octets of all the values to the body and the signature of all their types to the header, or invalidates the message, or aborts, and says when |
| `Appending.MessageAppendIterator.AppendVariant` | dbus-cxx/messageappenditerator.cpp:304-323 | a variant is written in place in the D-Bus format; an empty one not at all |
| `Appending.EmptyVariantsAddNothing` | dbus-cxx/messageappenditerator.cpp:304-323 | empty variants change neither the body nor the signature |
| `Reading.MessageIterator.Next` | dbus-cxx/messageiterator.cpp:134-155 | moves along a struct and stays on the element type of an array |
| `Reading.MessageIterator.Recurse` | dbus-cxx/messageiterator.cpp:52-72 | the sub-iterator of a container, with the last position of an array measured from before its length, and the signature of a variant taken from the data |
| `Reading.MessageIterator.Get` | dbus-cxx/messageiterator.cpp:204-213 | reading the current value gives what the signature tree and the data stand for, and moves past it |
| `Reading.MessageIterator.GetArray` | dbus-cxx/messageiterator.h:204-251 | the array and dictionary loops collect the elements until the position has passed the last one |
| `Reading.MessageIterator.GetStruct` | dbus-cxx/messageiterator.h:223-230 | reads the members of a tuple in order |
| `Reading.MessageIterator.GetVariant` | dbus-cxx/variant.cpp:162-240 | reads a basic variant by the signature in the data |
| `Reading.EmptyRead` | dbus-cxx/variant.cpp:162-240 | a variant with a rejected signature is read as empty, and nothing after it is read |
| `BodyRoundTrip.ReadsBack` | dbus-cxx/messageiterator.cpp:52-155 | a value in the D-Bus format, in either byte order, is read back and read to its end when every array inside passes its gate |
| `BodyRoundTrip.ElementsReadBackIff` | dbus-cxx/messageiterator.h:214-220 | the array loop stops after exactly the written elements if and only if each takes octets and starts no later than the last position |
| `BodyRoundTrip.ArrayReadsBackIff` | dbus-cxx/messageiterator.cpp:61-63 | one array reads back and is read to its end if and only if it passes its gate; an empty one if and only if no padding follows its length |
| `BodyRoundTrip.GateClosedForm` | dbus-cxx/messageiterator.cpp:61-63 | a non-empty array passes its gate if and only if every element takes octets and the last one, its own padding included, takes at least as many as stand between the octet before the length and the first element |
| `BodyRoundTrip.MembersReadBackIff` | dbus-cxx/messageiterator.cpp:52-155 | values in the D-Bus format, without empty arrays of 8-aligned elements, read back if and only if every array inside passes its gate, and then the read ends where they end |
| `BodyUses.FriendlyGate` | dbus-cxx/messageiterator.cpp:111-126 | the gate is open for arrays at multiples of 4 whose elements have at least four octets, eight when they are 8-aligned, except empty arrays of 8-aligned elements |
| `BodyUses.BasicsAreCovered` | dbus-cxx/types.cpp:192-224 | those elements include every basic type of four octets or more |
| `BodyUses.DictionariesAreCovered` | dbus-cxx/messageiterator.h:232-251 | and dictionaries from strings to strings or variants |
| `BodyUses.FormatReadsBack` | dbus-cxx/messageiterator.cpp:52-155 | a body in the D-Bus format, in either byte order, is read back under its signature |
| `BodyUses.FormatReadsBackIff` | dbus-cxx/messageiterator.cpp:52-155 | without empty arrays of 8-aligned elements, if and only if every array passes its gate |
| `BodyUses.WrittenReadsBack` | dbus-cxx/messageappenditerator.cpp:326-411 | body round trip: writable values whose layouts agree are appended, and read back unchanged to the last octet when every array passes its gate |
| `BodyUses.FriendlyReadsBack` | dbus-cxx/messageiterator.h:204-251 | in particular for basic values, variants, structs of these, and the covered arrays |
| `BodyUses.FragmentReadsBack` | dbus-cxx/messageiterator.h:204-251 | so for basic types, variants, structs of these and arrays of covered elements only the places of the arrays matter: at multiples of 4, and none an empty array of 8-aligned elements |
| `BodyUses.OpenArraysTakeTheRest` | dbus-cxx/types.cpp:143-161 | under any valid signature the reader gets one value for each type, whatever the body, if and only if no array before the last type has booleans, doubles or variants innermost; otherwise fewer |
| `BodyUses.BooleansTakeTheRest` | dbus-cxx/types.cpp:143-161 | for instance `abi`: the array takes the integer into itself, and only one value is read, whatever the body |
| `BodyUses.SignatureAccumulates` | dbus-cxx/message.cpp:371-382 | a chain of top-level appends leaves the text of all their types in the message signature, up to 255 octets |
| `BodyUses.AppendedReadsBack` | dbus-cxx/message.cpp:172-369 | from append to read: appending writable values to a message without a body succeeds, and they come back to the reader of the message that was sent and parsed |
| `Connections.EveryRunIsSafe` | dbus-cxx/connection.cpp:359-627 | every step keeps the invariants of serials, queues, replies and arrivals |
| `Connections.SerialConservation` | dbus-cxx/connection.cpp:359-377 | with fewer than 2^32 serials handed out: all nonzero and distinct, each exactly once in the queue or among the writes, and queued messages written in the order they were queued |
| `Connections.ConservedForever` | dbus-cxx/connection.cpp:359-377 | in every run, of any length: serials follow each other, each is exactly once in the queue or among the writes, and queued messages are written in order |
| `Connections.NonzeroIff` | dbus-cxx/connection.cpp:364-482 | in every run, of any length: all serials are nonzero if and only if no call comes directly after serial 2^32 - 1 |
| `Connections.ReplyCorrelation` | dbus-cxx/connection.cpp:399-533 | no lookup of a waiting caller misses, no unreachable branch is reached, and a caller finishes only with an arrived reply to its own serial |
| `Connections.RepliesAnswer` | dbus-cxx/connection.cpp:399-533 | in every run, of any length: a reply that a caller has or took arrived and answers its serial |
| `Connections.BrokenIff` | dbus-cxx/connection.cpp:471-533 | in every run, of any length: every lookup of a waiting caller finds its entry and no unreachable branch is reached, if and only if no call is made under a serial that a caller is still waiting under |
| `Connections.NoReplyTwice` | dbus-cxx/connection.cpp:602-627 | in every run, of any length: no arrived reply goes to two callers, and none is both taken directly and stored |
| `Connections.IncomingConservation` | dbus-cxx/connection.cpp:418-461 | in every run, of any length: the messages its events read are those taken as the awaited reply of a direct call, those processed and those queued; processed and then queued ones are in the order read |
| `Connections.ArrivedIsRead` | dbus-cxx/connection.cpp:418-461 | in every run, the messages that arrived are exactly those that its events read, in order |
| `Connections.SentAsAsked` | dbus-cxx/connection.cpp:359-377 | in every run, each event that sends is handed the next serial, and what it asked to send goes out under that serial, through the queue or directly, in the order asked |
| `Connections.RepliesDelivered` | dbus-cxx/connection.cpp:486-533 | in every run without an overwritten entry: a waiting caller is woken exactly when a reply has been processed for it since it called, times out exactly when none has, and once woken finishes with that reply |
| `Connections.Enabled` | dbus-cxx/connection.cpp:399-461 | what can happen while a direct call waits and while none does |
| `Connections.Connection.Send` | dbus-cxx/connection.cpp:364-372 | takes the next serial, skipping 0, and queues the message under it |
| `Connections.Connection.QueueCall` | dbus-cxx/connection.cpp:471-482 | queues the call and enters its expectation in one step |
| `Connections.Connection.Flush` | dbus-cxx/connection.cpp:539-552 | the loop writes the queue front to back and leaves it empty |
| `Connections.Connection.WriteSingleMessage` | dbus-cxx/connection.cpp:554-558 | writes past the queue under the next serial |
| `Connections.Connection.ReadUntilReply` | dbus-cxx/connection.cpp:418-461 | the loop of a direct call ends with the first reply to its serial, takes it, and queues everything before it behind what was queued, in order |
| `Connections.Connection.ProcessSingleMessage` | dbus-cxx/connection.cpp:602-627 | pops one message; a reply to an expected serial becomes that entry, and nothing else changes the entries |
| `Wakeups.StepKeepsCovered` | dbus-cxx/standalonedispatcher.cpp:142-209 | every step keeps each queued message covered by a byte, by a sender that has yet to signal, or by the rest of the round |
| `Wakeups.NoLostWakeup` | dbus-cxx/standalonedispatcher.cpp:103-209 | whenever the dispatcher is blocked in poll, each queued message is covered by an unread byte or by a sender that has yet to signal, also when writes to a full socket are dropped and when connections with queued messages are added |
| `Wakeups.RoundEmptiesQueues` | dbus-cxx/standalonedispatcher.cpp:177-198 | a round that no other thread disturbs leaves every queue empty, whatever handlers send during it |
| `Wakeups.StopsOnlyWhenStopped` | dbus-cxx/standalonedispatcher.cpp:124-149 | the thread of a running dispatcher ends only in runs in which it is stopped |
| `Wakeups.StopLasts` | dbus-cxx/standalonedispatcher.cpp:124-149 | once stopped, it is no longer running |
| `Wakeups.FinishGoesOn` | dbus-cxx/standalonedispatcher.cpp:177-209 | after a connection comes the next one, after the last one poll while running and the end otherwise, with a byte for an incomplete connection |
| `Wakeups.PollTakesOne` | dbus-cxx/standalonedispatcher.cpp:161-175 | a return from poll takes one byte, if there is any, and starts a round |
| `Wakeups.DispatchGoesOn` | dbus-cxx/standalonedispatcher.cpp:177-209 | a dispatch flushes, sets the status, and is repeated until complete or at the limit |
| `Wakeups.SenderSignals` | dbus-cxx/connection.cpp:1035-1043 | a sender queues, then clears the status and leaves a byte |
| `Wakeups.StopAndAdd` | dbus-cxx/standalonedispatcher.cpp:103-136 | stopping and adding a connection leave a byte |
| `Wakeups.HandlerDispatches` | dbus-cxx/connection.cpp:1035-1043 | a handler that sends on the thread dispatches that connection at once |
| `Wakeups.RoundEnds` | dbus-cxx/standalonedispatcher.cpp:149-209 | from anywhere in a round there are steps to its end, in poll while running |
| `Routing.Router.ProcessCallMessage` | dbus-cxx/connection.cpp:643-689 | exactly one thing happens to a call, once: run here when its path belongs to the dispatching thread, handed over when its thread has a live dispatcher, and answered with an error otherwise |
| `Routing.Router.RemoveInvalid` | dbus-cxx/connection.cpp:1050-1080 | the two loops remove exactly the expired dispatchers and the paths bound to their threads |
| `Routing.CleanedIsClean` | dbus-cxx/connection.cpp:1050-1080 | after the cleanup nothing is expired, and exactly the other paths are left |
| `Routing.CleanupKeepsRoutesIff` | dbus-cxx/connection.cpp:1050-1080 | the cleanup changes where no call goes if and only if no path of the dispatching thread has an expired dispatcher entry |
| `Routing.CallsKeepRoutes` | dbus-cxx/connection.cpp:667-688 | under that condition no list of calls changes where any call goes, the entry made for a missing dispatcher included |
| `PropertyCache.StepKeeps` | dbus-cxx/interface.cpp:317-400 | every step of server, channel and proxy keeps each value on its way leading to the server's value |
| `PropertyCache.OvertakingLeads` | dbus-cxx/propertyproxy.cpp:55-75 | a reply that overtakes signals put aside still leads to the server's value |
| `PropertyCache.SetOvertakes` | dbus-cxx/propertyproxy.cpp:85-105 | so does the reply to a set, also when another set was handled between its signal and the reply |
| `PropertyCache.CacheConverges` | dbus-cxx/propertyproxy.cpp:55-124 | whenever a cached value is marked set, applying the undelivered signals to it in order gives the server's current value; with none undelivered the two are equal |
| `PropertyCache.CacheStep` | dbus-cxx/propertyproxy.cpp:55-124 | which step changes a cached value, to what, and whether it is marked |
| `PropertyCache.Flow` | dbus-cxx/propertyproxy.cpp:55-105 | when each step can happen, and how calls, requests and messages move |
| `PropertyCache.ReadOnlyStays` | dbus-cxx/interface.cpp:382-391 | over any run, remote sets leave a read-only property as it is |
| `PropertyCache.RepliesAreDiscreet` | dbus-cxx/interface.cpp:333-364 | over any run, no reply gives away the value of a write-only property, other than the one just set |
| `PropertyCache.WriteOnlyIsTold` | dbus-cxx/interface.cpp:445-463 | over any run, the values of a write-only property that messages give away are exactly the values it is set to, each once and in order, and always by a signal |
| `PropertyCache.JobRuns` | dbus-cxx/connection.cpp:1035-1039 | handling a request with those that come in during it is a run of the state machine |
| `PropertyCache.ChannelKeeps` | dbus-cxx/connection.cpp:539-552 | over any run, what the proxy read and what is on the wire is what was on it followed by what was sent, in order |
| `PropertyCache.Interface.HandleProperties` | dbus-cxx/interface.cpp:317-400 | a Get is answered with the value exactly when there is one and it may be read, a GetAll with exactly those values, a Set with signal and reply exactly when there is a value and it may be written, and everything else with an error; also when other requests are handled during the signal |
| `PropertyCache.Interface.Collect` | dbus-cxx/interface.cpp:327-341 | the loop gathers exactly the readable properties that have a value |
| `PropertyCache.Interface.SetValue` | dbus-cxx/property.cpp:65-73 | sets the value and sends exactly one signal with it |
| `PropertyCache.PropertyProxy.UpdatedValue` | dbus-cxx/propertyproxy.cpp:115-120 | stores the value and marks it set |
| `PropertyCache.PropertyProxy.SetValue` | dbus-cxx/propertyproxy.cpp:85-105 | stores the value without marking it; a constant is left alone |
| `PropertyCache.InterfaceProxy.PropertyUpdated` | dbus-cxx/interfaceproxy.cpp:426-447 | the loop updates exactly the known properties of a signal for its own interface |
| `PropertyCache.InterfaceProxy.CacheProperties` | dbus-cxx/interfaceproxy.cpp:405-424 | the loop caches every value, and fails exactly when one belongs to a property the proxy does not have |
| `Addresses.ParseTransports` | dbus-cxx/transport.cpp:53-121 | the loop with its state and accumulators computes the parse |
| `Addresses.ParsesListIff` | dbus-cxx/transport.cpp:53-121 | parsing the text of a list of addresses gives the list, in order and with the same maps, if and only if the last name is not empty |
| `Addresses.EnteredExactly` | dbus-cxx/transport.cpp:81-107 | with distinct keys the map of an address holds exactly its pairs |
| `Addresses.LaterPairCounts` | dbus-cxx/transport.cpp:81-107 | of two pairs with the same key the later one counts |
| `Paths.ValidIff` | dbus-cxx/path.cpp:51-65 | a path is valid exactly by the rules of the D-Bus specification |
| `Paths.DecomposedLoop` | dbus-cxx/path.cpp:67-96 | the loop cuts the path at its slashes |
| `Paths.JoinUndoesDecompose` | dbus-cxx/path.cpp:67-96 | joining the pieces of a valid path gives the path back |
| `Paths.DecomposedIntoNames` | dbus-cxx/path.cpp:67-96 | the pieces of a valid path other than the root are not empty and hold no slash |
| `Paths.AppendAdds` | dbus-cxx/path.cpp:98-126 | an append succeeds exactly on elements of path characters that are not empty, not a single slash and have no two slashes together, and then adds one slash and the element without the slashes at its ends; otherwise nothing changes |
| `Paths.AppendKeepsValidIff` | dbus-cxx/path.cpp:98-126 | an append keeps a valid path valid if and only if it fails or the path is not the root |
| `Paths.AppendAlgebra` | dbus-cxx/path.cpp:98-126 | on a valid path other than the root a successful append decomposes into the old pieces followed by those of the element |
| `Paths.Path.AppendElement` | dbus-cxx/path.cpp:98-126 | changes the path in place as the append says, and not at all when it fails |

## Left out

- Sockets, poll, descriptor duplication and ancillary data: system calls. The transport is a sequence of octets and descriptors are integers that come beside it.
- `dbus-cxx/simpletransport.cpp`: never created by `open_transport`.
- `dbus-cxx/sasl.cpp`, the name checks of `dbus-cxx/validator.cpp`, XML introspection, logging, other dispatchers, error-class tables, code generation: outside the protocol core.
- Framing.SendmsgTransport.WriteMessage: a send that takes some of the octets and descriptors beside them are not modelled; the system call takes all octets or fails.
- Framing.SendmsgTransport.ReadMessage: short reads, errors of the socket and ancillary data are not modelled, because they are results of system calls.
- Appending.MessageAppendIterator.Append: file descriptors are not modelled, because appending one duplicates it by a system call.
- Appending.MessageAppendIterator.AppendEach: file descriptors are not modelled, as in `Append`.
- Reading.MessageIterator.Get: values of type `h` are an abort, and numeric conversion to another type than the one in the signature is not modelled.
- Reading.MessageIterator.GetArray: dict entries with other than two members are an abort; the code would take members in pairs.
- Reading.MessageIterator.GetVariant: a container, a file descriptor or another variant inside a variant is an abort, as in `ReadVariant`, and types after the first in its signature are passed over.
- Reading.ReadVariant: a container, a file descriptor or another variant inside a variant of a body is `Abort` here; the code reads arrays and structs into a buffer of their own and leaves the other kinds empty.
- Reading.ReadElement: a dict entry with other than two members is `Abort` here; the code would take members in pairs and skip one between pairs.
- Reading.ReadNode: values of type `h` are `Abort` here (descriptor duplication), and numeric conversion to another type than the one in the signature is not modelled.
- Bodies.Write: file descriptors in bodies are not modelled, because appending one duplicates it by a system call.
- Variants.Variant: holds nothing or a basic value; header fields with containers inside are not modelled.
- Read positions are unbounded, under the assumption that data is shorter than 2^32 octets.
- Messages.CreateFromData: the position after an aborted read is not modelled.
- Connections.EveryRunIsSafe: bounded by 2^32 serials, after which they repeat; what holds beyond is `ConservedForever`, `NonzeroIff`, `RepliesAnswer`, `BrokenIff`, `NoReplyTwice` and `IncomingConservation`.
- Connections.ReplyCorrelation: bounded in the same way; beyond, `BrokenIff` has the exact condition.
- Wakeups.NoLostWakeup: connections are added only while the dispatcher thread is in poll, because adding one at another time writes to a vector that the thread is reading without a lock.
- PropertyCache.CacheConverges: proxy calls from other threads than the dispatching one are not modelled, because their replies are acted on after later signals and the cache may go stale.
- Object proxies bound to other threads, re-registration of objects, and deadlock between locks.
