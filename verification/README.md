# The ROM game server's wire stack and server protocol, verified

This project models the algorithmic core of a Go game server and proves what it is for.

* **The codec** (`internal/protocol`). An interpreter over a catalog of message and struct layouts: fixed-width integers,
  counted and NUL-terminated UTF-16 text, arrays of fixed size, counted lists, nested structs, and messages used as
  elements behind their opcode. `CodecSpec` says, as functions of a field's type, what a value looks like on the wire and
  what a run of bytes reads as; `Reading`, `Decoder`, `Encoder` and `ZeroValues` hold the cursors and loops, over catalogs
  whose types are still strings, proved to compute exactly that. `CodecProofs`, `CodecPrefix`, `CodecInput` and
  `CodecExact` prove the laws, for every well-formed catalog: `Schema.WellFormed` asks that opcodes and names index the
  same messages, that field names within a layout differ, that every message used as an element is known, and that no
  struct contains itself other than through a list. `WireForms` writes out, for every type name, the bytes of such a field.
* **The cipher and the session** (`internal/transport`). `RabbitSpec` writes out sections 2.3 to 2.7 of RFC 4503;
  `Ciphers.Rabbit` is the in-place implementation, proved against it, and `GoldenVectors` works the published first blocks
  through every state, with `BytewiseXor` to compute the XORs. `RabbitCounter` reads the eight counter words as one
  256-bit integer. `Keystreams` and `Framing` treat buffering, block alignment and framing for any block generator.
  `Session.Conn` is the keyed connection, `Link` puts two of them at the ends of two byte streams and follows every
  interleaving, from the plaintext hello on, and `Sealing` says which keystream every frame is encrypted with.
* **The catalog compiler** (`cmd/gen`). `Flattening` covers inheritance, `Reachability` the depth-first collection of
  struct names, `PrunedContents` and `Pruning` which layouts can be dropped without changing what the codec reads, what it
  writes and what it reports, and `Emitted` the tables the compiler keeps.
* **The server protocol** (`internal/game`, `internal/persist/postgres`, `internal/world`). `Store` is the characters table
  with its constraints, `Slots` the creation of characters by any number of sessions at once, `GameSpec` and `Game` one
  client's passage from login into the world, `Logins` who it is authenticated as, `Ownership` whose character it then
  plays, `EntryReplies` what it and the world are told on the way, `World` the single-owner command queue with the senders
  that wait for room in it, and `Departures` what a connection leaves behind in a world it shares.

Integers are mathematical; every place where the program wraps, truncates or reinterprets a machine integer says so
(`Wire.Truncate`, `Wire.Signed`, `Bits.Plus`, `GameSpec.Wrap64`). Bitwise operators are defined bit by bit in `Bits`, where
the arithmetic forms used elsewhere are proved equal to them. The session key derivation is an arbitrary function, random
draws are parameters, and what the database, the region service's sessions and a breaking connection answer is part of each
step's input, so the results hold whatever they answer.

What crosses the wire comes back in normal form (`CodecValues.Normal`): integers wrap to the width and take the signedness
of their field, and entries no layout declares are dropped. That holds except for a `System.Char[]` text that contains a
NUL, and for a list or string whose count does not fit in 32 bits; `CodecExact.RoundTripExactly` shows that there are no
other exceptions, and `CodecExact.NulCutsText` what becomes of a NUL. A frame comes back exactly when its body is at most
65533 bytes long (`Framing.FrameRoundTrip`), because the header is a 16-bit count that includes itself;
`Framing.OversizedFrame` gives the first body that does not.

Where comments and code differ, the model follows the code. `primitives.go` speaks of coercing any Go numeric, and the
codec accepts those; the model carries the two kinds a decoded message can hold. `collectReachable` says it adds every
struct a field reaches; it sees through one `[]` and one `List<...>` only, and `Emitted.NestedArraysNotPreserved` exhibits
a catalog outside those shapes on which the emitted tables decode less. Which layouts may be left out is settled for any
set of them by three equivalences. Decode does the same on every body exactly when every layout it can come to ask for,
and find bytes for, is kept (`PrunedContents.ReadExactly`); the same messages encode to the same bytes exactly when every
layout that writing some message takes is kept (`PrunedContents.WrittenExactly`); and Encode reports the same errors
besides exactly when every layout it can come to ask for at all is kept (`Pruning.ErrorsExactly`). Layouts enough
for the errors are enough for reading, and those for writing (`PrunedContents.FromErrorsToWriting`).

Two things a reader might expect of the server are not so, and the exact conditions are proved. A connection that ends
takes out of the world only the last character it entered with, so one that entered with two leaves the first behind
(`Departures.LeavesOneBehind`, `Departures.ClearedIffOneCharacter`). And a second login as another account keeps the
character of the first (`Ownership.SecondLoginKeepsCharacter`); that is the only way to come to play another account's
(`Ownership.OwnershipStep`, `Ownership.OwnCharacterIff`).

## Model

| member | source | states |
|---|---|---|
| Wire.ByteAt | internal/protocol/codec.go:107-110 | byte i of an integer written to the wire is its base-256 digit i, so the order is little-endian |
| Wire.ValLE | internal/protocol/primitives.go:36-44 | writing then reading a w-byte field keeps the integer modulo 256^w |
| Wire.LEVal | internal/protocol/codec.go:35-69 | reading then writing a run of bytes gives the same bytes |
| Wire.TruncateShift | internal/protocol/primitives.go:85-145 | moving between int64 and uint64 (a multiple of 2^64) changes no field of at most 64 bits |
| Wire.SignedTruncate | internal/protocol/primitives.go:10-18 | a number within a signed field's range comes back unchanged |
| Utf16.DecodeEncode | internal/protocol/codec.go:85-125 | text survives UTF-16 encoding and decoding |
| Utf16.EncodeDecodeLength | internal/protocol/codec.go:80-101 | units decoded, with lone surrogates replaced one by one, encode to as many units again |
| Utf16.RuneUnits | internal/protocol/codec.go:112-125 | a scalar value above 0xFFFF is written as a high and a low surrogate that together carry it, any other as its own unit |
| Utf16.LoneSurrogate | internal/protocol/codec.go:71-86 | a surrogate that does not begin a pair is read as U+FFFD and what follows it on its own |
| CodecProofs.PrimRoundTrip | internal/protocol/primitives.go:10-83 | every primitive's encoder and decoder are inverse up to wrapping to the field, with any bytes after it left alone |
| CodecProofs.ValueRoundTrip | internal/protocol/codec.go:149-295 | a value that fits its type encodes, and decoding its bytes followed by any others gives its normal form and those others |
| CodecProofs.ItemsRoundTrip | internal/protocol/codec.go:153-186 | the same for the elements of arrays and lists, in order |
| CodecProofs.FieldsRoundTrip | internal/protocol/codec.go:187-211 | the same for the fields of a struct, by name |
| CodecProofs.DecodeBody | internal/protocol/codec.go:218-240 | an encoded opcode leads decoding to its own message |
| CodecProofs.RoundTrip | internal/protocol/codec.go:129-240 | Decode of an encoded message followed by any bytes yields that message, its normal form, and exactly those bytes as tail |
| CodecExact.FitsBack | internal/protocol/primitives.go:36-83 | normalising a value cannot make one the wire cannot represent into one it can |
| CodecExact.RoundTripExactly | internal/protocol/codec.go:129-240 | whenever a message encodes, decoding returns its normal form if and only if its Char[] texts hold no NUL and its counts are below 2^32 |
| CodecExact.NulCutsText | internal/protocol/codec.go:88-125 | a Char[] text is cut at its first NUL, and its remaining units are left to be read as whatever comes next |
| CodecPrefix.ValueExtends | internal/protocol/codec.go:242-295 | a value that can be read is read the same when more bytes follow |
| CodecPrefix.PrefixUnreadable | internal/protocol/codec.go:242-295 | no strict prefix of a value's encoding can be read as its type |
| CodecPrefix.PrefixFree | internal/protocol/codec.go:149-213 | encodings of one type are prefix-free: if two continue to the same bytes, they are the same bytes, of values with the same normal form |
| CodecPrefix.Truncation | internal/protocol/codec.go:218-240 | a body cut after its opcode decodes to the longest run of fields lying wholly before the cut, and the tail starts at the first field that does not |
| CodecInput.EncodeSucceedsIff | internal/protocol/codec.go:129-213 | Encode succeeds if and only if every declared field is present with a value of its type's shape |
| CodecInput.CanonicalIsNormal | internal/protocol/codec.go:16-20 | what the decoder can produce is already in normal form and fits the wire |
| CodecInput.ValueReencodes | internal/protocol/codec.go:242-295 | whatever bytes a value was read from, it is canonical and encodes to as many bytes as were read |
| CodecInput.CompleteRun | internal/protocol/codec.go:230-239 | the decoding loop got a value for every declared name exactly when no field stopped it |
| CodecInput.DecodeNormalises | internal/protocol/codec.go:129-240 | any body whose fields all decode re-encodes to as many bytes as were consumed, which decode to the same values with no tail |
| WireForms.SignedField | internal/protocol/primitives.go:10-44 | a System.SByte, Int16, Int32 or Int64 field is 1, 2, 4 or 8 bytes of two's complement after the opcode, reads back as the same int64, and its zero is 0 |
| WireForms.UnsignedField | internal/protocol/primitives.go:10-44 | the same for System.Byte, UInt16, UInt32 and UInt64 |
| WireForms.BooleanField | internal/protocol/primitives.go:19-56 | a System.Boolean field is one byte, 1 or 0, and its zero is false |
| WireForms.FloatField | internal/protocol/primitives.go:23-66 | System.Single and System.Double fields are 4 and 8 bytes of bit pattern |
| WireForms.StringField | internal/protocol/codec.go:71-118 | a System.String field is its number of units in 32 bits and the units, low byte first |
| WireForms.CharArrayField | internal/protocol/codec.go:88-125 | a System.Char[] field is its units and two zero bytes |
| WireForms.ByteArrayField | internal/protocol/codec.go:153-170 | a fixed array is its elements alone, as many as are declared under Protocol.<message>, a bar, and the field |
| WireForms.ByteListField | internal/protocol/codec.go:171-186 | a list is its count in 32 bits and its elements |
| WireForms.ListSyntax | internal/protocol/codec.go:260-276 | the name between System.Collections.Generic.List< and > is the element's type |
| WireForms.ArraySyntax | internal/protocol/codec.go:246-259 | a name with [] after it is an array of that type, for every name but System.Char |
| WireForms.NameSyntax | internal/protocol/codec.go:277-295 | every name that is neither one of the thirteen primitives nor an array nor a list is a struct's |
| WireForms.EmbeddedIsMessage | internal/protocol/codec.go:187-211 | a message used as an element is written exactly as that message's own body, opcode and all, and Decode of those bytes returns it |
| WireForms.PlainStruct | internal/protocol/codec.go:187-211 | a struct that is no message is its fields alone |
| WireForms.FirstMissingNamed | internal/protocol/codec.go:201-210 | encoding names the first declared field that is missing, when all before it encode |
| WireForms.NoMessage | internal/protocol/codec.go:215-229 | a body too short for an opcode is refused, and one whose opcode no message has is left as tail |
| Reading.Reader.U8 | internal/protocol/codec.go:28-42 | advances by one byte and yields its value, or fails exactly when none is left |
| Reading.Reader.U16 | internal/protocol/codec.go:44-51 | as the specification's two-byte read, on what is left of the body |
| Reading.Reader.U32 | internal/protocol/codec.go:53-60 | as the specification's four-byte read |
| Reading.Reader.U64 | internal/protocol/codec.go:62-69 | as the specification's eight-byte read |
| Reading.Reader.Str | internal/protocol/codec.go:71-86 | the unit loop reads what the specification of a counted string reads, and fails on the same bytes |
| Reading.Reader.CharArray | internal/protocol/codec.go:88-102 | the loop to the NUL reads what the specification of NUL-terminated text reads |
| Decoder.DecodePrimitive | internal/protocol/primitives.go:10-33 | reads the primitive and moves the cursor as the specification says |
| Decoder.DecodeValue | internal/protocol/codec.go:242-295 | dispatching on the type string reads what the specification reads for the type it names; terminates for every catalog whose non-list containment is acyclic |
| Decoder.DecodeItems | internal/protocol/codec.go:246-276 | the element loop reads n values or fails with the first that fails |
| Decoder.DecodeStruct | internal/protocol/codec.go:277-293 | an embedded message's opcode is consumed unchecked before its fields |
| Decoder.DecodeFields | internal/protocol/codec.go:283-292 | the field loop collects the layout's fields under their names |
| Decoder.DecodeRun | internal/protocol/codec.go:230-239 | the first field that cannot be read is rolled back into the tail |
| Decoder.Decode | internal/protocol/codec.go:215-240 | the whole decoder equals the specification on every body |
| Encoder.Writer.Str | internal/protocol/codec.go:112-118 | appends the unit count and the units, after what was there |
| Encoder.Writer.CharArray | internal/protocol/codec.go:120-125 | appends the units and a NUL, after what was there |
| Encoder.EncodePrimitive | internal/protocol/primitives.go:35-83 | appends exactly the primitive's bytes, or reports the error the specification names |
| Encoder.EncodeValue | internal/protocol/codec.go:149-213 | appends exactly the value's bytes, or reports the first error in the codec's order of checks |
| Encoder.EncodeItems | internal/protocol/codec.go:166-184 | the element loop appends the elements' bytes in order |
| Encoder.EncodeFields | internal/protocol/codec.go:201-210 | the field loop appends the fields in layout order and names the first that is missing |
| Encoder.Encode | internal/protocol/codec.go:127-147 | the whole encoder equals the specification on every message and value |
| ZeroValues.ZeroOfType | internal/protocol/zero.go:30-66 | a type has a zero exactly when its arrays outside lists are sized and its structs known; the zero is canonical |
| ZeroValues.ZeroRoundTrip | internal/protocol/zero.go:5-28 | ZeroValues succeeds exactly on such messages, and what it builds encodes and decodes to itself with no tail |
| ZeroValues.OverriddenZeroEncodes | internal/protocol/zero.go:5-9 | overriding any fields of the zero values with values of their shapes keeps Encode total |
| ZeroValues.BuildValue | internal/protocol/zero.go:30-66 | the switch over type strings builds the zero of the type they name |
| ZeroValues.BuildItems | internal/protocol/zero.go:43-57 | the loop fills a fixed array with its size in zeros |
| ZeroValues.BuildFields | internal/protocol/zero.go:18-28 | the field loop builds the zero layout, or stops at the first unsized field |
| ZeroValues.Build | internal/protocol/zero.go:10-16 | the whole of ZeroValues equals its specification |
| Flattening.BuildChain | cmd/gen/main.go:156-172 | the loop up the bases returns the class, its parents and the non-empty root |
| Flattening.FieldsOf | cmd/gen/main.go:174-181 | the backward loop concatenates the classes' own fields last class first |
| Flattening.ChainIsFlat | cmd/gen/main.go:156-181 | chain then reverse is the recursive layout: the base's layout, then the class's own fields |
| Flattening.OwnFieldsLast | cmd/gen/main.go:174-181 | a class's own fields come last in its layout, in the order they were declared, after all that it inherits |
| Flattening.AncestorPrefix | cmd/gen/main.go:156-181 | every ancestor's layout is a prefix of its descendants' |
| Flattening.FallbackIsIdle | cmd/gen/main.go:186-189 | the fallback for an empty layout changes anything only for a base-less class with an empty name and fields |
| Flattening.BuildStructs | cmd/gen/main.go:183-193 | every dumped type gets its flattened layout, whatever the order of iteration |
| Flattening.MessageFields | cmd/gen/main.go:195-205 | a message's inherited layout comes before its own declared fields |
| Reachability.Collector.Collect | cmd/gen/main.go:207-227 | marks the type's struct and, from anything newly marked, everything it leads to, and nothing else; terminates on cyclic layouts |
| Reachability.Collector.CollectAll | cmd/gen/main.go:224-226 | the same for the fields of a layout |
| Reachability.CollectReachable | cmd/gen/main.go:97-107 | the emitted names are the least set holding the messages' structs and closed under layout references |
| Pruning.EncValueAlike | internal/protocol/codec.go:149-213 | a value encodes the same over the kept tables when its type asks only for kept layouts |
| Pruning.Probe | internal/protocol/codec.go:149-213 | every type that has values has one that both tables encode or one on which they report different errors |
| Pruning.AskedTells | internal/protocol/codec.go:187-211 | fields that come to ask for a layout that is missing, or leads to one, have values on which the two tables differ |
| Pruning.ErrorsExactly | internal/protocol/codec.go:129-213 | whatever layouts are kept, Encode is unchanged, errors included, if and only if every layout it can come to ask for is among them |
| PrunedContents.ReadBefore | internal/protocol/codec.go:242-295 | what can be read over the kept tables is read the same over all of them |
| PrunedContents.StillRead | internal/protocol/codec.go:242-295 | what can be read over all tables still is over the kept ones when its type asks only for kept layouts of types that have values |
| PrunedContents.LostBytes | internal/protocol/codec.go:242-295 | the encoding of a value that takes a missing layout is read over all tables and, whatever follows it, not over the kept ones |
| PrunedContents.ReadExactly | internal/protocol/codec.go:215-295 | whatever layouts are kept, Decode is unchanged on every body if and only if every layout it can come to ask for, and find bytes for, is among them |
| PrunedContents.WrittenExactly | internal/protocol/codec.go:127-213 | whatever layouts are kept, the same messages encode to the same bytes if and only if every layout that writing some message takes is among them |
| PrunedContents.FromErrorsToWriting | internal/protocol/codec.go:127-295 | layouts enough for the errors are enough for reading, and those are enough for writing |
| Emitted.SimpleBaseName | cmd/gen/main.go:208-215 | on X, X[], List<X> and List<X>[] the name the compiler strips down to is the struct the codec looks up |
| Emitted.EmittedExactly | cmd/gen/main.go:97-107 | the emitted tables read every body as the full ones do, write the same bytes, and report the same errors, each if and only if they keep the layouts that this takes |
| Emitted.PruningPreserves | cmd/gen/main.go:97-107 | with fields of those shapes the compiler keeps what the codec asks for, so Encode and Decode give the same result for every message, value and body |
| Emitted.NestedArraysNotPreserved | cmd/gen/main.go:208-222 | from X[][] the compiler reaches nothing, and a body the full tables decode loses its field |
| Bits.XorTwice | internal/transport/session.go:153-155 | XOR with the same mask twice is the identity |
| Bits.XorSplit | internal/transport/rabbit.go:107-110 | XOR acts separately on the low and the high bits |
| Bits.XorBit | internal/transport/rabbit.go:70-74 | bit k of an XOR is set exactly when the operands' bits k differ |
| Bits.OrBit | internal/transport/rabbit.go:30-43 | bit k of an OR is set exactly when either operand's is |
| Bits.ShiftOrIsOr | internal/transport/rabbit.go:36-42 | a half shifted up and ORed with a half is the two side by side |
| Bits.OrShift8IsOr | internal/transport/rabbit.go:31-33 | a byte ORed with a byte shifted up is their 16-bit little-endian value |
| Bits.RotateLeft8IsOr | internal/transport/rabbit.go:91-98 | a rotation by 8 is the bitwise OR of the word shifted up and the byte that comes round |
| Bits.RotateLeft16IsOr | internal/transport/rabbit.go:91-98 | the same for a rotation by 16 |
| Ciphers.CarryTest | internal/transport/rabbit.go:79-84 | comparing the wrapped sum with the counter word finds the carry, for exactly the increments below 2^32 |
| Ciphers.Increments | internal/transport/rabbit.go:12-15 | every constant plus a carry is such an increment, and not zero |
| Ciphers.CounterWord | internal/transport/rabbit.go:78-86 | one turn of the carry loop is one word of the counter system of RFC 4503, section 2.5 |
| Ciphers.Rabbit.constructor | internal/transport/rabbit.go:27-68 | NewRabbit leaves the state that sections 2.3 and 2.4 of RFC 4503 define, with nothing buffered |
| Ciphers.Rabbit.LoadKey | internal/transport/rabbit.go:30-43 | the subkey loops load the key expansion of section 2.3 |
| Ciphers.Rabbit.ExpandKey | internal/transport/rabbit.go:35-43 | every word is the pair of subkeys that section 2.3 gives it |
| Ciphers.Rabbit.Reinitialise | internal/transport/rabbit.go:47-49 | after the four rounds the counter is XORed with the state, as section 2.3 says, and nothing else changes |
| Ciphers.Rabbit.MaskCounter | internal/transport/rabbit.go:50-62 | the eight in-place XORs are the IV modification of section 2.4 |
| Ciphers.Rabbit.AdvanceCounter | internal/transport/rabbit.go:77-86 | the in-place loop is eight-word addition with carry |
| Ciphers.Rabbit.RabbitG | internal/transport/rabbit.go:70-74 | squaring in 64 bits and folding is the g-function of section 2.6 |
| RabbitSpec.GBit | internal/transport/rabbit.go:70-74 | bit k of a g-value is set exactly when bits k and 32 + k of the square of the wrapped sum differ |
| Ciphers.Rabbit.Squares | internal/transport/rabbit.go:87-90 | the loop computes the eight g-values from the advanced counter |
| Ciphers.Rabbit.MixStates | internal/transport/rabbit.go:91-98 | the eight assignments are the next-state function of section 2.6 |
| Ciphers.Rabbit.Next | internal/transport/rabbit.go:76-100 | one call is one step of the standard's state |
| Ciphers.Rabbit.Block | internal/transport/rabbit.go:106-110 | the four XORed words are the eight 16-bit slices of section 2.7 |
| Ciphers.Rabbit.Keystream | internal/transport/rabbit.go:102-117 | refilling and cutting hand out the next n bytes of the buffered generator |
| GoldenVectors.KeyOnly | internal/transport/rabbit_test.go:23-29 | under the key 00 01 ... 0F the first block is the published 08 40 4F 23 ..., worked through every state of the key setup |
| GoldenVectors.KeyAndIv | internal/transport/rabbit_test.go:30-37 | under that key and the IV AA BB CC DD 01 02 03 04 the first block is the published 49 08 2C D1 ... |
| RabbitCounter.AddWordsValue | internal/transport/rabbit.go:77-86 | word-by-word addition with carry is addition of the 256-bit integers |
| RabbitCounter.CounterStep | internal/transport/rabbit.go:76-86 | one step satisfies C' + b' 2^256 = C + A + b |
| RabbitCounter.CounterClosedForm | internal/transport/rabbit.go:76-86 | after n steps C + b is congruent to its start plus n A, modulo 2^256 - 1 |
| RabbitCounter.CounterPeriod | internal/transport/rabbit.go:76-86 | counters after i and j steps agree modulo 2^256 - 1 if and only if i and j differ by a multiple of 2^256 - 1 |
| RabbitCounter.NoEarlyRepeat | internal/transport/rabbit.go:76-100 | no cipher state recurs within 2^256 - 1 steps |
| Keystreams.RequestAt | internal/transport/rabbit.go:103-117 | one request returns the next stretch of the block stream and keeps the surplus |
| Keystreams.ChunkingIndependent | internal/transport/rabbit.go:103-117 | the outputs of any requests concatenate to the start of one block stream, fewer than 16 bytes stay buffered, and the state made ceil(total/16) steps |
| Framing.FrameRoundTrip | internal/transport/session.go:121-145 | a frame is read back, and what follows left alone, if and only if its body is at most 65533 bytes |
| Framing.FrameLayout | internal/transport/session.go:137-144 | a frame begins with its own length, both bytes of the length included, low byte first |
| Framing.OversizedFrame | internal/transport/session.go:127-139 | a body of 65534 bytes wraps the length to 0: the reader reports a bogus length and takes the body for later frames |
| Framing.ReadFrameExtends | internal/transport/session.go:121-135 | later bytes do not change a frame that was complete, nor a bogus length |
| Framing.CutFrame | internal/transport/session.go:121-145 | a frame whose writing broke off is never delivered in part: its reader waits for the rest |
| Framing.CryptTwice | internal/transport/session.go:149-157 | a cipher in the same state decrypts a frame and ends in the same state |
| Framing.CryptAligned | internal/transport/session.go:146-157 | a frame takes whole blocks and leaves the buffer empty |
| Framing.StepsTaken | internal/transport/session.go:146-157 | over every history of frames the buffer is empty between them and the cipher stands at the sum of their block counts |
| Framing.FrameKeystream | internal/transport/session.go:146-157 | frame k is XORed with the blocks from the sum of the earlier frames' block counts on |
| Framing.StretchesDisjoint | internal/transport/session.go:146-157 | different frames use disjoint stretches of keystream, in order |
| Framing.Lockstep | internal/transport/session.go:149-157 | an instance in the same state decrypts a whole history and ends level |
| Session.Crypt | internal/transport/session.go:149-157 | the byte loop over the aligned keystream is the specified encryption of the frame |
| Session.Conn.constructor | internal/transport/session.go:70-77 | the receiving cipher is keyed from the derived key and the client's IV, the sending one from the server's, each IV as eight bytes, low byte first |
| Session.Conn.ReadFrame | internal/transport/session.go:119-135 | takes one frame off the stream, or reports the bad length or the end of the stream |
| Session.Conn.WriteFrame | internal/transport/session.go:137-144 | appends the header and the body to what was written, or, when the socket breaks before taking them whole, what it took, and reports which |
| Session.Conn.Send | internal/transport/session.go:94-101 | writes the encrypted frame and advances only the sending cipher, also when the write fails, which is reported; an encoding error writes nothing and advances nothing |
| Session.Conn.Recv | internal/transport/session.go:103-111 | reads, decrypts and decodes one frame, advancing only the receiving cipher |
| Session.Handshake | internal/transport/session.go:35-92 | keys the connection, each direction with its own IV, keeps the two identifiers, and writes the hello in plaintext, byte for byte, without using keystream; or reports that the hello could not be encoded or written |
| Handshakes.Int64LERoundTrip | internal/transport/session.go:63-64 | eight key bytes survive being sent as an int64 |
| Handshakes.HelloBytes | internal/transport/session.go:79-90 | the hello's body is the opcode, the socket id, the connection key, the client's IV, the server's IV and the sixteen key bytes as drawn |
| Handshakes.HelloRoundTrip | internal/transport/session.go:79-90 | the hello is 52 bytes long and decodes to exactly what was sent |
| Handshakes.PeersAgree | internal/transport/session.go:35-92 | a peer that decodes the hello arrives at the server's two ciphers, whatever the key derivation |
| Handshakes.HelloCatalogServes | internal/protocol/catalog_gen.go:2530-2537 | the catalog holding only the hello is well formed, so the session results speak of something |
| Link.FlowSend | internal/transport/session.go:94-101 | sending keeps one direction's invariant: the unread bytes are the frames of the messages not yet received |
| Link.FlowRecv | internal/transport/session.go:103-111 | receiving keeps it, never sees a bogus length, and delivers the oldest message not yet received |
| Link.Reached | internal/transport/session.go:35-157 | both directions' invariants hold after every sequence of sends, deliveries and receives from the handshake on |
| Sealing.EveryFrameSealed | internal/transport/session.go:70-101 | in every reachable state the server's next frame is its body XORed with its own stretch of the keystream of the cipher set up from the announced m_serverSendIV, the client's with m_clientSendIV's |
| Link.Drain | internal/transport/session.go:103-135 | from every state in which the invariants hold some deliveries and receives alone bring both ends everything |
| Link.EndToEnd | internal/transport/session.go:35-157 | what each end has received is an in-order prefix of what the other sent, in normal form with empty tails, and all of it once the streams are drained |
| Link.EverythingArrives | internal/transport/session.go:35-157 | from every reachable state some deliveries and receives alone bring each end everything the other has sent |
| Store.ListingShows | internal/persist/postgres/store.go:69-92 | a listing holds exactly the account's live rows, each once, in slot order |
| Store.InsertKeepsConsistent | internal/persist/postgres/store.go:109-144 | every insert, refused or not, keeps slots unique within an account, live names unique, and ids distinct and below the next |
| Store.Database.ListCharacters | internal/persist/postgres/store.go:69-92 | the row loop returns the listing |
| Store.Database.CreateCharacter | internal/persist/postgres/store.go:109-129 | inserts the row under a new id, or changes no row and reports a violated constraint; either way an id is used up |
| Slots.FreeSlot | internal/game/lobby.go:162-174 | returns the lowest slot below 3 that no listed character has, and fails exactly when all three are taken |
| Slots.TrimLeft | internal/game/lobby.go:95-97 | what is cut off the front of a name is white space, and what remains does not begin with any |
| Slots.TrimRight | internal/game/lobby.go:95-97 | the same at the end |
| Slots.WhiteSpace | internal/game/lobby.go:95-97 | white space is the 25 code points of Unicode's White_Space |
| Slots.ClaimExtends | internal/game/lobby.go:116-124 | claiming a chosen slot makes the account's segment one longer and leaves every other account's alone |
| Slots.ChooseSlot | internal/game/lobby.go:91-114 | name check, listing and slot choice decide as the first step of the interleaved model |
| Slots.ClaimSlot | internal/game/lobby.go:116-139 | the insert and its mapped errors give the outcome and table of the second step |
| Slots.HandleCreatePlayer | internal/game/lobby.go:91-139 | without interference the handler does the two steps in sequence |
| Slots.EveryRun | internal/game/lobby.go:93-139 | the invariant of tables and half-finished creations holds after every interleaving of any number of sessions |
| Slots.SlotsStayInitial | internal/game/lobby.go:93-174 | after every interleaving an account's slots are 0 to k - 1 for some k of at most 3 |
| Slots.ConstraintsHold | migrations/0001_init.sql:14 | after every interleaving no two characters share an account and slot, nor a name, nor an id |
| Slots.SlotTakenIsARace | internal/game/lobby.go:107-132 | a chosen slot is taken if and only if another creation for that account and slot committed since the listing; the session is told so, unless its name is taken too and that is reported |
| Slots.UndisturbedOutcome | internal/game/lobby.go:17-139 | without interference the result codes 26, 55001, 50102 and 0 are each equivalent to a state of the table; a new character gets the slot after the last, the class and head asked for, level 1 and map 501, and nothing else changes |
| GameSpec.WarpToken | internal/game/enter.go:188-200 | the warp token is never zero |
| GameSpec.EveryLife | internal/game/handler.go:53-129 | the session invariant holds after every sequence of messages, environment answers and send failures |
| GameSpec.FieldRead | internal/game/handler.go:204-229 | a decoded field is read as 64 bits whichever its sign, and is 0 or empty when missing or of another kind |
| GameSpec.Int32Wraps | internal/game/handler.go:143 | an int32 conversion keeps the low 32 bits, signed |
| GameSpec.InSlotMeans | internal/game/enter.go:34-40 | a listed character in the slot asked for is found if and only if there is one |
| Logins.AuthenticatedIff | internal/game/handler.go:157-185 | after every run the session is authenticated if and only if it heard a login that presented the key and user of a live session of the region service, for this world, whose account was stored; it is then the account of the last such login |
| Logins.LoginAnswers | internal/game/handler.go:157-185 | success is said exactly where such a login is answered, and failure exactly where any other login is |
| Logins.TraceSafety | internal/game/handler.go:90-185 | every reply has its reason: a version answer follows a request that echoed both handshake identifiers and any required version; S2C_MapEnter one that echoed, non-zero, the token of the latest S2C_EnterWorldComplete; S2C_MapEnterComplete carries the object id that one gave; all but the answers to version checks and logins come after an accepted login |
| GameSpec.LoginGate | internal/game/handler.go:90-106 | before a successful login anything but a version check or a login ends the connection unanswered |
| GameSpec.VersionAnswer | internal/game/handler.go:131-155 | a version check is answered if and only if both handshake identifiers and any required version are echoed and the connection takes the send; it changes nothing else |
| GameSpec.LobbyAnswer | internal/game/handler.go:108-128 | each of the six lobby requests is acknowledged if and only if what it asks of the store comes about and the connection takes the send; it changes nothing else |
| GameSpec.OtherInputs | internal/game/handler.go:66-87 | an unknown opcode changes nothing; anything unreadable ends the connection unanswered |
| GameSpec.UndecodedTokenRefused | internal/game/enter.go:126-129 | in every reachable state a map entry whose token was not decoded is refused without a reply |
| EntryReplies.SessionOid | internal/game/enter.go:49-56 | in every reachable state the session's object id is its character's: for ids of up to nine digits, the world's number followed by them |
| EntryReplies.UniqueInWorld | internal/world/world.go:19-24 | within one world no two characters share an object id, whatever their ids |
| EntryReplies.WorldUnique | internal/game/enter.go:53 | among ids of up to nine digits, characters of different worlds never share one either |
| EntryReplies.RunsOver | internal/game/enter.go:53 | with ten digits they can: an id runs over into the next world's |
| EntryReplies.EveryReplyExplained | internal/game/enter.go:23-175 | in every run a request to enter is answered with the slot of the character it chose or with 50101, then with the token drawn and that character's object id; loading a map is answered with the map, and then the object id, of the character entered with last |
| EntryReplies.EveryJoinTold | internal/game/enter.go:58-71 | every join the world is told is an entry's: the chosen character's id, name, map and pose under its object id, for the account of the last accepted login |
| Departures.GoneIff | internal/game/handler.go:58-64 | whatever other connections do: a character the connection entered with is absent, once its commands have been run, if and only if the last command run that joins or removes it, no matter whose, is a leave |
| Departures.ClearedIffOneCharacter | internal/game/handler.go:58-64 | in a shared world, where no other connection's command joins or removes its characters, none of them is left if and only if it only ever entered with one |
| Departures.LeavesOneBehind | internal/game/enter.go:50-53 | a login and two C2S_EnterWorld for two slots end with the first character in the world and the second gone |
| Ownership.EveryEntryIsOwn | internal/game/enter.go:27-56 | the session's character is of the account it entered the world as |
| Ownership.OnlyInSlot | internal/game/enter.go:27-40 | with the table's constraints, a character is found in a slot of the account's listing if and only if it is the one live row the account has there |
| Ownership.CharacterIff | internal/game/enter.go:27-56 | after every run the session's character is the one that the latest request to enter, heard after an accepted login, chose from its listing; without such a request it has none |
| Ownership.OwnershipStep | internal/game/handler.go:157-185 | a session that plays its own character goes on to if and only if it does not, while it has one, accept a login as another account |
| Ownership.OwnCharacterIff | internal/game/handler.go:157-185 | after every run the character is of the account the session is logged in as if and only if the last accepted login and the last one accepted before the latest entry name the same account |
| Ownership.OneAccountOwns | internal/game/handler.go:157-185 | on a connection that only one account logs in on, the character is always that account's |
| Ownership.SecondLoginKeepsCharacter | internal/game/handler.go:157-185 | a login as a second account after entering the world leaves the session with the first account's character |
| Game.Session.HandleEnterWorld | internal/game/enter.go:23-74 | sets the four world fields together, queues one join, and sends two replies, the second only after the first went out |
| Game.Session.FindSlot | internal/game/enter.go:34-40 | the loop finds the first listed character in the slot, and finds none only when no listed character has it |
| Game.Session.HandleMapEnter | internal/game/enter.go:120-152 | refuses without a character or on another token, and changes no field but the log |
| Game.Session.Dispatch | internal/game/handler.go:90-129 | every message does what is planned for it; all but the version check and the login need authentication |
| Game.Serve | internal/game/handler.go:51-88 | the loop hears inputs until something fails; whatever it heard, every reply it said has its reason, nothing was answered before a login that needs one, the session is authenticated as the last accepted login's account or not at all, and what it leaves the world is its joins, then one leave if the session was in the world |
| World.Presence | internal/world/world.go:82-107 | a character is present if and only if the last of its joins and leaves was a join; it is that join's player, under its own id, at the pose of the last move since |
| World.LogReplay | internal/world/world.go:51-107 | over every schedule the players are the fold of the drained commands, and the queue is never over its capacity |
| World.ProgramOrder | internal/world/world.go:73-107 | over every schedule the commands a session issued and did not give up are those run, those queued and the one it waits with, in program order: none is lost, doubled or overtaken |
| World.QueueOrder | internal/world/world.go:55-80 | across all sessions commands are run in the order in which they entered the queue |
| World.AbsentIff | internal/world/world.go:82-99 | whoever uses the world, a character is absent if and only if the last command run that joins or removes it is a leave, or none does |
| World.Owner.Offer | internal/world/world.go:73-80 | a session's command waits to be queued, and the session with it: one step of the schedule |
| World.Owner.Do | internal/world/world.go:73-80 | the waiting sender's command goes to the end of the queue when there is room, is dropped only when the sender is cancelled, and waits otherwise: one step of the schedule |
| World.Owner.Turn | internal/world/world.go:51-107 | one turn runs the oldest command on the players, or ticks and changes nothing: one step of the schedule |
| World.Play | internal/world/world.go:51-107 | over every schedule the owner's players end up as the fold of the drained commands, and every session's commands are accounted for in order |

## Left out

- Floating-point values: Single and Double fields carry their 32- and 64-bit patterns; converting between float widths, or
  between floats and integers, is not modelled.
- Encoder.EncodePrimitive: a value is of one of the kinds a decoded message holds. toInt64 and toUint64 also take Go's
  other integer types, which convert to int64 and uint64 first without change, and floats, and toFloat64 takes integers.
- Invalid UTF-8 in Go strings: text is a sequence of Unicode scalar values.
- Memory: a list's count is believed before its elements are read, and the memory that allocates is not modelled.
- The generated tables: the results are for every well-formed catalog, not for the entries of catalog_gen.go.
- CodecProofs.RoundTrip: asks for values the wire can represent; CodecExact.RoundTripExactly shows that this is exactly
  when it holds.
- Emitted.PruningPreserves: asks that fields be of the shapes X, X[], List<X> and List<X>[]; Emitted.EmittedExactly says
  when the emitted tables will do for fields of any shape, of which Emitted.NestedArraysNotPreserved is a case.
- Flattening.BuildChain: asks that bases be acyclic, without which the source's loop does not end.
- Reachability.CollectReachable: asks that no field type be the bare list prefix, on which the source's slicing is out of
  range.
- Link.EndToEnd: asks that every message sent encodes to at most 65533 bytes and fits the wire; Framing.FrameRoundTrip and
  CodecExact.RoundTripExactly show that neither bound can be moved. It follows connections whose writes succeed; after a
  failed one the server drops the connection, and Framing.CutFrame shows that the part written delivers nothing.
- The client: no client is part of the repository; Link gives it the mirror of the server's connection.
- Handshake failures of the random source, AES-128 key derivation, and the socket itself: parameters.
- Store.Database.CreateCharacter: columns that creation leaves at their defaults are not carried, and errors other than the
  two uniqueness constraints are not modelled; when both are violated either may be reported.
- Reply contents: replies carry the fields the results speak of; the copying of character fields into replies and the
  lobby's other answers are not modelled.
- Departures.ClearedIffOneCharacter: asks that the connection's commands were all run, and that no other connection's
  command joins or removes its characters; Departures.GoneIff says what becomes of them when others do.
- Ownership.OwnCharacterIff: asks that every listing the store answers with be of the account the session is logged in as,
  which Store.Database.ListCharacters promises of the account it is given; so does Ownership.OwnershipStep.
- EntryReplies.WorldUnique: asks for character ids of at most nine digits and worlds below 9,000,000,000; beyond that
  EntryReplies.RunsOver shows it false, and EntryReplies.UniqueInWorld what remains.
- GoldenVectors.KeyAndIv: the first block of each of the published keystreams for this key; the blocks after it are those
  of the same state machine.
- World.Owner.Offer: a session waits for one command to be queued before it issues another, as its serving loop does.
- JSON loading, table output, configuration, logging, the HTTP exchange with the region service, clocks and the accept loop.
