# A verified model of the AMQP 1.0 codec in `serde_amqp`

This project models, in Dafny, the code that turns Rust values into AMQP 1.0 bytes and back, and
proves what the two directions promise each other. It follows the type encodings of the OASIS AMQP
1.0 specification, Part 1 (sections 1.2, 1.4 and 1.6). Two smaller protocols of the same repository
are modelled beside it: the WebSocket adapter and the server's side of SASL negotiation.

## How the model is laid out

- `Bytes`, `Utf8`, `Characters`, `FormatCodes`, `Values`: octets and big-endian integers, UTF-8, the format
  codes and their categories, the values that are serialized and the types that drive deserialization.
- `Wire`: the reference encoding `Encode`, a function of the value alone, with the three
  array-element modes and the header writers including their narrowing casts.
- `Encoder`: the serializer as a function of its state (`Run`), including the flags it leaves set,
  the stack of struct encodings and the sizes it takes to reserve buffers. `Serializers` is the same
  as an object that is updated in place, every method proved to do what `Encoder` says.
  `MapSerializers` is the state machine behind maps.
- `Numbers`: the wire format in numbers. What is written is compared there, octet by octet, with the
  constructors as the standard numbers them, so that no law rests on the name of a constant alone.
- `Forms`, `Liberal`, `Conformance`: everything the decoder is meant to accept, in numbers; the proof that
  it does accept it; the proof that what the encoder writes is among it.
- `Sizes`: `serialized_size`. `SizeProofs` compares it with the encoding, `SizeValues` says what it is.
- `Tameness`, `Refinement`, `Sharing`, `Misplaced`: the values that are written independently of the
  serializer's state, the proof that `Run` then is `Encode`, and what happens to the other values.
- `Decoder`: the deserializer as a function of its state, on any input. `Deserializers` is the same as
  an object with its accessors as loops. `Modes` proves what every decode does to the mode fields.
- `Scalars`, `Headers`, `HeldBack`, `RoundTrip`, `Normal`, `Codec`: the round trip, bottom up.
- `Lazy`: reading a value without decoding it. `Transparent`: peeking at descriptors and splitting off
  transparent vectors.
- `Arrays`, `Panics`, `Truncation`, `Refusals`: input that no serializer wrote, or that was cut off.
- `WebSockets`, `Sasl`: the two protocols.

`Panic` stands for `unreachable!()` and for an unsigned subtraction or addition that overflows, as a
checked build reports it.

## Where the code does not do what one would expect

These are modelled as the code has them. Each names the lemma that says when it happens.

- A string inside an array is prefixed with its number of characters, not of bytes
  (serde_amqp/src/ser.rs:481, 505): such an array comes back if and only if every string is ASCII
  (`RoundTrip.ArrayExactly`, `Codec.NonAsciiArrayIsLost`).
- A key and its value share a serializer in `serialize_entry`, and a timestamp or an array leaves its
  flag set (serde_amqp/src/ser.rs:261-268, 1217-1219): a map entry is written correctly if and only if
  its value does not read the flag its key leaves (`Sharing.EntryIff`, `Sharing.TimestampKey`). Fed as
  a key and then a value, the same entry is always written correctly (`MapSerializers.MapRuns`).
- A plain struct directly inside a described value pops the described value's entry from the stack of
  struct encodings, and a stray empty list is written behind it. A call leaves the stack as it was if
  and only if the stack was empty or the value is no such struct (`Sharing.StackBalance`), and the bytes
  of a struct in described values are right if and only if it has no fields and the encoding around it is
  a list or nothing (`Misplaced.MisplacedIff`, `Misplaced.DescribedStructIsWrong`).
- `Some(x)` comes back as `None` when the encoding of `x` starts with null, and so does a default field
  with such a value (`RoundTrip.ValueExactly`, through `Decodable`).
- `serialized_size` adds the descriptor to the body before it chooses the header, so it overestimates
  in two cases and fails in a third (`SizeProofs.CompositeSizeIff`), by two, six or eight octets
  (`SizeValues.CompositeExcess`). At every depth it is the length of an encoding with the descriptor behind
  the header (`SizeValues.SizeIsCounted`).
- A map that is announced as empty and then fed a key underflows its reserve arithmetic, if and only if
  that key and its value can be written (`MapSerializers.PanicsIff`).
- A lazy read refuses a described value directly inside a described value, although the comment on it
  speaks of the next valid AMQP value (`Lazy.LazyIff`).
- An array that does not fill the body it declares is decoded, and the rest of the body is left in front
  of the next value (`Arrays.UnfilledBody`). A decoded array of scalars ends where its header says if and
  only if a walk by the category of its element constructor does: for a count of zero, if the size covers
  the count alone; for a constructor of fixed width, if count times width is the size less its offset
  (`Arrays.ArrayEndsIff`).
- Received bytes can overflow the decoder's header arithmetic (`Panics.ShortHeadersPanic`,
  `Panics.ShortArrayPanics`, `Panics.HalfPairPanics`, `Panics.LargestCountPanics`), but only in a header with a size below its offset, an odd map count or a list
  count of 2^32 - 1 (`Panics.PanicHasHeader`).
- The end of the input stands for the end of a composite's list (serde_amqp/src/de.rs:1766-1769), so a
  composite that was cut off can decode without an error (`Truncation.HeaderAloneDecodes`). A proper prefix
  of an encoding decodes if and only if the cut is at or in a field of a composite that ends the encoding,
  with only optional, default or multiple fields behind it, at every level (`Truncation.ValueCut`, through
  `Cut`); without composites every cut is noticed (`Truncation.NoCompositeNoCut`).
- The SASL loop does not look at the mechanism named in an init frame, and neither does the PLAIN acceptor
  (`Sasl.MechanismIsIgnored`, `Sasl.PlainNegotiates`). It hands a response that no challenge preceded to the
  acceptor (`Sasl.ResponseNeedsNoChallenge`), so the anonymous acceptor takes one for an init
  (`Sasl.AnonymousNegotiates`).

## Model

| member | source | states |
|---|---|---|
| Codec.CodecRoundTrip | serde_amqp/src/ser.rs:152-1299 | the stateful serializer accepts exactly the values whose parts fit and whose first elements, first entries and variant values can be sized for the buffers it reserves, and what it writes in front of any bytes decodes to the normal form and leaves exactly those bytes, if and only if the value is decodable |
| Codec.SameValueIff | serde_amqp/src/de.rs:97-1255 | the very value comes back if and only if it is decodable and has no empty multiple array |
| Codec.EncodingIsInjective | serde_amqp/src/ser.rs:32-40 | two decodable values of one type with one encoding have one normal form |
| Codec.PrefixFree | serde_amqp/src/ser.rs:32-40 | no encoding of a type is a proper prefix of another, so values can follow each other without separators |
| Numbers.ScalarInOctets | serde_amqp/src/format_code.rs:11-189 | every scalar in numbers, outside an array, as first element and as later element: which constructor, when the compact form is taken, which octets in which order |
| Numbers.EncodingInOctets | serde_amqp/src/ser.rs:939-1063 | every encoding in numbers, one constructor deep: null, list, map, array, described, composite and variants, with their headers |
| Numbers.HeadersInModes | serde_amqp/src/ser.rs:1021-1063 | as a later array element a compound loses its constructor, except the empty list |
| Numbers.BEByPosition | serde_amqp/src/ser.rs:301-374 | octet `i` of an unsigned integer in `w` octets is its digit of weight 256 to the `w - 1 - i` |
| Numbers.SignedByPosition | serde_amqp/src/ser.rs:196-274 | the same for signed integers, in two's complement |
| Numbers.ConstructorsInOctets | serde_amqp/src/format_code.rs:97-189 | the forty octets that are constructors |
| Numbers.LimitsInNumbers | serde_amqp/src/ser.rs:23-29 | what is too long to be written, and the cap on counts that are read |
| Characters.ValidIff | serde_amqp/src/de.rs:307-363 | well-formed text is the UTF-8 of a sequence of Unicode scalar values, and nothing else |
| Characters.TextIsValid | serde_amqp/src/ser.rs:470-514 | the number of characters is the number of scalar values |
| Liberal.ReadsDecode | serde_amqp/src/de.rs:97-1255 | every encoding that the standard allows for a value, in any form of its primitives, under headers of either width, by name or by code, bare for an array of one, nested to any depth, decodes to that value in front of any bytes |
| Forms.ScalarFormDecodes | serde_amqp/src/de.rs:97-448 | every form of every scalar decodes to it, with its constructor read or set for an array |
| Liberal.BareValueDecodes | serde_amqp/src/primitives/array.rs:165-183 | one bare scalar decodes as an array of it, and as the one value of a multiple field |
| Liberal.NamedVariantDecodes | serde_amqp/src/de.rs:1287-1320 | a unit variant is found by its name, as a string or a symbol |
| Liberal.FindsFirst | serde_amqp/src/de.rs:1287-1320 | the index found for a name is that of the first variant of that name |
| Conformance.Conforms | serde_amqp/src/ser.rs:152-1299 | at every depth, what the encoder writes for a decodable value is an encoding of its normal form that the standard allows |
| RoundTrip.ValueExactly | serde_amqp/src/de.rs:526-1320 | round trip of the reference encoding for every nested value, in front of any bytes, under any struct encoding, if and only if decodable |
| RoundTrip.ArrayExactly | serde_amqp/src/de.rs:864-942 | an array of one scalar type comes back exactly when its count is capped and its strings are ASCII |
| RoundTrip.CompositeExactly | serde_amqp_derive/src/de.rs:459-506 | a composite written with any number of elements from the last flushed field up to its field count decodes to its normal form, if and only if its fields are decodable |
| RoundTrip.CompositeUnder | serde_amqp_derive/src/de.rs:27-58 | the same under the symbolic name of a type, whether or not it has a code, and under its code |
| RoundTrip.OtherDescriptorRefused | serde_amqp_derive/src/de.rs:27-58 | any other name and any other code is refused with a message, whatever list follows |
| RoundTrip.FieldsExactly | serde_amqp_derive/src/util.rs:339-369 | the generated field-by-field decode restores held-back nulls and defaults, present or cut off |
| RoundTrip.OptionExactly | serde_amqp/src/de.rs:784-802 | `Some(x)` comes back as `Some` exactly when `x` does not read as null |
| RoundTrip.EntriesExactly | serde_amqp/src/de.rs:1541-1586 | the entries of a map come back in order from a count of both keys and values |
| RoundTrip.DescriptorFront | serde_amqp/src/descriptor.rs:63-131 | a descriptor comes back, by name or by code, and the reader stops behind it |
| RoundTrip.VariantExactly | serde_amqp/src/de.rs:1168-1255 | enum variants of all modelled shapes come back through the map of one index and one value |
| Codec.TrailingNulls | serde_amqp/src/de.rs:1756-1791 | padding a composite with nulls, by any amount up to its field count, changes the body by exactly those nulls and the decoded struct not at all |
| Codec.CompositeCount | serde_amqp_derive/src/util.rs:262-308 | the count on the wire is the index of the last flushed field plus one |
| Normal.NormIdempotent | serde_amqp_derive/src/de.rs:470-480 | normalising twice is normalising once |
| Normal.DecodedIsNormal | serde_amqp_derive/src/de.rs:459-506 | on any input and at any type, what is decoded is in normal form |
| Codec.ArrayBound | serde_amqp/src/de.rs:1363-1417 | on any input a decoded array has exactly the declared count, at most 65,536 and at most the declared size, and stays within the declared body |
| Arrays.ArrayEndsIff | serde_amqp/src/de.rs:864-942 | on any input, exactly when a decoded array of scalars ends where its header says: by a walk over the body, by a product for fixed widths, by the size alone for a count of zero |
| Arrays.ElementsWalk | serde_amqp/src/de.rs:1381-1417 | on any input, decoded elements end where the category of their shared constructor says |
| Arrays.UnfilledBody | serde_amqp/src/de.rs:1381-1417 | an array that declares more body than its element fills is decoded and leaves the rest |
| Panics.PanicHasHeader | serde_amqp/src/de.rs:864-1099 | on any input and at any type, a panic comes from a header in the input with a size below its offset, an odd map count or a list count of 2^32 - 1 |
| Panics.ShortHeadersPanic | serde_amqp/src/de.rs:944-1099 | every list, tuple and map whose size does not cover its count panics, unless its count is refused first |
| Panics.ShortArrayPanics | serde_amqp/src/de.rs:872-942 | so does every array whose size does not cover its count and its constructor |
| Panics.LargestCountPanics | serde_amqp/src/de.rs:1686-1716 | so does a composite with a count of 2^32 - 1 |
| Panics.HalfPairPanics | serde_amqp/src/de.rs:1565-1586 | a map of half a pair panics |
| Refusals.WrongConstructor | serde_amqp/src/de.rs:75-448 | the error for no input, for an octet that is no constructor and for the constructor of another type |
| Refusals.BadContent | serde_amqp/src/de.rs:98-363 | the errors for a boolean that is neither 0 nor 1 and for text that is not UTF-8 |
| Refusals.TupleLengthMismatch | serde_amqp/src/de.rs:992-1047 | the error for a tuple of another length |
| Refusals.TooManyElements | serde_amqp/src/de.rs:864-1099 | the error for a list, a map or an array of more than 65,536 |
| Refusals.MandatoryFieldMissing | serde_amqp_derive/src/util.rs:339-355 | the error for a list that ends in front of a mandatory field |
| Truncation.ValueCut | serde_amqp/src/de.rs:1756-1791 | for every nested value that comes back and every proper prefix of its encoding, exactly when the prefix decodes, and then it is used up |
| Truncation.HeaderAloneDecodes | serde_amqp/src/de.rs:1766-1769 | a composite whose fields may all be left out decodes from its header alone |
| Truncation.NoCompositeNoCut | serde_amqp/src/de.rs:526-1320 | without composites, no proper prefix decodes |
| Codec.NonAsciiArrayIsLost | serde_amqp/src/ser.rs:470-514 | a non-ASCII string in an array is written without an error and does not come back |
| Scalars.FirstIsCodeThenOther | serde_amqp/src/ser.rs:152-592 | for every scalar, the first-element form is one wide format code and then the other-element form |
| Scalars.ScalarRoundTrip | serde_amqp/src/de.rs:97-448 | every scalar, in its compact and its wide form, comes back in front of any bytes |
| Scalars.WideDecodes | serde_amqp/src/de.rs:83-95 | a scalar decodes from its wide form whether the format code was read or set for an array |
| Headers.HeaderIsLossless | serde_amqp/src/ser.rs:939-974 | with no empty element, no narrowing cast in a header changes a size or a count |
| Headers.CompoundHeadersAreExact | serde_amqp/src/ser.rs:1021-1063 | encoded lists, maps and scalar arrays carry exact sizes and counts, and the count is at most the body |
| Headers.EncodingStart | serde_amqp/src/ser.rs:596-622 | every encoding starts with a known format code, which is null exactly for the values that read as null |
| Modes.DecodeKeeps | serde_amqp/src/de.rs:526-1320 | on any input, a successful decode leaves the mode fields as it found them and consumes a prefix |
| Modes.ClearModesStayClear | serde_amqp/src/de.rs:1381-1417 | from clear modes to clear modes, so that siblings decode independently |
| Modes.ElementsKeep | serde_amqp/src/de.rs:1388-1391 | an array that is read to its end drops the element code |
| Refinement.Refines | serde_amqp/src/ser.rs:137-816 | from any state that a tame value does not read, the serializer writes the reference encoding, leaves exactly the predicted flags, or fails for length |
| Refinement.FieldStepsRefine | serde_amqp_derive/src/util.rs:262-308 | the derived serializer with its held-back nulls writes exactly the flushed fields with nulls between them |
| Sharing.EntryIff | serde_amqp/src/ser.rs:1211-1222 | a map entry is written as its key and its value on their own if and only if the value does not read the flag the key leaves |
| Sharing.SensitiveDiffers | serde_amqp/src/ser.rs:235-274 | a value that reads a leftover flag is never written as it should be |
| Sharing.TimestampKey | serde_amqp/src/ser.rs:235-274 | a long behind a timestamp key is written as a timestamp, a string there reaches `unreachable!` |
| Sharing.StackBalance | serde_amqp/src/ser.rs:1434-1503 | for every state and value, the stack of struct encodings after a success is a prefix of the one before, and the same one if and only if it was empty or the value is neither a plain struct nor one directly inside an option or a described value |
| Sharing.PlainStructPops | serde_amqp/src/ser.rs:1477-1500 | a plain struct under a described list or map pops exactly that encoding |
| Misplaced.MisplacedIff | serde_amqp/src/ser.rs:1336-1503 | in any state with clear flags, a struct or tuple struct inside one or several described values is written as it should be if and only if it has no fields and the encoding around is a list or nothing |
| Misplaced.DescribedStructIsWrong | serde_amqp/src/ser.rs:1469-1502 | with one field on a new serializer: the field loses its header and gains an empty list behind it |
| SizeProofs.SizeBounds | serde_amqp/src/size_ser.rs:74-432 | for every tame value the size is at least the encoded length, success of sizing implies success of encoding, and the size is exact when no composite occurs |
| SizeProofs.CompositeSizeIff | serde_amqp/src/size_ser.rs:746-807 | for a single composite, exactly when the size is wrong, and exactly when sizing fails |
| SizeProofs.DescribedMapSizeIff | serde_amqp/src/size_ser.rs:628-642 | the same for a described map |
| SizeValues.SizeIsCounted | serde_amqp/src/size_ser.rs:74-867 | for every tame value, composites and all, the size is exactly the length of the encoding with each composite's descriptor behind its header, or fails for length |
| SizeValues.CompositeSizeValue | serde_amqp/src/size_ser.rs:746-807 | the size of any composite from the sizes of its fields, in numbers |
| SizeValues.CompositeExcess | serde_amqp/src/size_ser.rs:786-795 | how far the size of a single composite is from its encoding: 0, 2, 6 or 8 octets, or a failure |
| SizeValues.DescribedMapExcess | serde_amqp/src/size_ser.rs:628-642 | the same for a described map |
| SizeProofs.ScalarSizeExact | serde_amqp/src/size_ser.rs:93-282 | scalar sizes are exact in all three element modes and fail exactly when writing does |
| SizeProofs.ElementsSize | serde_amqp/src/size_ser.rs:454-499 | array bodies are sized exactly |
| MapSerializers.MapRuns | serde_amqp/src/ser.rs:1065-1260 | every run of whole entries and key-value pairs with an honest hint ends with all encodings in order and twice the number of entries, and reaches no `unreachable!` arm |
| MapSerializers.PanicsIff | serde_amqp/src/ser.rs:1169-1201 | a run panics exactly when the hint is zero, the first entry comes as a key, and both its halves are sized and accepted, whatever comes later |
| MapSerializers.MapIsMachine | serde_amqp/src/ser.rs:747-749 | `serialize_map` on any entries is a run of that machine |
| MapSerializers.MapSerializer.SerializeEntry | serde_amqp/src/ser.rs:1211-1222 | the call does to the object what the machine's step does, failures included |
| MapSerializers.MapSerializer.SerializeKey | serde_amqp/src/ser.rs:1225-1234 | likewise for a key |
| MapSerializers.MapSerializer.SerializeValue | serde_amqp/src/ser.rs:1237-1246 | likewise for a value |
| MapSerializers.MapSerializer.End | serde_amqp/src/ser.rs:1249-1259 | appends the header for the counted elements and the buffer, and changes no flag |
| Serializers.Serializer.Serialize | serde_amqp/src/ser.rs:137-816 | on the object, for any state and value: output appended, flags and stack left, or failure, exactly as the functional encoder says |
| Serializers.Serializer.SerializeFields | serde_amqp_derive/src/ser.rs:167-295 | the loop over the fields with its null counter is the functional field run |
| Serializers.Serializer.SerializeElements | serde_amqp/src/ser.rs:872-937 | the loop over array elements, only the first with a constructor, is the functional element run |
| Serializers.ToVec | serde_amqp/src/ser.rs:32-40 | the bytes, or the failure, of a run from a new serializer |
| Deserializers.Deserializer.Deserialize | serde_amqp/src/de.rs:526-1320 | on the object, for any state, type and input: value, position and mode fields, or failure, exactly as the functional decoder says |
| Deserializers.Deserializer.DrainArray | serde_amqp/src/de.rs:1349-1417 | the array accessor's loop, with its consumed-bytes check, terminates on the count and is the functional element decode |
| Deserializers.Deserializer.DeserializeFields | serde_amqp/src/de.rs:1756-1791 | the generated pull of fields from the described accessor is the functional field decode |
| Deserializers.Deserializer.DeserializeEntries | serde_amqp/src/de.rs:1565-1586 | the map accessor's loop is the functional entry decode |
| Deserializers.FromSlice | serde_amqp/src/de.rs:45-49 | the value, or the failure, of a decode from clear modes |
| Lazy.LazyIff | serde_amqp/src/read/mod.rs:118-162 | in front of any bytes, a lazy read takes exactly the encoding, if and only if no described value stands directly inside a described value |
| Lazy.LazyThenDecode | serde_amqp/src/lazy.rs:33-41 | what a lazy read sets aside decodes to what decoding in place gives, and both stop at the same place |
| Lazy.ScalarSkips | serde_amqp/src/format.rs:39-120 | on any input, with its constructor read or set for an array, a scalar that decodes ends where the category table says |
| Transparent.PeekAgrees | serde_amqp/src/de.rs:450-523 | on any described input, peeking succeeds exactly when consuming does, with the same descriptor, and moves nothing |
| Transparent.SplitsOffRun | serde_amqp/src/de.rs:1479-1515 | a run of described values with one descriptor, or of scalars of one type, followed by the end or by anything that starts otherwise, is read back as exactly that run |
| Transparent.NextTypeEnds | serde_amqp/src/de.rs:1487-1512 | a value with another descriptor, or of another type, ends a run |
| Transparent.RunIsMaximal | serde_amqp/src/de.rs:1479-1515 | on any input, for every element type and from an empty cache: the accessor gives these values and stops there if and only if they are read as a run of the first type code and what is left does not start with it |
| Transparent.RunShares | serde_amqp/src/de.rs:1479-1515 | the described values of a run carry its descriptor, its composites are read under a descriptor that is their name or their code |
| Transparent.DrainTransparent | serde_amqp/src/de.rs:1460-1515 | the accessor's loop with its cached type code is the functional one |
| WebSockets.WebSocketStream.PollRead | fe2o3-amqp-ws/src/lib.rs:205-257 | the read loop answers by the first event that is not idle, fills the buffer behind what it holds and touches nothing else |
| WebSockets.WebSocketStream.PollWrite | fe2o3-amqp-ws/src/lib.rs:264-278 | one message of all the offered bytes when the sink takes it, nothing otherwise |
| WebSockets.RunConserves | fe2o3-amqp-ws/src/lib.rs:205-257 | over any run of reads, bytes read and bytes left are the binary payloads in order |
| WebSockets.ReadsAPrefix | fe2o3-amqp-ws/src/lib.rs:205-257 | from a new adapter, the bytes read in any run are a prefix of the binary payloads |
| WebSockets.EmptyReadIff | fe2o3-amqp-ws/src/lib.rs:213-228 | a read into a non-empty buffer succeeds with nothing exactly at the end of the stream |
| WebSockets.EndToEnd | fe2o3-amqp-ws/src/lib.rs:264-278 | what is read is a prefix of what the peer's accepted writes offered, and all of it once everything has arrived and been read |
| Sasl.RunShape | fe2o3-amqp/src/acceptor/connection.rs:247-326 | for every acceptor and client, behind the mechanisms: challenges, and one outcome that decides whether the AMQP header is negotiated; a run that is cut off has sent challenges only |
| Sasl.EveryFrameIsAnswered | fe2o3-amqp/src/acceptor/connection.rs:266-318 | every frame is answered by the callback it is meant for, in the state the answers before it left |
| Sasl.OtherFrameEnds | fe2o3-amqp/src/acceptor/connection.rs:275-285 | any other frame ends any negotiation with the code sys |
| Sasl.LaterFramesAreUnread | fe2o3-amqp/src/acceptor/connection.rs:268-318 | a run with k challenges is decided by its first k + 1 frames |
| Sasl.Negotiation.Run | fe2o3-amqp/src/acceptor/connection.rs:247-326 | the loop over the transport sends the acceptor's mechanisms, or ANONYMOUS when it has none, and then exactly the functional dialogue, and has read one frame per frame sent |
| Sasl.PlainIff | fe2o3-amqp/src/acceptor/sasl_acceptor.rs:84-104 | the outcome is ok if and only if the credentials are NUL-free and the response carries them, up to its end or another NUL |
| Sasl.Rfc4616Message | fe2o3-amqp/src/acceptor/sasl_acceptor.rs:84-104 | a message in the form of section 2 of RFC 4616 is accepted exactly when it names the credentials |
| Sasl.PlainNegotiates | fe2o3-amqp/src/acceptor/sasl_acceptor.rs:103-124 | with the PLAIN acceptor, the AMQP header is negotiated if and only if the first frame is an init that carries the credentials |
| Sasl.PlainAnswers | fe2o3-amqp/src/acceptor/sasl_acceptor.rs:84-124 | the PLAIN acceptor offers PLAIN, and answers a first frame with ok, auth or sys, exactly when |
| Sasl.MechanismIsIgnored | fe2o3-amqp/src/acceptor/sasl_acceptor.rs:84-124 | the mechanism named in an init frame changes nothing for the PLAIN acceptor |
| Sasl.ResponseNeedsNoChallenge | fe2o3-amqp/src/acceptor/connection.rs:268-288 | a response that no challenge preceded gets the acceptor's answer |
| Sasl.AnonymousNegotiates | fe2o3-amqp/src/acceptor/sasl_acceptor.rs:144-166 | with the anonymous acceptor the AMQP header is negotiated if and only if the first frame is an init or a response |

## Left out

- Decoding of described maps and of plain structs: the described-map accessor leaves the enum type set
  for the next key (serde_amqp/src/de.rs:1815), so no round trip is claimed; encoding and size of both
  are modelled.
- `LazyValue` and `SymbolRef` as parts of larger values, and the untyped `Value`: the first two leave a
  mode flag set on decode, the last would only add a large table of forwarding.
- Arrays whose elements are not scalars: the serializer object and `Run` write them as the code does,
  but the reference encoding, the sizes and the round trip are about scalar elements, since other elements
  do not share one constructor.
- Sizes of plain structs directly inside described values, which the serializer does not write correctly
  either.
- Liberal.ReadsDecode: an empty array that carries a constructor, as the standard has it, is not among the
  forms: the decoder leaves the constructor unread (`Arrays.ArrayEndsIff`). Nor is an array with more
  elements than octets.
- Codec.CodecRoundTrip: is about values in which no map value reads a flag its key leaves, since the
  bytes are otherwise wrong (Sharing.EntryIff gives the exact condition per entry).
- Which fields a derived described map leaves out: a described map here lists the fields that are written.
- Derived tuple structs, unit structs and struct variants: the same null-buffering scheme as derived
  structs, without names.
- Transparent.SplitsOffRun: element types are described values, composites and scalars; transparent vectors
  of lists, maps or enums are not modelled.
- The object in `size_ser.rs` is modelled on values: it only adds up sizes, so nothing about update in
  place is lost but the order of its pushes and pops.
- Release-mode wrap-around: an overflowing unsigned operation is `Panic`, as in a checked build; capacities
  passed to allocations are not bounded.
- Length hints of sequences and of the maps inside larger values are the true lengths; only
  `MapSerializers` takes any hint.
- When a composite's descriptor and its list header are both malformed, only the fact of failure is
  meant to match the code, not which of the two errors is reported.
- A map is the sequence of its entries in the order in which they are written; duplicate keys and the
  order of the container are not modelled.
- Floats and decimals are bit patterns of their width; characters are scalar values. A default field is
  held back when it is the same value as its default, where the code asks `PartialEq`: a float field of
  `-0.0` equals a default of `0.0` there, is held back and comes back as `0.0`.
- Panics.PanicHasHeader: goes one way; that a bad header stands in the input does not say that the decoder
  comes to read it as a header.
- Readers over `std::io::Read`: the input is a slice with a position, as in the slice reader.
- The inner WebSocket stream and sink, the TLS and WebSocket handshakes, wake-ups and the mapping of
  error values: scripts of events and replies stand in for them.
- SCRAM acceptors and the transport's SASL header exchange: an acceptor is any pair of callbacks over any
  state; the transport is a script of frames with a bound on how many sends succeed.
- Builders, error conversions, management and claims-based security clients: thin or finite.
