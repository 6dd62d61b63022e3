# A verified model of the DanProtocol library

This project models the C++ implementation of DanProtocol v3.5, a binary protocol that pushes
key-value state from a server to its clients, and proves what its parts promise each other.

* **Wire format** (`VarInt`, `BigEndian`, `VarDecimal`, `Doubles`, `Serializer`, `Codec`,
  `StreamParser`, `WireProperties`, `WireVectors`): the number encodings, the DLE framing with its two independent decoders, and the
  byte machine that parses a stream cut anywhere. The two decoders accept the same language, printing and
  parsing are inverse, and the parser finds its way back from every state after one frame.
* **State replication** (`KeyRegistry`, `TopicPath`, `FlatState`, `Session`, `DanSession`, `Replica`,
  `ArrayShift`, `Client`, `DanClient`, `ClientReports`, `ReplicaRun`, `SelfRepair`): a session turns sets and
  clears of its own store and of its topics into frames over one id space; the client replays them. In every
  run, draining the frames in flight gives the client exactly the server's state.
* **End to end** (`EndToEnd`): the two layers composed, from session operations to bytes and back.
* **Principals** (`Principal`, `PrincipalRuns`, `DanPrincipal`): one store per principal fanned out to the sessions that
  follow it, its key-frame cache, and full clears that restart the ids.
* **Topic subscriptions** (`TopicSync`, `DanTopicServer`, `AnnouncementWire`): the client announces its topics as keys, the server
  reads them back, from bytes cut anywhere, and creates and drops topic handles.
* **Server bookkeeping** (`RateWindow`, `ServerBook`, `PrincipalIndex`): the frame-rate window and the session, pending, index
  and count maps.

Each step is a function on values; the classes (`Dan...`, `PrincipalTX`, `SessionTable`, `BoundPrincipal`,
`SessionWindow`, `KeyIdSource`, `FrameQueue`, `TopicConnection`) update fields as the source does and are proved
against these functions. Exceptions are a `Result`; callbacks are event logs; `unordered_map` iteration is a
choice of any remaining key. Integer widths are explicit (`u32`, `u64`, `i32`, `i64`), and 64-bit arithmetic wraps.

Some promises hold only under a condition, which the lemma named states both ways:

* A parser interrupted right after a DLE inside a frame can emit one spurious frame before it is in step again
  (`WireProperties.SpuriousFrameIff`).
* A double that prints with a negative exponent and no dot, such as 1e-10, is written as zero, because the
  exponent is looked for only after a dot (`Doubles.DoubleReadsBackIff`).
* 3.14 prints as 3.1400000000000001, which does not fit the decimal form, so it is written raw; the reference bytes
  for it in tests/test_codec.cpp:292-300 are those of the number 314 / 100 (`WireVectors.PiIsRaw`,
  `WireVectors.DecimalVector`).
* The key-frame cache of a principal is not dropped by a set that makes a key or by a key clear; a session that
  joins afterwards is sent the old keys (`Principal.LateJoinerAgreesIff`,
  `PrincipalRuns.LateJoinerDisagrees`).
* A topic parameter called `name`, or ending in `.name`, is read as a topic of its own
  (`TopicSync.NamesAgreeIff`).
* The client renumbers its topics and the server keeps the index of an existing handle, so two topics can end on
  one prefix (`DanTopicServer.PrefixesStayApartIff`).
* A reconnection of a uuid that is still active counts it twice (`ServerBook.IdentifyKeepsBookIff`).
* The id counter wraps after 2^32 allocations (`FlatState.SetKeepsInverseIff`).
* Binding a session again drops its flat store without telling the client (`Session.RebindInStepIff`).

`dafny verify dfyconfig.toml` checks the whole project.

## Model

| member | source | states |
|---|---|---|
| `VarInt.EncodeVarInt` | src/protocol/serializer.cpp:80-93 | the digit loop prints the canonical base-128 encoding of every 64-bit value |
| `VarInt.DecodeVarInt` | src/protocol/serializer.cpp:95-106 | on any bytes the loop returns the base-128 sum of the terminated prefix modulo 2^64 and stops right after that prefix |
| `VarInt.DecodeEncode` | src/protocol/serializer.cpp:80-106 | reading an encoding followed by any suffix gives the number back and consumes exactly the encoding |
| `VarInt.EncodeDecode` | src/protocol/serializer.cpp:80-106 | the converse: a terminated digit string without a redundant last zero is the encoding of the number it denotes |
| `VarInt.TenBytes` | src/protocol/serializer.cpp:80-93 | no 64-bit value takes more than 10 bytes |
| `VarInt.ZigzagRoundTrip` | src/protocol/serializer.cpp:110-133 | every int64 above the minimum survives zigzag, varint, any suffix and back, in at most 10 bytes |
| `VarInt.UnzigzagRoundTrip` | src/protocol/serializer.cpp:110-133 | zigzag is a bijection onto all words but the largest, the one word that decodes to the minimum |
| `BigEndian.WriteBE64` | src/protocol/serializer.cpp:26-30 | the shifting loop writes the eight bytes most significant first |
| `BigEndian.ReadBE64` | src/protocol/serializer.cpp:43-49 | the accumulating loop reads the value whose big-endian bytes these are |
| `BigEndian.ReadWrite` | src/protocol/serializer.cpp:14-49 | a field of n bytes reads back every value it has room for |
| `BigEndian.WriteRead` | src/protocol/serializer.cpp:14-49 | every n bytes are the field of the value they read as, and it is in range |
| `VarDecimal.ScaleAndMantissa` | src/protocol/serializer.cpp:153-193 | for every number the stream can print, with or without dot and exponent, and every outcome of the cast, the searches, trims and parse give the specified scale and mantissa or the fallback |
| `VarDecimal.WrittenIff` | src/protocol/serializer.cpp:153-193 | the written form denotes the printed number, or is the fallback, if and only if the print has a dot, or has no exponent, or has a positive exponent and a value below 2^64 |
| `VarDecimal.TinyIsWrittenAsZero` | src/protocol/serializer.cpp:158-170 | 1e-10 prints without a dot, so its exponent is not seen and the form is that of zero |
| `VarDecimal.FormIsExact` | src/protocol/serializer.cpp:164-187 | mantissa / 10^scale is exactly the printed number, in lowest terms |
| `VarDecimal.FormIsUnique` | src/protocol/serializer.cpp:164-187 | two reduced forms of one number are the same form |
| `VarDecimal.WrittenWhenItFits` | src/protocol/serializer.cpp:153-193 | a number printed without an exponent takes the decimal form if and only if some mantissa up to 2^53 - 1 over a power of ten up to 63 equals it; one printed with a dot and an exponent never does |
| `VarDecimal.ReadWrite` | src/protocol/serializer.cpp:195-227 | sign, scale and mantissa read back are those written, and the first byte is below the fallback marker 0x80 |
| `Serializer.RoundTrip` | src/protocol/serializer.cpp:321-504 | every payload that serializes under any type deserializes to its normal form: narrow VarIntegers, widened VarFloats, truncated doubles under VarInteger, zero for a number printed with a negative exponent and no dot, otherwise itself |
| `Serializer.DetectedTypeIsExactIff` | src/api/flat_state.cpp:9-26 | under the type the state layer detects every payload serializes, and comes back unchanged if and only if it is not a float and not a double printed with a negative exponent and no dot |
| `Serializer.ReadableIsWritable` | src/protocol/serializer.cpp:321-504 | whatever can be read under a type can be written under it, and for the fixed-width types, strings and binary as the very bytes it was read from |
| `Serializer.WritableIff` | src/protocol/serializer.cpp:321-433 | by literal type code, which alternatives serialize, and which of the three errors every other one is |
| `Serializer.ReadableIff` | src/protocol/serializer.cpp:435-504 | by literal type code, which byte strings deserialize, and which of the three errors every other one is |
| `Serializer.TruncatesDecimal` | src/protocol/serializer.cpp:402-414 | the cast of a decimal to int64 truncates toward zero, on either side of it |
| `WireVectors.SetCarriesType` | src/api/flat_state.cpp:9-26 | the registration and the value frame of a new key carry the literal type code of the C++ alternative of its value: 0x07 for int64, 0x0D for int32, 0x0E for every double, 0x0F for every float, and so on |
| `WireVectors.RetypesIff` | src/api/flat_state.cpp:28-74 | a set gives a live key a new id and type if and only if the old and the new value are different C++ alternatives |
| `WireVectors.SignalsCarryNothing` | include/danws/protocol/types.h:87-105 | the twelve signal frames encode whatever their payload and arrive without one |
| `WireVectors.OthersEncodeIff` | src/protocol/codec.cpp:55-94 | every other frame encodes if and only if its payload is a path, for the two registrations, or one its type takes |
| `WireVectors.FixedFieldVectors` | src/protocol/serializer.cpp:321-433 | one literal byte string for each type of up to four bytes |
| `WireVectors.WideFieldVectors` | src/protocol/serializer.cpp:321-433 | and for each type of eight, most significant byte first |
| `WireVectors.VariableFieldVectors` | src/protocol/serializer.cpp:80-227 | and for negative VarIntegers and VarDoubles |
| `WireVectors.TrueVector` | tests/test_codec.cpp:264-271 | the whole frame of a Bool, byte for byte |
| `WireVectors.IntegerVector` | tests/test_codec.cpp:282-290 | the whole frame of the VarInteger 42 |
| `WireVectors.PiIsRaw` | src/protocol/serializer.cpp:153-203 | 3.14 prints with 17 digits, so it does not fit the decimal form and is written raw |
| `Doubles.SerializeVarDouble` | src/protocol/serializer.cpp:144-203 | the writer as a whole: raw for infinities, NaNs, negative zero and what does not fit, else sign, scale and mantissa from the print |
| `Doubles.AsPayloadDenotes` | src/protocol/serializer.cpp:144-203 | the payload chosen for a double from its print denotes the printed number and is in canonical form |
| `Doubles.DecimalIff` | src/protocol/serializer.cpp:144-193 | a double is a decimal if and only if it prints without an exponent and has a form that fits |
| `Doubles.WritesAsPayload` | src/protocol/serializer.cpp:144-203 | a double whose print is safe is written exactly as its payload serializes, whatever an undefined cast would give |
| `Doubles.DoubleReadsBackIff` | src/protocol/serializer.cpp:144-228 | a double reads back as itself if and only if its print has a dot, or has no exponent, or has a positive exponent and a value the cast can hold |
| `Doubles.TinyReadsAsZero` | src/protocol/serializer.cpp:144-228 | 1e-10 reads back as zero and its negative as negative zero |
| `Codec.DleEncode` | src/protocol/codec.cpp:10-25 | counting first or not, the result is the body with every DLE doubled |
| `Codec.DleDecode` | src/protocol/codec.cpp:27-51 | on any bytes at all, well escaped or not, the two loops drop each DLE and keep the byte after it |
| `Codec.UnescapeEscape` | src/protocol/codec.cpp:10-51 | unescaping inverts escaping |
| `Codec.ParseBodyOf` | src/protocol/stream_parser.cpp:42-68 | the body parser returns the frame a body was built from, payload in normal form |
| `Codec.Encode` | src/protocol/codec.cpp:55-94 | a frame encodes to its wrapped, escaped body exactly when its payload matches its type, and is refused otherwise |
| `Codec.EncodeBatch` | src/protocol/codec.cpp:96-103 | a batch is the concatenation of its frames |
| `Codec.FindBody` | src/protocol/codec.cpp:129-159 | the scan for DLE ETX returns the unescaped body and the rest, or the framing error of the right kind |
| `Codec.DecodeBuffer` | src/protocol/codec.cpp:111-189 | the index loop computes the recursive decoder, errors included |
| `Codec.DecodeBatch` | src/protocol/codec.cpp:96-189 | decode inverts encodeBatch for every list of frames |
| `StreamParser.DanStreamParser.FeedByte` | src/protocol/stream_parser.cpp:70-141 | one byte moves state, buffer and event log as the four-state machine specifies |
| `StreamParser.DanStreamParser.FeedBytes` | src/protocol/stream_parser.cpp:70-141 | the feed loop runs the machine over the whole chunk and appends exactly its events |
| `StreamParser.DanStreamParser.Reset` | src/protocol/stream_parser.cpp:25-28 | reset returns to Idle with an empty buffer and keeps the log |
| `StreamParser.FeedConcat` | src/protocol/stream_parser.cpp:70-141 | chunk boundaries are invisible |
| `StreamParser.BufferDiscipline` | src/protocol/stream_parser.cpp:104-129 | in every run each byte buffered past the size limit is a DLE |
| `StreamParser.FeedKeepsClean` | src/protocol/stream_parser.cpp:70-141 | in every run the buffer is empty whenever the parser is outside a frame |
| `StreamParser.ReportedByte` | src/protocol/stream_parser.cpp:70-141 | a byte that is reported is reported once, with the error of the state it was met in, and leaves the parser Idle |
| `WireProperties.Resynchronises` | src/protocol/stream_parser.cpp:70-141 | from every state and buffer one complete frame ends in Idle with at most one frame and no heartbeat emitted, none from two of the states |
| `WireProperties.SpuriousFrameIff` | src/protocol/stream_parser.cpp:101-138 | a parser interrupted after a DLE inside a frame emits a spurious frame if and only if its buffer, the two bytes it takes for data and the body fit and parse; it is that frame |
| `WireProperties.SpuriousFromFresh` | src/protocol/stream_parser.cpp:101-138 | it happens: a fresh parser that loses the rest of a frame after four bytes takes the next ServerSync for one with another key id |
| `WireProperties.SelfSynchronisation` | src/protocol/stream_parser.cpp:70-141 | from every state, buffer and chunking, one complete frame is enough for every later frame and heartbeat to be delivered exactly (the claim of README.md:12) |
| `WireProperties.StreamRoundTrip` | src/protocol/stream_parser.cpp:42-141 | any list of frames and heartbeats, cut anywhere, comes out as exactly that list and the parser is Idle |
| `WireProperties.DecodersAgree` | src/protocol/codec.cpp:111-189 | decode succeeds with these frames and every body fits the buffer, if and only if the parser emits exactly these frames without errors and ends Idle |
| `WireProperties.DecodedIsStreamed` | src/protocol/stream_parser.cpp:70-141 | what decode accepts and the buffer can hold, the parser delivers |
| `WireProperties.StreamedIsDecoded` | src/protocol/codec.cpp:111-189 | what the parser delivers without errors, decode accepts with the same frames |
| `WireProperties.TruncatedIsRefused` | src/protocol/codec.cpp:111-189 | whole frames followed by any proper, non-empty piece of one are a frame parse error |
| `WireProperties.BadEscape` | src/protocol/stream_parser.cpp:131-138 | a DLE in a frame before anything but ETX or DLE is the same error to both decoders, and the parser is fresh again |
| `WireProperties.BadBody` | src/protocol/stream_parser.cpp:42-68 | a complete frame whose body does not parse is that error to both decoders, and the parser is fresh again |
| `WireProperties.ShortFrame` | src/protocol/stream_parser.cpp:42-68 | a frame of fewer than six body bytes is a frame parse error to both decoders |
| `KeyRegistry.DanKeyRegistry.Register` | src/state/key_registry.cpp:37-55 | a registration updates both maps, or refuses an invalid path or one key too many and changes nothing |
| `KeyRegistry.DanKeyRegistry.RemoveByKeyId` | src/state/key_registry.cpp:79-85 | removal takes the id and its path out of both maps |
| `KeyRegistry.RegisterKeepsInverseIff` | src/state/key_registry.cpp:37-55 | a registration keeps the two maps inverse and within the limit if and only if id and path are both new or already belong together |
| `KeyRegistry.RemoveKeepsInverse` | src/state/key_registry.cpp:79-85 | removal keeps them inverse |
| `KeyRegistry.GetByPathIsInverse` | src/state/key_registry.cpp:63-69 | in inverse maps a lookup by path finds the entry with that path exactly when there is one |
| `KeyRegistry.SameSize` | src/state/key_registry.cpp:37-99 | inverse maps have the same size |
| `KeyRegistry.GrammarIsRegex` | src/state/key_registry.cpp:8-32 | the path grammar accepts exactly what the regular expression Word+ ( dot Word+ )* accepts |
| `KeyRegistry.RegisterRefusesIff` | src/state/key_registry.cpp:15-55 | a path that does not match or is longer than 200 is invalid, a new one beyond 10000 keys exceeds the limit, and any other is then found under its path |
| `TopicPath.ParsePrint` | src/api/client.cpp:315-337 | parsing `t.<i>.<key>` gives i and key back for every int index and every key, dots included |
| `TopicPath.PrefixInjective` | src/api/topic_handle.cpp:8-26 | distinct index and key pairs never share a wire path |
| `TopicPath.LookupAgreesWithParse` | src/api/topic_client_handle.cpp:11-27 | a topic handle finds a path by prefix if and only if the client parse names that topic with the index as printed |
| `TopicPath.StrayFlatKey` | src/api/client.cpp:322-333 | without that condition they differ: a flat key `t.1a.x` parses as a topic key no topic prints |
| `TopicPath.ParsePrintIff` | src/api/client.cpp:315-337 | an index beyond int parses as a flat key, every other one as printed |
| `TopicPath.StoiReads` | src/api/client.cpp:327-333 | after blanks and at most one sign the digits are read, whatever follows them, and the number throws exactly when it is no int |
| `TopicPath.StoiShape` | src/api/client.cpp:327-333 | and no text of any other shape is read as an index |
| `ArrayShift.ShiftLeftIsSlice` | src/api/client.cpp:460-508 | the in-place left shift leaves the array a[clamp(s)..] with its shorter length |
| `ArrayShift.ShiftLeftElsewhere` | src/api/client.cpp:460-508 | and changes no other key |
| `ArrayShift.ShiftRightOpensGap` | src/api/client.cpp:510-556 | the in-place right shift puts a at offset clamp(s), the first cells kept |
| `ArrayShift.ShiftRightElsewhere` | src/api/client.cpp:510-556 | and changes nothing else, the length included |
| `ArrayShift.LeftShiftsCompose` | src/api/client.cpp:460-508 | left by s then t shows what left by s + t shows |
| `ArrayShift.RightThenLeftRestores` | src/api/client.cpp:460-556 | right by s, the new length, then left by s restores the array for every 0 <= s <= n |
| `ArrayShift.NoShift` | src/api/client.cpp:460-556 | a count of zero or less, or of another type than int32, leaves the array as it is in both directions |
| `ArrayShift.NoCells` | src/api/client.cpp:460-556 | with a length of zero or less a shift changes nothing, and with a missing length a left shift stores zero |
| `DanClient.DanWebSocketClient.HandleOne` | src/api/client.cpp:339-620 | the handler on its fields computes the specified client, frames sent and events, for every frame |
| `DanClient.DanWebSocketClient.HandleShiftLeft` | src/api/client.cpp:460-508 | the copying loop on the store is the specified shift, cell by cell in the source order |
| `DanClient.DanWebSocketClient.HandleShiftRight` | src/api/client.cpp:510-556 | likewise from the last cell down |
| `DanClient.DanWebSocketClient.SendTopicSync` | src/api/client.cpp:622-686 | the loops rebuild both index maps and send reset, all registrations, all values and sync in this order |
| `DanClient.DanWebSocketClient.GetTopicInfo` | src/api/client.cpp:315-337 | the cached or parsed route, remembered |
| `Client.HandlerAppliesAll` | src/api/client.cpp:339-620 | whatever else it does, the handler changes the mirrored state as the replica specification says |
| `Client.AcceptedRunIsQuiet` | src/api/client.cpp:339-620 | frames in the discipline cause no error event and no key request |
| `Client.GetReadsView` | src/api/client.cpp:167-173 | a client in agreement reads each published value under its path |
| `Client.GetMissesOthers` | src/api/client.cpp:167-173 | and Null under every other |
| `Client.GetBeforeValue` | src/api/client.cpp:167-173 | a registered key reads as Null until its first value |
| `Client.TopicKeysReadView` | src/api/topic_client_handle.cpp:18-27 | a topic handle lists exactly the published keys of its index |
| `ClientReports.TopicValueReported` | src/api/client.cpp:415-458 | a value of a topic key is reported to the handle routed for its index under its user key, to nobody else, and is what that handle then reads |
| `ClientReports.FlatValueReported` | src/api/client.cpp:415-458 | any other value goes to the flat listeners under its path and is what get then reads |
| `ClientReports.TopicDeleteReported` | src/api/client.cpp:570-598 | a deleted topic key is reported as Null and reads as Null |
| `ClientReports.PendingValueReported` | src/api/client.cpp:358-386 | a value that came before its registration is reported when the registration goes through, read from then on and no longer pending |
| `ClientReports.FlatShiftReported` | src/api/client.cpp:490-556 | a shift of a flat array reports its length key once, with the length get then reads: shorter after a left shift, unchanged after a right one |
| `ClientReports.TopicShiftReported` | src/api/client.cpp:490-556 | a shift of an array of a topic reports it to the handle of that topic, under the user key |
| `ClientReports.FlatDeleteReported` | src/api/client.cpp:570-598 | any other deleted key is reported as Null to the flat listeners and reads as Null |
| `ClientReports.HandshakeEndsReady` | src/api/client.cpp:358-458 | a client with nothing yet, identifying or synchronizing, that handles the keys of a view, the sync and the values ends Ready with that view; it says so once and sends exactly one ClientReady followed by the announcement of its subscriptions |
| `ClientReports.AuthorizedHandshakeEndsReady` | src/api/client.cpp:341-458 | the same from any state once AuthOk has been handled |
| `ClientReports.ResyncEndsReady` | src/api/client.cpp:388-458 | and from any client state at all by a resync, with exactly these frames sent |
| `ClientReports.EmptySessionIsReady` | src/api/client.cpp:388-413 | a client of a session without keys needs only the sync |
| `ClientReports.ReadyStaysReady` | src/api/client.cpp:358-598 | from then on the frames of the discipline leave it Ready and nothing is sent |
| `ClientReports.RefusedRegistration` | src/api/client.cpp:358-386 | a registration that is refused is reported with its error and changes no key |
| `ClientReports.MeaninglessFrames` | src/api/client.cpp:358-598 | a registration without a path and a shift or delete of an unknown id send and report nothing and leave the registry and the pending values alone |
| `ClientReports.RoutesFollowAnnouncement` | src/api/client.cpp:622-686 | topic i of the announcement is routed to the handle whose name it announces, and that handle has index i |
| `ClientReports.SubscribedTopicHeard` | src/api/client.cpp:415-458 | after a handshake a value under the prefix of topic i reaches the handle of the i-th subscription and no other |
| `Replica.ResyncRepairs` | src/api/session.cpp:189-224 | a resync, its frames in any map order, leaves a client in any registry, store, pending and cache state with exactly the server view |
| `Replica.AcceptedRunKeepsOrder` | src/api/client.cpp:358-598 | frames in the discipline keep the registry maps inverse, nothing pending and every cached route fresh |
| `Replica.NewKey` | src/api/flat_state.cpp:59-72 | registration, sync and value of a new key take an agreeing client to the grown view |
| `Replica.NewValue` | src/api/flat_state.cpp:54-56 | a value frame takes it to the updated view |
| `Replica.DeleteKey` | src/api/flat_state.cpp:102-109 | a delete frame takes it to the reduced view |
| `Replica.PendingSurvivesDelete` | src/api/client.cpp:570-598 | a delete does not drop the pending value of its id: the next registration of the id stores it |
| `FlatState.DanFlatState.Set` | src/api/flat_state.cpp:28-74 | entries, ids, counter and frames after a set are the specified ones on all three branches |
| `FlatState.DanFlatState.ClearOne` | src/api/flat_state.cpp:102-109 | clearing a key removes it from both maps and sends its delete, or does nothing |
| `FlatState.DanFlatState.Clear` | src/api/flat_state.cpp:95-100 | a whole-store clear empties both maps and asks for a resync exactly when there was something |
| `FlatState.DanFlatState.BuildKeyFrames` | src/api/flat_state.cpp:111-120 | in whatever order the map is walked, one registration for each live key |
| `FlatState.DanFlatState.BuildValueFrames` | src/api/flat_state.cpp:122-129 | and one value for each live key |
| `FlatState.SetKeepsInverseIff` | src/api/flat_state.cpp:28-74 | a set keeps entries and ids mutual inverses if and only if the id it allocates is not one that stays live |
| `FlatState.CycledCounter` | src/api/flat_state.cpp:28-109 | setting and clearing one key over and over takes the counter to any value and leaves the store as it was |
| `FlatState.CounterWraps` | src/api/session.cpp:143-152 | so after 2^32 allocations the counter hands out a live id and the maps stop being inverse |
| `FlatState.UpdateView` | src/api/flat_state.cpp:54-56 | a set of the same type changes the published value of that key and nothing else |
| `FlatState.ClearKeyView` | src/api/flat_state.cpp:102-109 | a clear takes exactly that key out of the published view |
| `DanSession.DanWebSocketSession.SetFlat` | src/api/session.cpp:18-23 | throws on an unbound session and changes nothing, else sets |
| `DanSession.DanWebSocketSession.SetValue` | src/api/topic_handle.cpp:28-30 | a set on the flat store or a topic payload is the specified operation on the whole session and keeps the id discipline |
| `DanSession.DanWebSocketSession.ClearStore` | src/api/session.cpp:40-43 | a whole-store clear resyncs the whole session when it emptied something |
| `DanSession.DanWebSocketSession.CreateTopicHandle` | src/api/session.cpp:154-171 | a new topic gets an empty store under its wire prefix and shares counter and queue |
| `DanSession.DanWebSocketSession.TakeIndex` | src/api/session.cpp:158-159 | the index is the client one or the next free one and the counter stays above both |
| `DanSession.DanWebSocketSession.RemoveTopicHandle` | src/api/session.cpp:173-180 | removal of a known topic drops its store and resyncs what is left |
| `DanSession.DanWebSocketSession.TriggerSessionResync` | src/api/session.cpp:189-224 | the loops over the stores send reset, every live key, sync, every live value, each once |
| `DanSession.DanWebSocketSession.HandleKeyRequest` | src/api/session.cpp:226-274 | a live id is answered with its registration, a sync and its value, a dead one with nothing |
| `DanSession.DanWebSocketSession.Bind` | src/api/session.cpp:143-152 | binding replaces the flat store by an empty one and keeps counter and topics |
| `Session.OperationStep` | src/api/session.cpp:18-224 | any one operation keeps the id discipline, and a client in step is in step again after its frames, each in order |
| `Session.OperationKeepsIds` | src/api/session.cpp:18-224 | an operation keeps the id discipline whatever keys and indices it publishes |
| `Session.NoChangeNoFrames` | src/api/session.cpp:18-187 | a clear or a topic operation that changes nothing sends nothing |
| `Session.FirstKeyIsOne` | src/api/session.cpp:143-152 | a newly bound session publishes nothing and its first key has id 1 |
| `Session.ViewSplits` | src/api/session.cpp:203-223 | the published view is the disjoint union of one store and the others |
| `Session.RebindInStepIff` | src/api/session.cpp:143-152 | binding again keeps the id discipline, and keeps a client in step if and only if the flat store was empty |
| `ReplicaRun.ReplicaAgreement` | src/api/session.cpp:143-224 | in every run of session operations and FIFO delivery, draining the frames in flight gives the client exactly the flat state and all topic payloads, with nothing pending, no request and no error |
| `ReplicaRun.RegistrationPrecedesValue` | src/api/client.cpp:358-426 | at every moment of every run the registry maps are inverse, nothing is pending, no key was ever requested, no frame failed and every cached route is fresh |
| `ReplicaRun.IdDiscipline` | src/api/session.cpp:143-187 | in every run of operations and bindings, whatever is published, each store has inverse maps and live ids are distinct across stores and below the counter |
| `ReplicaRun.QuietReads` | src/api/client.cpp:167-173 | when nothing is in flight, get answers every published key with its value |
| `ReplicaRun.CachedRouteIsHandleRoute` | src/api/client.cpp:315-337 | at every moment a cached route is the one the topic handle finds by prefix |
| `ReplicaRun.PublishableIsGood` | src/state/key_registry.cpp:15-45 | valid keys, at most 10000 of them, distinct topic indices and flat keys outside live topic prefixes are enough for a run to be publishable |
| `ReplicaRun.NewKeyAgreesIff` | src/api/client.cpp:358-386 | an agreeing client agrees after a new key if and only if the grown view has valid, distinct paths within the limit |
| `SelfRepair.RepairsLiveKey` | src/api/session.cpp:226-274 | a value for a live but unregistered id makes the client ask for it, and the reply registers the key, stores the current value and clears the pending entry if and only if the client has room for the path |
| `SelfRepair.RepairRestoresAgreement` | src/api/session.cpp:226-274 | a client that lacked exactly that key is back in full agreement |
| `SelfRepair.DeadKeyIsSilent` | src/api/session.cpp:226-274 | a request for an id that is not live produces no frames |
| `EndToEnd.ValueFrameExactIff` | src/protocol/serializer.cpp:321-504 | among the values the encoding models, a value frame survives the wire unchanged if and only if its value is plain: not a float and not a double printed with a negative exponent and no dot |
| `EndToEnd.TinyValueIsLost` | src/protocol/serializer.cpp:144-228 | a session that sets 1e-10 sends a frame its client reads as zero |
| `EndToEnd.QueueExact` | src/api/flat_state.cpp:28-129 | in every run over plain values each frame in flight encodes and reads back unchanged |
| `EndToEnd.BytesToAgreement` | src/protocol/stream_parser.cpp:70-141 | encode the frames in flight, mix in heartbeats, cut the bytes anywhere: the parser emits exactly these frames and handling them gives the client the session state |
| `DanPrincipal.PrincipalTX.BuildKeyFrames` | src/api/principal_tx.cpp:63-74 | the cached key frames if there are any, else one registration for each live key and a sync, cached from then on |
| `DanPrincipal.PrincipalTX.Clear` | src/api/principal_tx.cpp:48-51 | a full clear empties the store, restarts ids at 1 and rebuilds the cache as a lone sync when it emptied something |
| `DanPrincipal.SessionTable.SendValues` | src/api/server.cpp:227-237 | frame by frame, every Ready session of the principal and no other session gets each frame |
| `DanPrincipal.SessionTable.SendResync` | src/api/server.cpp:239-254 | every connected session of the principal and no other gets the resync |
| `DanPrincipal.BoundPrincipal.Set` | src/api/server.cpp:227-237 | set on a bound principal is a step of the principal state machine, other principals untouched |
| `DanPrincipal.BoundPrincipal.Clear` | src/api/principal_tx.cpp:53-55 | so is a key clear |
| `DanPrincipal.BoundPrincipal.ClearAll` | src/api/server.cpp:239-254 | so is a full clear with its fan-out |
| `DanPrincipal.BoundPrincipal.Join` | src/api/session.cpp:80-97 | so is the activation of a session, with the cached or fresh key frames |
| `DanPrincipal.BoundPrincipal.HandleReady` | src/api/session.cpp:99-112 | so is ClientReady: the values once, then Ready |
| `Principal.PrincipalAgreement` | src/api/server.cpp:227-255 | in every disciplined run, in-place sets and full clears during handshakes included, the drained client of every Ready session holds exactly the state of its own principal, through full clears that restart the ids |
| `PrincipalRuns.RunsAreIsolated` | src/api/server.cpp:227-255 | take every step on other principals and their sessions out of a run: what remains is a run that ends with this principal and each of its sessions exactly as they were |
| `Principal.GoodStoreIff` | src/state/key_registry.cpp:15-45 | a principal can be published if and only if its keys are valid paths and at most 10000 |
| `Principal.HandshakeAgreesIff` | src/api/session.cpp:80-112 | a handshake with the keys of one state and the values of another agrees with the second if and only if both have the same ids, paths and types |
| `Principal.SetStaysFreshIff` | src/api/principal_tx.cpp:31-33 | the key-frame cache is still fresh after a set if and only if the set allocated no id |
| `Principal.ClearStaysFreshIff` | src/api/principal_tx.cpp:53-55 | and after a key clear if and only if there was nothing to clear |
| `Principal.ClearAllFreshens` | src/api/principal_tx.cpp:48-51 | a full clear that empties something makes any cache fresh |
| `Principal.ClearRestartsIds` | src/api/principal_tx.cpp:48-51 | after a full clear the next key is published under id 1, whether or not there was anything to clear |
| `Principal.ClearLeavesCache` | src/api/principal_tx.cpp:48-74 | after a full clear and the first set the cache is stale: whoever joins is sent the lone sync |
| `Principal.LateJoinerAgreesIff` | src/api/principal_tx.cpp:63-74 | a session that joins after a set agrees if and only if the set allocated no id, when an earlier session had made the cache |
| `PrincipalRuns.LateJoinerDisagrees` | src/api/principal_tx.cpp:63-74 | a run of five steps from an empty server that ends with a Ready session whose drained client lacks a key |
| `DanTopicServer.TopicConnection.NoteFrame` | src/api/server.cpp:529-550 | reset, registration and value frames update the client registry and values, a refused registration nothing |
| `DanTopicServer.TopicConnection.ReadTopics` | src/api/server.cpp:561-611 | the loop over the paths in any order finds exactly the announced names, each with an index of a path announcing it, and throws exactly when some such index cannot be read |
| `DanTopicServer.TopicConnection.ProcessTopicSync` | src/api/server.cpp:561-641 | the session ends with exactly the announced topics; one unsubscribe for each old minus new name, one subscribe for each new minus old, kept topics keep their store |
| `DanTopicServer.TopicConnection.HandleAnnouncement` | src/api/server.cpp:529-641 | the client sync frames handled one by one leave the session with exactly the topics of the client: one unsubscribe for each old minus new name, one subscribe for each new minus old, each new handle under the index of the client, each kept one under its old prefix |
| `AnnouncementWire.AnnouncementExact` | src/api/client.cpp:666-684 | over plain parameter values each frame of an announcement survives the wire unchanged |
| `AnnouncementWire.AnnouncementShape` | src/api/client.cpp:662-684 | reset, every key under ids 1, 2, ..., every value under the same id and detected type, sync, by their literal frame codes |
| `AnnouncementWire.ReceiveAnnouncement` | src/api/server.cpp:529-641 | the bytes of an announcement, with heartbeats mixed in and cut anywhere, parse without error and leave the session with exactly the topics of the client |
| `DanTopicServer.SubscriptionRoundTrip` | src/api/client.cpp:622-686 | the client sync, read back by a server that remembers anything, names exactly the subscribed topics under the client indices |
| `DanTopicServer.PrefixesStayApartIff` | src/api/server.cpp:628-640 | after such an announcement topic prefixes are still distinct if and only if no kept handle has the prefix a new name is announced under |
| `DanTopicServer.RenumberingCollides` | src/api/client.cpp:634-659 | subscribing b and later a as well puts both topics on one prefix |
| `TopicSync.SyncAnnounces` | src/api/server.cpp:571-593 | for any subscriptions the names read are the subscribed ones and the parameters mistaken for names, nothing else |
| `TopicSync.NamesAgreeIff` | src/api/server.cpp:571-593 | the names agree if and only if every mistaken parameter names a subscribed topic anyway |
| `TopicSync.NameParameterIsPhantom` | src/api/server.cpp:576-593 | with a parameter called `name` the server reads a second topic out of a single subscription, whatever it remembered before |
| `TopicSync.SyncIndex` | src/api/server.cpp:579-585 | every announcing path has a readable index, and without such parameters it is the client index of that topic |
| `TopicSync.PathWithoutIndex` | src/api/server.cpp:576-585 | a path such as `topic.name` passes the test for a name path and has no readable index |
| `TopicSync.OnlyResetForgets` | src/api/server.cpp:529-550 | no client frame but a reset, refused registrations included, drops a path or changes the value of another id |
| `RateWindow.SessionWindow.Admit` | src/api/server.cpp:271-291 | the window fields after a frame and whether it is dispatched; no limit when the setting is zero or less |
| `RateWindow.AtMostMax` | src/api/server.cpp:280-290 | at most maxFramesPerSec frames are dispatched between two window resets |
| `RateWindow.RefusedIff` | src/api/server.cpp:280-290 | within a window a frame is refused if and only if the limit has been dispatched since its reset |
| `RateWindow.IntervalBound` | src/api/server.cpp:280-290 | for every non-decreasing clock, any half-open interval of k seconds sees at most (k + 1) times the limit |
| `RateWindow.TwicePerSecond` | src/api/server.cpp:280-290 | at most twice the limit in any half-open second |
| `RateWindow.TwiceIsReached` | src/api/server.cpp:280-290 | and that is reached: a run dispatches twice the limit within two clock ticks |
| `RateWindow.Replay` | src/api/server.cpp:267-292 | frame by frame over a whole run the fields decide as the specification does |
| `ServerBook.DanServerBook.HandleIdentified` | src/api/server.cpp:383-457 | limit check, reconnection and new session on the maps, as specified |
| `ServerBook.DanServerBook.AuthorizeSession` | src/api/server.cpp:106-126 | an empty principal is an error, an unknown uuid nothing, else the session moves from pending to active and is counted |
| `ServerBook.DanServerBook.RejectSession` | src/api/server.cpp:128-141 | rejection drops the pending session only |
| `ServerBook.DanServerBook.HandleSessionDisconnect` | src/api/server.cpp:494-525 | disconnect takes the session out of the active map, the index and the count, or out of the pending map |
| `ServerBook.DanServerBook.CountDown` | src/api/principal_tx.cpp:109-118 | the count goes down and its entry disappears at zero |
| `PrincipalIndex.DanPrincipalIndex.AddSession` | src/api/server.cpp:645-647 | the session joins the set of its principal and no other |
| `PrincipalIndex.DanPrincipalIndex.RemoveSession` | src/api/server.cpp:649-655 | the session leaves the index and an empty entry disappears |
| `ServerBook.RunWithinLimits` | src/api/server.cpp:383-525 | in every run, reconnections included, active and pending uuids are disjoint and together never exceed maxConnections when that is set |
| `ServerBook.CountsAreExact` | src/api/server.cpp:459-525 | in every run of first-time identifies each count equals its index size and the number of active sessions with that effective principal |
| `ServerBook.IdentifyKeepsBookIff` | src/api/server.cpp:395-419 | identifying keeps the books if and only if the uuid is not active: a reconnection is counted twice, or stays indexed while pending |
| `ServerBook.IdentifyAdmits` | src/api/server.cpp:383-457 | a new uuid is refused if and only if a set limit is reached; else it waits for authorization, or joins the sessions, index and count of the default principal of the mode, and nothing else changes |
| `ServerBook.AuthorizeMoves` | src/api/server.cpp:106-126 | authorizing takes the pending session, as the same object, to the active ones of the principal it was given: its sessions, index and count grow by it and no other entry changes |
| `ServerBook.ReconnectCounts` | src/api/server.cpp:395-419 | a reconnection instead waits again while still indexed and counted, or stays active and is counted once more |
| `ServerBook.DisconnectGoes` | src/api/server.cpp:494-525 | a disconnect takes an active session out of the sessions, index and count of its principal, or a pending one out of the pending map, and changes nothing else |
| `ServerBook.CountsByMode` | src/api/principal_tx.cpp:97-118 | in broadcast mode one name counts every active session; in principal mode each count is the number of active sessions with that principal |

## Left out

- Websocket interfaces, threads, mutexes, timers, heartbeat and reconnect engines, delayed topic tasks, logging and UUID generation: I/O, clocks and scheduling. Clocks are parameters of the rate window.
- Callbacks are event logs; callbacks that call back into the library, unsubscribe closures and C++ object lifetimes are not modelled.
- VarDecimal.ScaleAndMantissa: starts from the printed text; how a double is printed with 17 digits, and the division that rebuilds it, are not modelled.
- Doubles.AsPayloadDenotes: the print is part of a Double, so prints no double has are covered as well (0.1 prints 17 digits and is written raw); which prints occur is not modelled. The float twin of the writer has the same text logic and is not written out; FloatDecimal, FloatScientific and F32 are its three outcomes.
- Doubles.WritesAsPayload: the cast of an absolute value of 2^64 or more is undefined in the language; where its result is used (a print without a dot) nothing is promised, where it is not used it is ignored.
- Codec.Encode: asks for a payload the encoding models, see Serializer.RoundTrip.
- Serializer.RoundTrip: leaves out INT64_MIN under VarInteger and casts of doubles out of range (undefined in the source), and conversions that round between binary formats: a double under VarFloat, a widened float under VarDouble, a decimal or scientific number under the fixed-width float types.
- KeyRegistry.DanKeyRegistry.Register: nextId_ is left out (nothing reads it), and so are the memo of validated paths and the regex engine; the path grammar is a predicate.
- ArrayShift.LeftShiftsCompose: shift counts of 0 or more and a sum within int; a negative count acts as 0. Cell index overflow in int arithmetic is not modelled.
- FlatState.CounterWraps: shows the id counter wrapping; the run theorems ask for fewer than 2^32 - 1 allocations.
- DanSession.DanWebSocketSession.TriggerSessionResync: one map holds the flat store and the topic payloads, walked in any order, where the source takes the flat store first; the frames are collected before they are enqueued.
- DanSession.DanWebSocketSession.HandleKeyRequest: finds the live entry directly in each store, where the source walks the frames of a topic payload; the sessions of principal mode, which answer requests from the principal frames, are not asked.
- DanClient.DanWebSocketClient.SendTopicSync: assumes an open socket; the topicDirty_ retry on a closed one, handle dirty flags and the per-handle update callbacks are left out.
- DanClient.DanWebSocketClient.HandleOne: the order of error callbacks and cleanup around AuthFail is one event, and reconnect and flush callbacks are left out.
- ClientReports.TopicDeleteReported: the source keeps a pointer to the route it erases from the cache and reads it afterwards; the model reads the route before.
- DanSession.DanWebSocketSession.CreateTopicHandle: a bound session; on an unbound one the source drops the frames of the new payload.
- ReplicaRun.ReplicaAgreement: topic creation and removal are steps of their own; that the client sync causes them is proved separately (TopicSync, DanTopicServer). Distinct topic indices over several syncs are a condition: the client renumbers its topics, the server keeps the index of an existing handle.
- Principal.PrincipalAgreement: sets that make a key and clears that remove one wait until no session of that principal is between its key frames and ClientReady, and handshakes find a fresh key-frame cache; the exact conditions under which the cache stays fresh are proved. Key requests and ClientResyncReq in these modes are left out.
- DanPrincipal.BoundPrincipal.Set: one principal and the session table; the manager map that owns the principals is a parameter.
- DanTopicServer.TopicConnection.ProcessTopicSync: topic parameters are left out, because whether one is seen depends on the order of an unordered map; subscribe and unsubscribe callbacks are events.
- DanTopicServer.TopicConnection.ReadTopics: likewise collects names and indices only.
- DanTopicServer.TopicConnection.HandleAnnouncement: for subscriptions without parameters that look like names; what happens with them is proved in TopicSync.
- RateWindow.SessionWindow.Admit: the counter is unbounded, and the lookup of the session in the active and pending maps is left out: a frame of an unknown session is not limited.
- ServerBook.DanServerBook.HandleIdentified: the reconnection branch is taken with the old socket already closed; close(), time to live and non-default metrics are left out. Pointers in the index are serial numbers.
- Authentication frames, protocol version check and frame routing by mode (src/api/server.cpp:294-357): single branches with no state of their own.
