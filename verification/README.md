# A Dafny model of the OpenCDM server and client

The OpenCDM repository connects players to content decryption modules: a client library marshals encrypted
frames through shared memory to a server, which parses the init data of a session, keeps its key ids, and decrypts.
This project models the parts of it that compute or coordinate something, and proves what they promise.

| file | models |
|---|---|
| `Bytes.dfy` | bytes, fixed-width integers and byte orders; facts about sequences; the outcome of reading a buffer |
| `XmlSearch.dfy`, `Base64.dfy`, `PlayReadyXml.dfy`, `XmlValue.dfy`, `PlayReadyObject.dfy` | the PlayReady part of the init-data parser |
| `Varint.dfy`, `Protobuf.dfy` | the protocol buffers reader that the Widevine part uses |
| `KeyList.dfy`, `InitData.dfy`, `CencParser.dfy`, `PsshBoxes.dfy`, `Announced.dfy` | the list of key ids, the parser of init data, the pssh boxes that it is proved against, and their keys entry by entry |
| `Replica.dfy` | the key statuses on the server and on the client |
| `SubSamples.dfy`, `Gather.dfy`, `BatchDecrypt.dfy` | the geometry of encrypted frames: repairing maps, gathering and scattering, packing many frames |
| `Handshake.dfy` | the decrypt handshake between client threads and the server's worker |
| `SessionBuffer.dfy`, `Buffers.dfy` | the lazy creation of a session's buffer, and the server's buffer slots |
| `KeyWait.dfy` | waiting for a key, and announcing one |
| `DecryptRetry.dfy` | the retry loop for keys whose output is restricted |

## Conventions

* The classes and methods follow the source's own loops and fields. Each is proved against a function of its inputs
  or of the old state; the lemmas beside it say what that function means. Protocols between threads are step
  systems: a run is any list of actions, and a blocked or misplaced action changes nothing.
* A parser gets the bytes that can be read (`data`), which may be more than the `length` it is told. The outcome of a
  run is `Ok`, or `Wild` if it reads beyond them, or `Endless` if it stays inside them and never ends; wraps of cursors
  and sizes are part of the run. The parsing methods require `Ok`, except that `ParseTurns` follows the loop of Parse
  for any number of turns. Nothing is said about what the source does behind a read outside of the readable bytes.
  What is inspected counts byte by byte in the loops of the source; `memcmp`, `memcpy` and `std::string` touch all that
  they are told. A null pointer is a buffer without readable bytes.
* Integers are unbounded, so every narrowing and every wrap of the source is written out (`U8`, `U16`, `U32`).
  `|` joins operands without a common bit and is a sum.
* `Exchange::KeyId`, the semaphores of `Exchange::DataExchange`, the CDM, the JSON decoder, GStreamer's buffers and the
  clock are not part of this model. Equality of key ids is a parameter of which only the laws of an equivalence are
  used, and the length of a key id is 16; the semaphores hand on one token; the others are parameters. `NumberType`
  prints and reads decimal numbers. `_interested++` is taken as one atomic step.

## Where the code differs from its comments or from what a reader expects

* ParseXMLBox says that it adds a key in both endiannesses (`plugin/CENCParser.h:426`, `468`); it adds one. The model
  follows the code.
* ParseXMLBox runs its second loop only behind the last `<KID>` element, so that `<KID ...>` elements before it are
  lost: `PlayReadyXml.AllIdsIff` says exactly when all ids of a header are found.
  `PlayReadyXml.MisplacedLost` is a header in which one is lost.
* Parse never returns on a pssh box whose size is 0, which it sees again and again without leaving the buffer
  (`plugin/CENCParser.h:261-293`): `InitData.NeverReturnsIff` says exactly when Parse never returns, and
  `InitData.EmptyBoxNeverReturns` and `InitData.ShortBoxNeverReturns` give 32 and nine bytes,
  `InitData.CutBoxNeverReturns` 40 bytes of which the box announces more than there are.
* FindInXML never ends when it is told 65534 or 65535 bytes, and 65535 bytes are readable in which the key does not
  occur, for its 16-bit cursor wraps (`plugin/CENCParser.h:378-390`): `XmlSearch.NeverEndsIff`.
* The size that ParseXMLBox has left does not always decrease: an end tag is found that ends up to two bytes behind it,
  and then the size wraps (`plugin/CENCParser.h:429`, `472`). `PlayReadyXml.SimpleSize` and `PlayReadyXml.AttributeSize`
  say exactly when it decreases; `PlayReadyXml.TrapNeverEnds` is a header of 20 bytes on which the next search is
  therefore endless.
* A `<KID ...>` element without a VALUE, or without a quoted key, lets the window of the next search wrap, which then
  reads up to 64 KiB behind the element (`plugin/CENCParser.h:448-450`): `XmlValue.SpanOkIff` says exactly when the
  searches stay in the element and when in the readable bytes, `XmlValue.NoValueLeaves` is a header on which they do not.
  An empty VALUE is harmless, although the length of its key wraps to 254: `PlayReadyXml.EmptyValueGoesOn`.
* A pssh box takes a payload, or a number of key ids, that does not lie in it when the sum that is compared with its
  length wraps modulo 2^32 (`plugin/CENCParser.h:319-333`): `InitData.LayoutInsideIff` says exactly when it does lie in
  it, `InitData.HugePayloadAccepted` is a box of 24 bytes with a payload of nearly 4 GiB.
* A PlayReady object without a box is taken for JSON when the text `{"kids":` stands anywhere in it
  (`plugin/CENCParser.h:276`): `CencParser.BareObject`; `CencParser.MarkedObject` is one.
* A nested protobuf message that fails does not fail the message around it: its content is read again as fields of the
  outer one (`plugin/Protobuf.h:449-465`). `Protobuf.ReadsEncoded` says exactly what is accepted then, and
  `Protobuf.NestedSlips` is an encoding that is accepted although a field has the wrong wire type.
* A payload that is announced longer than what is left does not fail the message: reading goes on right behind its
  length (`plugin/Protobuf.h:254-258`), and a repeated element gets an empty item: `Protobuf.CutPayload`. So a Widevine
  message that ends there adds a key without bytes: `Announced.CutKeyId`.
* Field numbers count modulo 256, for the map of elements is keyed by a byte (`plugin/Protobuf.h:418`):
  `Protobuf.NumbersWrap`.
* The ids of a PlayReady object that is not accepted are added all the same (`plugin/CENCParser.h:536-545`):
  `PlayReadyObject.ObjectCounted`.
* A subsample buffer that ends too early shows entries that are not in it: `Gather.MapReads`.
* The two validations of a subsample map do not agree on empty maps and frames: `SubSamples.ValidationsAgreeIff`;
  `SubSamples.ValidationsDiffer` gives one of each kind.
* The assertion of a client thread that was refused a buffer (`client/open_cdm_impl.h:1154`) can fail:
  `SessionBuffer.RefusedHoldsIff` says for how many threads it holds in every run, `SessionBuffer.RefusedHolds` that
  it holds as long as no buffer slot is freed.
* The handshake is safe exactly when all threads that use a buffer belong to one process, as the comment at
  `client/open_cdm_impl.h:637-644` supposes: `Handshake.SafeIffOneProcess`.
* DecryptMulti with an empty list is decrypted as a single sample with the key, the initialization vector and the
  subsamples of an earlier request (`client/open_cdm_impl.h:728-774`): `Handshake.OwnInputs`, and `Handshake.LeftOverKey` is
  such a run for every pair of requests.
* A status that the CDM reports before its key is announced is overwritten on the client: `Replica.AgreementIff`;
  `Replica.EarlyReportLost` is such a run for every key.
* `keyIdsEqual` is false for a null pointer, and every frame to decrypt is compared with the first one, itself
  included, so that a single frame with an empty key id fails when its buffer is mapped to a null pointer
  (`client/adapter/rdk/open_cdm_adapter.cpp:876`): `BatchDecrypt.NullKeyIdFails`, and `BatchDecrypt.KeylessFails` for one frame.

## Model

| member | source | states |
|---|---|---|
| `XmlSearch.FindInXML` | plugin/CENCParser.h:375-392 | where it ends, the loop returns the least even offset at which the key stands in the low bytes, or the first even offset past the window, whatever partial matches it restarts in and also when its 16-bit cursor wraps |
| `XmlSearch.FindAnswers` | plugin/CENCParser.h:375-392 | the search, as a function, has that answer for every key and window |
| `XmlSearch.FindOkIff` | plugin/CENCParser.h:380-389 | it ends inside the readable bytes exactly when the key occurs, or the byte at the end of the window is readable and the length is at most 65533 |
| `XmlSearch.FindEndlessIff` | plugin/CENCParser.h:378-390 | its outcome is endless exactly when the length is 65534 or more, all even offsets below 2^16 are readable, and the key does not occur |
| `XmlSearch.NeverEndsIff` | plugin/CENCParser.h:380-389 | the loop, taken turn by turn, is still going after any number of turns exactly in that case |
| `XmlSearch.FindsFirst` | plugin/CENCParser.h:375-392 | the search finds the first place of the key in the string of compared characters |
| `XmlSearch.FindFits` | plugin/CENCParser.h:378-391 | the result fits 16 bits |
| `Base64.Base64` | plugin/CENCParser.h:207-252 | wherever the characters that it inspects are readable, the loop stores the decoded bytes and returns their number, with `filler` at floor(3n/4) and `state` at n mod 4 after n characters, and never wraps its 8-bit index |
| `Base64.Take` | plugin/CENCParser.h:232-246 | one character extends the decoded bytes by those it completes, and leaves the other bits in `lastStuff` |
| `Base64.DecodesEncoding` | plugin/CENCParser.h:207-252 | decoding inverts the encoding of RFC 4648 section 4, for every byte string that fits the output |
| `Base64.AlphabetIs` | plugin/CENCParser.h:214-230 | the alphabet by its characters, and no other character is decoded |
| `Base64.Vectors` | plugin/CENCParser.h:207-252 | test vectors of RFC 4648 section 10, for the encoder that decoding inverts |
| `KeyList.AddAllMerges` | plugin/CENCParser.h:153-164 | adding keys one by one leaves the first key of each kind, in order, without duplicates, each with the systems of all keys of its kind |
| `KeyList.MergedIs` | plugin/CENCParser.h:153-164 | each key of that list has the id and the status of the first key of its kind, and exactly the systems of all keys of its kind |
| `KeyList.UpdateKeeps` | plugin/CENCParser.h:165-182 | a change of a status keeps every id, all systems and every other status; a new key comes last |
| `KeyList.AddAllJoin` | plugin/CENCParser.h:153-164 | adding two lists of keys after each other is adding their concatenation |
| `PlayReadyXml.SimpleTurn` | plugin/CENCParser.h:407-433 | one turn of the loop over `<KID>` elements; a turn that goes on advances by at least 22 bytes and stays in the buffer |
| `PlayReadyXml.AttributeTurn` | plugin/CENCParser.h:445-475 | one turn of the loop over `<KID ...>` elements, with the five searches, the decoder and their 16-bit arithmetic; it leaves the readable bytes exactly when a search or the decoder does |
| `PlayReadyXml.SimpleSize` | plugin/CENCParser.h:407-433 | a turn of the first loop takes at most two bytes more than the size that is left, and the size falls exactly when the end tag lies inside it |
| `PlayReadyXml.AttributeSize` | plugin/CENCParser.h:445-475 | the same for the second loop |
| `PlayReadyXml.XmlRoundTrip` | plugin/CENCParser.h:394-477 | for every UTF-16LE header made of any number of both kinds of elements, separated by marker-free text, the ids found are those of the `<KID>` elements in order, then those of the `<KID ...>` elements behind the last of them, and the size falls in every turn of both loops |
| `PlayReadyXml.AllIdsIff` | plugin/CENCParser.h:407-476 | all ids are found, in document order, exactly when no `<KID ...>` element stands before a `<KID>` element |
| `PlayReadyXml.MisplacedLost` | plugin/CENCParser.h:435-451 | for every id, a header of two elements in which the id of the first is lost |
| `PlayReadyXml.WrapNeverEnds` | plugin/CENCParser.h:407-433 | where a header of 20 bytes holds an element of 22, the size wraps to 65534, and the search never ends if no other tag follows in the next 64 KiB |
| `PlayReadyXml.TrapNeverEnds` | plugin/CENCParser.h:407-433 | such a buffer |
| `PlayReadyXml.SimpleStep` | plugin/CENCParser.h:407-431 | one `<KID>` element is decoded, and the loop goes on right behind it |
| `PlayReadyXml.AttributeStep` | plugin/CENCParser.h:445-473 | the same for a `<KID ...>` element, whose key is the first VALUE attribute |
| `PlayReadyXml.EmptyValueGoesOn` | plugin/CENCParser.h:445-473 | an element with an empty VALUE decodes nothing and the loop goes on behind it, whatever is readable behind it |
| `XmlValue.SpanOkIff` | plugin/CENCParser.h:445-450 | the searches for the key stay in the element exactly when a quote stands in it behind a VALUE and is not its last character; else a window wraps, and they end inside the readable bytes exactly when the quotes are met there or the whole window can be read |
| `XmlValue.NoValueLeaves` | plugin/CENCParser.h:445-450 | a header of 24 bytes with one element and no VALUE, on which ParseXMLBox leaves the readable bytes |
| `PlayReadyObject.Read` | plugin/CENCParser.h:510-548 | what ParsePlayReadyPSSHData accepts, and the ids it finds, each of 16 bytes |
| `PlayReadyObject.ObjectRoundTrip` | plugin/CENCParser.h:510-548 | every well-formed object of at most 65535 bytes is accepted, and adds the ids of all its headers in order, although the computed end lies four bytes behind the object |
| `PlayReadyObject.ObjectCounted` | plugin/CENCParser.h:522-545 | an object that counts less records than it holds is accepted with the ids of the first ones; one that counts more is not accepted, but the ids of all its records are added |
| `PlayReadyObject.OtherSize` | plugin/CENCParser.h:520-522 | data that announces another size than its own is not accepted and adds nothing |
| `PlayReadyObject.EmptyObject` | plugin/CENCParser.h:520-546 | an object without records is accepted, and nothing behind its count is inspected |
| `PlayReadyObject.ObjectBytes` | plugin/CENCParser.h:512-517 | size and count of an object, byte by byte |
| `PlayReadyObject.RecordBytes` | plugin/CENCParser.h:529-535 | kind and length of a record, byte by byte; a header has kind 1 |
| `Varint.ReadVarint` | plugin/Protobuf.h:104-122 | wherever the bytes that it inspects are readable, the loop returns the size and the value of the varint that the data starts with |
| `Varint.Local` | plugin/Protobuf.h:104-122 | bytes that it does not inspect change neither the result nor what it inspects |
| `Varint.SizeIff` | plugin/Protobuf.h:110-120 | it consumes k > 0 bytes exactly when byte k is the first without the high bit and k is at most eight and at most the length |
| `Varint.ValueBounded` | plugin/Protobuf.h:109-114 | the value is below 2^56, so the 64-bit accumulator never overflows |
| `Varint.ReadEncoded` | plugin/Protobuf.h:104-122 | reading inverts the encoding of section "Base 128 Varints" of Protocol Buffers Encoding, for every value below 2^56 and whatever follows |
| `Varint.Example` | plugin/Protobuf.h:104-122 | the two bytes of 150 in section "Base 128 Varints" |
| `Protobuf.DeserializeScalar` | plugin/Protobuf.h:91-97 | a scalar consumes no more than there is; the other scalars are read as in lines 167-192 and 245-260 |
| `Protobuf.Deserialize` | plugin/Protobuf.h:449-465 | an element consumes no more than there is, and nested messages end |
| `Protobuf.Skip` | plugin/Protobuf.h:471-505 | skipping consumes no more than there is |
| `Protobuf.Message.FromBuffer` | plugin/Protobuf.h:401-446 | wherever the bytes that are inspected are readable, the loop leaves the elements, and returns the result, of parsing the whole buffer field by field |
| `Protobuf.ParseLocal` | plugin/Protobuf.h:401-505 | bytes that FromBuffer does not inspect change neither its result nor what it inspects, for messages nested to any depth |
| `Protobuf.Accepted` | plugin/Protobuf.h:401-446 | the result is true only for a buffer that is a sequence of fields to its very end |
| `Protobuf.ParsesEncoded` | plugin/Protobuf.h:401-465 | on the encoding of any sequence of known and unknown fields, with numbers 1 to 255 and varints below 2^56, and messages nested to any depth, FromBuffer returns true and applies the fields in order |
| `Protobuf.RepeatedHolds` | plugin/Protobuf.h:287-296 | a repeated element then holds exactly the occurrences of its field, in order |
| `Protobuf.TextHolds` | plugin/Protobuf.h:245-260 | a single bytes element holds the concatenation of the occurrences of its field |
| `Protobuf.NestedHolds` | plugin/Protobuf.h:449-465 | a nested message holds what the fields of all its occurrences together make of it |
| `Protobuf.UnknownIgnored` | plugin/Protobuf.h:426-429 | fields of unregistered numbers change nothing |
| `Protobuf.NumberHolds` | plugin/Protobuf.h:91-122 | a single number holds the value of the last occurrence of its field, modulo 2^32 if it is narrow |
| `Protobuf.EncodedBytes` | plugin/Protobuf.h:27-34 | the first bytes of a field of each wire type, by their values |
| `Protobuf.Refused` | plugin/Protobuf.h:411-443 | field number 0, and an unknown field of the wire types 3, 4, 6 and 7, is an error |
| `Protobuf.MismatchRefused` | plugin/Protobuf.h:418-422 | a known field of another wire type is an error |
| `Protobuf.CutField` | plugin/Protobuf.h:153-165 | a field that ends behind its tag, or inside its fixed size, is an error |
| `Protobuf.Unset` | plugin/Protobuf.h:88-97 | a single element that cannot be read is an error, keeps its value and counts as not set |
| `Protobuf.CutPayload` | plugin/Protobuf.h:245-260 | a payload that is announced longer than what is left is not read, reading goes on right behind its length, and a repeated element gets an empty item |
| `Protobuf.NumbersWrap` | plugin/Protobuf.h:414-418 | field numbers that differ by a multiple of 256 are the same field |
| `Protobuf.AcceptsIffTyped` | plugin/Protobuf.h:418-437 | without nested messages, an encoding is accepted exactly when every known field has the wire type of its element |
| `Protobuf.ReadsEncoded` | plugin/Protobuf.h:401-465 | with nested messages and fields of any wire types: what FromBuffer returns and leaves on every encoding, by the fields alone; a nested message that fails keeps what it read, and its fields are read once more as fields of the outer message |
| `Protobuf.NestedSlips` | plugin/Protobuf.h:449-465 | an encoding that is accepted although a field of its nested message has the wrong wire type |
| `InitData.GuidKeepsBytes` | plugin/CENCParser.h:416-423 | the four fields of a GUID are the decoded bytes, read big-endian |
| `InitData.PayloadPlace` | plugin/CENCParser.h:328-332 | the place of the payload of a version 1 box is 12 modulo 16 also when it wraps, so that the size in front of it is never read before the box |
| `InitData.LayoutInsideIff` | plugin/CENCParser.h:316-337 | the key ids that are accepted lie in the box exactly when 16 times their count plus 28 does not wrap modulo 2^32, and the payload exactly when the end of it does not |
| `InitData.HugePayloadAccepted` | plugin/CENCParser.h:316-321 | a box of 24 bytes whose payload of 2^32 - 16 bytes is accepted |
| `InitData.EnoughTurns` | plugin/CENCParser.h:261-293 | what Parse comes to, unless it never ends, is settled after as many turns of its loop as there are bytes |
| `InitData.NeverReturnsIff` | plugin/CENCParser.h:261-293 | after any number of turns Parse has not returned, exactly when by following the sizes of the boxes it reaches a box of size 0, or a search for a tag that never ends, over readable bytes; where every search ends and every read is inside, exactly when it reaches a box of size 0 |
| `InitData.EmptyBoxNeverReturns` | plugin/CENCParser.h:261-293 | 32 bytes, with a box of size 0 in front, on which Parse never returns |
| `InitData.ShortBoxNeverReturns` | plugin/CENCParser.h:261-304 | its first nine bytes, of which all are inspected, are enough |
| `InitData.CutBoxNeverReturns` | plugin/CENCParser.h:261-356 | so are 40 bytes with an empty box that announces a Widevine message of 100 bytes, of which eight are there and inspected |
| `InitData.UnreadMessage` | plugin/CENCParser.h:550-603 | ParseWidevinePSSHData stays inside the readable bytes exactly when all bytes that it inspects are readable, whatever stands behind them, and its keys do not depend on those |
| `Announced.SystemsAre` | plugin/CENCParser.h:338-356 | the system of each of the four UUIDs and of every other one |
| `Announced.Spellings` | plugin/CENCParser.h:264-276 | the type of a box, the JSON marker and the markers of the two loops, as texts |
| `Announced.WidevineKeysAre` | plugin/CENCParser.h:587-595 | the keys of a Widevine message: one for each occurrence of field 2, in order, with its bytes, for Widevine, pending |
| `Announced.WidevineElements` | plugin/CENCParser.h:559-584 | the fields of a Widevine message and their types |
| `Announced.MistypedMessage` | plugin/CENCParser.h:587-600 | a message with a field of the wrong wire type has no keys |
| `Announced.CutKeyId` | plugin/CENCParser.h:587-595 | a message that ends behind the length of a key id has a key without bytes |
| `Announced.HeaderIdKey` | plugin/CENCParser.h:415-427 | the key of an id in a header: its fields from its bytes, for PlayReady, pending |
| `Announced.JsonKeysAre` | plugin/CENCParser.h:497-508 | the keys of JSON, for ClearKey, pending |
| `Announced.HeadKeysAre` | plugin/CENCParser.h:360-366 | the keys in the head of a box, for its system, pending |
| `Announced.BoxBytes` | plugin/CENCParser.h:261-265 | size, type, version, system and count of a box, byte by byte |
| `PsshBoxes.LayoutReads` | plugin/CENCParser.h:316-337 | the key ids and the payload of an encoded version 0 or 1 box are found where they are, through sums and products modulo 2^32 |
| `PsshBoxes.BoxReads` | plugin/CENCParser.h:299-373 | the box of ISO/IEC 23001-7 section 8.1 for any keys and payload adds the keys of its payload, then those of its head |
| `PsshBoxes.PayloadReads` | plugin/CENCParser.h:341-353 | the payload of each system is read as what it encodes |
| `PsshBoxes.MessageKeys` | plugin/CENCParser.h:550-603 | a Widevine message yields the occurrences of its field 2, in order, and nothing if a field has the wrong wire type |
| `PsshBoxes.HeaderReads` | plugin/CENCParser.h:360-366 | the key ids in the head of a version 1 box are added in order |
| `PsshBoxes.BoxesRoundTrip` | plugin/CENCParser.h:254-297 | every list of well-formed boxes of at most 65535 bytes is visited box by box, once each, up to the end; one readable byte behind is needed only if the last box holds a PlayReady object |
| `Announced.BrokenPayload` | plugin/CENCParser.h:328-336 | a box whose payload is announced longer than the box adds the keys in its head |
| `Announced.TooManyKeys` | plugin/CENCParser.h:324-327 | a box that counts more key ids than fit adds nothing |
| `Announced.TooShort` | plugin/CENCParser.h:304-304 | a box shorter than a head adds nothing |
| `Announced.StopsBehind` | plugin/CENCParser.h:261-296 | behind well-formed boxes, data that is no box ends the parsing, with the keys of these boxes |
| `Announced.BoxIff` | plugin/CENCParser.h:263-265 | when a box starts at an offset: by its size, the four bytes that are left, and its type |
| `Announced.XmlIff` | plugin/CENCParser.h:271-271 | when data is a header in XML, also for data that ends before that is decided |
| `Announced.NoData` | plugin/CENCParser.h:257-259 | no data, and data of length 0, is left alone |
| `Announced.BraceText` | plugin/CENCParser.h:269-288 | text that starts with a brace is passed to the JSON reader as a whole if it holds the marker, and else adds nothing unless it announces its own size |
| `Announced.ContainsIff` | plugin/CENCParser.h:276-276 | the marker is found exactly when it stands somewhere in the text |
| `CencParser.CommonEncryptionData.constructor` | plugin/CENCParser.h:116-120 | on init data that Parse reads to its end inside the readable bytes, the list holds its keys, added in order |
| `CencParser.CommonEncryptionData.Status` | plugin/CENCParser.h:130-133 | the status of the first key, or pending |
| `CencParser.CommonEncryptionData.KeyStatusOf` | plugin/CENCParser.h:134-144 | the status of the first entry of a valid key, or pending |
| `CencParser.CommonEncryptionData.HasKeyId` | plugin/CENCParser.h:149-152 | whether some entry is the key |
| `CencParser.CommonEncryptionData.AddKeyId` | plugin/CENCParser.h:153-164 | a new key is appended, a known one gets the systems joined |
| `CencParser.CommonEncryptionData.UpdateKeyStatus` | plugin/CENCParser.h:165-182 | the entry of the key, or a new one, gets the status, and is returned |
| `CencParser.CommonEncryptionData.IsSupported` | plugin/CENCParser.h:183-202 | true exactly when every requested key is in the list |
| `CencParser.CommonEncryptionData.AddGuid` | plugin/CENCParser.h:416-427 | the decoded bytes are added as a GUID |
| `CencParser.CommonEncryptionData.ParseSimpleElements` | plugin/CENCParser.h:396-434 | the first loop adds the ids of its elements, in order, and leaves slot and size where it stops |
| `CencParser.CommonEncryptionData.ParseAttributedElements` | plugin/CENCParser.h:445-476 | the second loop adds the ids of its elements, in order |
| `CencParser.CommonEncryptionData.ParseXMLBox` | plugin/CENCParser.h:394-477 | both loops add the ids of the header |
| `CencParser.CommonEncryptionData.ParsePlayReadyPSSHData` | plugin/CENCParser.h:510-548 | the object is accepted or not, and its ids are added in either case |
| `CencParser.CommonEncryptionData.ParseRecords` | plugin/CENCParser.h:528-543 | the loop over the records adds the ids of those of type 1 and counts down |
| `CencParser.CommonEncryptionData.ParseWidevinePSSHData` | plugin/CENCParser.h:550-603 | the key ids of an accepted message are added, wherever the bytes that are inspected are readable |
| `CencParser.CommonEncryptionData.ParseJSONInitData` | plugin/CENCParser.h:481-509 | the key ids that the library decodes, 16 bytes each, are added for ClearKey |
| `CencParser.CommonEncryptionData.ParsePSSHBox` | plugin/CENCParser.h:299-373 | the keys of the box are added, the payload's first |
| `CencParser.CommonEncryptionData.AddHeaderKeys` | plugin/CENCParser.h:360-366 | the loop over the key ids in the head |
| `CencParser.CommonEncryptionData.ParseTurns` | plugin/CENCParser.h:254-297 | the loop cut off after any number of turns, whether or not it would ever return: the keys of the boxes seen so far are added, and it stands at the place, and has returned or not, as the turns say |
| `CencParser.CommonEncryptionData.Parse` | plugin/CENCParser.h:254-297 | where it returns, the keys of the whole buffer are added, with the offset at which parsing stops |
| `CencParser.CommonEncryptionData.ParseBare` | plugin/CENCParser.h:269-288 | the same for init data that does not start with a box |
| `CencParser.InitDataRoundTrip` | plugin/CENCParser.h:254-373 | for every list of well-formed boxes, the constructor leaves exactly the order-preserving, duplicate-free fold of each box's payload keys and header keys, with the system flags joined |
| `CencParser.BareObject` | plugin/CENCParser.h:270-287 | a PlayReady object without a box adds its ids, unless it holds the text that marks JSON |
| `CencParser.MarkedObject` | plugin/CENCParser.h:276-280 | for every id, a well-formed object that holds it and the text that marks JSON |
| `CencParser.BareHeader` | plugin/CENCParser.h:271-275 | a header in XML without a box adds its ids |
| `Replica.OpenCDMSession.OnKeyStatusUpdate` | client/open_cdm_impl.h:1183-1200 | the entry of the key, or a new one, gets the status; the application is told unless it is pending |
| `Replica.OpenCDMSession.Status` | client/open_cdm_impl.h:882-889 | the status of the first entry of the key, or pending |
| `Replica.SessionSink.OnKeyStatusUpdate` | plugin/FrameworkRPC.cpp:547-580 | the server's list is updated, and the client is told the id of the updated entry |
| `Replica.SessionSink.Announce` | plugin/FrameworkRPC.cpp:1238-1245 | every key of the init data is announced to the client as pending |
| `Replica.UpdateStatus` | plugin/CENCParser.h:165-182 | an update decides the status of its key, and of no other |
| `Replica.RunReports` | plugin/FrameworkRPC.cpp:547-580 | after any run both lists are free of duplicates, the server reports the last report on a key, and the client the last report or announcement |
| `Replica.MessageReported` | plugin/FrameworkRPC.cpp:556-572 | after any run, a message on a key is followed by the status of its name on both sides, and by an internal error for any other message |
| `Replica.AgreementIff` | plugin/FrameworkRPC.cpp:1234-1246 | for reports and announcements in any order, server and client agree on a key exactly unless an announcement of it follows a report on it and no report follows the announcement |
| `Replica.EarlyReportLost` | plugin/FrameworkRPC.cpp:1234-1246 | for every key, a run in which the server has it as usable and the client as pending |
| `Replica.LifeAgreesIff` | plugin/FrameworkRPC.cpp:1234-1246 | when the keys are announced in one go, they agree exactly unless the status was reported before and not again after |
| `Replica.AlwaysAgree` | client/open_cdm_impl.h:1183-1195 | without early reports they agree on every key, and on the last report |
| `SubSamples.ExtendSubsampleMap` | client/adapter/rdk/open_cdm_adapter.cpp:253-296 | the array is grown by the clear-only entries that the frame needs, or memory runs out and nothing changes |
| `SubSamples.ExtendSubsampleMapMulti` | client/adapter/rdk/open_cdm_adapter.cpp:886-905 | the vector is extended to the same map |
| `SubSamples.Repairs` | client/adapter/rdk/open_cdm_adapter.cpp:253-296 | the map keeps the old entries as a prefix, gains ceil(difference/65535) clear-only entries each in 1..65535, and adds up to the frame exactly when the sum of the old sizes did not wrap |
| `SubSamples.FillerSize` | client/adapter/rdk/open_cdm_adapter.cpp:259-285 | the added entries are ceil(n/65535) entries for exactly n bytes, all but the last full |
| `SubSamples.FillerShortest` | client/adapter/rdk/open_cdm_adapter.cpp:261-272 | no shorter list of clear-only entries would do |
| `SubSamples.ValidateSubsampleMap` | client/adapter/rdk/open_cdm_adapter.cpp:298-323 | the single-frame validation |
| `SubSamples.ValidateSubsampleMapMulti` | client/adapter/rdk/open_cdm_adapter.cpp:907-924 | the multi-frame validation |
| `SubSamples.ValidationsAgreeIff` | client/adapter/rdk/open_cdm_adapter.cpp:298-323 | given memory, the two agree exactly unless the frame is empty and the map is not of size 0, or the map is empty and the frame is not |
| `SubSamples.ValidationsDiffer` | client/adapter/rdk/open_cdm_adapter.cpp:298-323 | an empty map and an empty frame on which they do not agree |
| `SubSamples.ValidatedFits` | client/adapter/rdk/open_cdm_adapter.cpp:907-924 | a map whose sizes do not wrap passes exactly when what comes out adds up to the frame |
| `SubSamples.SingleFits` | client/adapter/rdk/open_cdm_adapter.cpp:298-323 | the single-frame validation of non-empty maps and frames: when it passes, when memory runs out, when it refuses, and what it leaves |
| `Gather.PassesAgree` | client/adapter/gstreamer/open_cdm_adapter.cpp:109-148 | all three passes over the subsample buffer see the same entries, although a short buffer leaves variables at the values of the pass before |
| `Gather.MapReads` | client/adapter/gstreamer/open_cdm_adapter.cpp:109-119 | a table of entries, highest byte first, is read as these entries; one that ends too early shows the last encrypted size again, with clear sizes from the bytes that are left over |
| `Gather.MapOfTable` | client/adapter/gstreamer/open_cdm_adapter.cpp:109-119 | reading undoes writing, for every list of entries |
| `Gather.SessionDecrypt` | client/adapter/gstreamer/open_cdm_adapter.cpp:109-152 | the frame becomes itself with the encrypted ranges replaced by the decryptor's output on them |
| `Gather.AddUp` | client/adapter/gstreamer/open_cdm_adapter.cpp:110-119 | the first pass adds up the encrypted sizes |
| `Gather.Take` | client/adapter/gstreamer/open_cdm_adapter.cpp:121-134 | the second pass gathers the encrypted ranges in order |
| `Gather.PutBack` | client/adapter/gstreamer/open_cdm_adapter.cpp:138-148 | the third pass scatters the bytes to where the ranges are |
| `Gather.DecryptedIs` | client/adapter/gstreamer/open_cdm_adapter.cpp:109-148 | clear ranges and tail are unchanged, the encrypted ranges in order spell the decryptor's output, and an identity decryptor changes nothing |
| `Gather.GatherScattered` | client/adapter/gstreamer/open_cdm_adapter.cpp:121-148 | gathering what was scattered gives it back |
| `Gather.ScatterGathered` | client/adapter/gstreamer/open_cdm_adapter.cpp:121-148 | scattering what was gathered changes nothing |
| `Gather.ScatterKeepsClear` | client/adapter/gstreamer/open_cdm_adapter.cpp:138-148 | no byte outside the encrypted ranges changes |
| `Gather.InEncryptedIff` | client/adapter/gstreamer/open_cdm_adapter.cpp:138-148 | the encrypted ranges as offsets: behind the clear part of an entry, up to its end |
| `BatchDecrypt.ExtractProtectionMeta` | client/adapter/rdk/open_cdm_adapter.cpp:702-794 | the metadata is accepted exactly when every frame's is complete, can be mapped, and has at most 255 subsamples |
| `BatchDecrypt.Scan` | client/adapter/rdk/open_cdm_adapter.cpp:966-989 | the scan finds whether there is an encrypted range, or that the buffer ends too early |
| `BatchDecrypt.ReadMap` | client/adapter/rdk/open_cdm_adapter.cpp:1001-1019 | all entries are read, with the 32-bit sum of their sizes |
| `BatchDecrypt.EntriesOfTable` | client/adapter/rdk/open_cdm_adapter.cpp:1001-1012 | the entries of a table are read as they are, whatever stands behind them |
| `BatchDecrypt.Judge` | client/adapter/rdk/open_cdm_adapter.cpp:956-1030 | what becomes of a frame: nothing to decrypt, a failure, or a map; without a table, or with one mapped to a null pointer, the whole frame is encrypted |
| `BatchDecrypt.VerdictOfTable` | client/adapter/rdk/open_cdm_adapter.cpp:956-1030 | what becomes of a frame, from the entries of its table, for complete tables and for those that end too early |
| `BatchDecrypt.VerdictWithout` | client/adapter/rdk/open_cdm_adapter.cpp:958-1030 | the same for a frame without metadata or without a table |
| `BatchDecrypt.NullKeyIdFails` | client/adapter/rdk/open_cdm_adapter.cpp:873-884 | a frame to decrypt whose key id has no data pointer fails the call, even if it is the only frame |
| `BatchDecrypt.KeylessFails` | client/adapter/rdk/open_cdm_adapter.cpp:873-884 | one frame of one byte that can be extracted and fails |
| `BatchDecrypt.TakenFits` | client/adapter/rdk/open_cdm_adapter.cpp:1021-1029 | the map of a frame that is taken adds up to the frame modulo 2^32, and exactly when its own sizes do not wrap |
| `BatchDecrypt.Select` | client/adapter/rdk/open_cdm_adapter.cpp:956-1067 | the loop fails exactly when a frame fails, or disagrees with the first one taken in key id (which a null pointer always does), scheme or pattern; else it yields the samples of the frames to decrypt, their flags and their total size modulo 2^32 |
| `BatchDecrypt.AllPassIff` | client/adapter/rdk/open_cdm_adapter.cpp:1031-1056 | a call is made exactly when no frame fails, each frame to decrypt has a key id with data and at most 255 entries, and any two have the same key id, scheme and pattern |
| `BatchDecrypt.SamplesAre` | client/adapter/rdk/open_cdm_adapter.cpp:1058-1061 | sample k has the scheme, the pattern, the initialization vector, the key id and the map of selected frame k, with their lengths |
| `BatchDecrypt.OneKeyId` | client/adapter/rdk/open_cdm_adapter.cpp:1036-1041 | in a call that is made, every sample has the key id of every selected frame |
| `BatchDecrypt.Pack` | client/adapter/rdk/open_cdm_adapter.cpp:1112-1117 | the buffer becomes the concatenation of the selected frames |
| `BatchDecrypt.DecryptBuffers` | client/adapter/rdk/open_cdm_adapter.cpp:929-1142 | when the decrypt call is reached, and with what; not when the total size is 0 modulo 2^32 |
| `BatchDecrypt.Layout` | client/adapter/rdk/open_cdm_adapter.cpp:956-1117 | the buffer is the in-order concatenation of the selected frames, sample k belongs to selected frame k, and the prefix sums of the sample sizes are the places of the frames, the last one the size of the buffer |
| `BatchDecrypt.SelectedIs` | client/adapter/rdk/open_cdm_adapter.cpp:956-1067 | the selected frames are all frames to decrypt, each once, in order |
| `BatchDecrypt.SamplesUniform` | client/adapter/rdk/open_cdm_adapter.cpp:1031-1060 | no subsample count is cut to a byte, and all samples share key id, scheme and pattern |
| `BatchDecrypt.NothingSelected` | client/adapter/rdk/open_cdm_adapter.cpp:1097-1097 | nothing is packed exactly when no frame is selected |
| `Handshake.HolderAdvances` | client/open_cdm_impl.h:645-707 | each step of the thread that holds the lock, from RequestProduce over the single writes, Produced, the second RequestProduce, Read, Status and Consumed to the clearing of the sample length, goes on serving its request |
| `Handshake.WorkerAdvances` | plugin/FrameworkRPC.cpp:396-482 | so does each step of the worker: taking the token, choosing the branch, calling the CDM, storing the status, returning the token |
| `Handshake.SingleWrites` | client/open_cdm_impl.h:672-682 | what the writes of Decrypt leave in the shared fields: everything of the request, and older properties if it has none |
| `Handshake.MultiWrites` | client/open_cdm_impl.h:728-751 | what the writes of DecryptMulti leave: key, pattern and samples only for a non-empty list |
| `Handshake.RunInv` | client/open_cdm_impl.h:630-777 | every run of any number of threads of one process is, between requests, as if all requests had been served one after the other |
| `Handshake.NextInv` | client/open_cdm_impl.h:630-777 | every step of every party keeps that |
| `Handshake.OneOwner` | client/open_cdm_impl.h:684-698 | in every run there is one token, in a semaphore, with a thread or with the worker, and at most one party owns the buffer at any time |
| `Handshake.Linearizable` | plugin/FrameworkRPC.cpp:396-482 | the CDM is called exactly once for each request, in lock order, with what the request itself wrote, and every answer is the CDM's answer to the thread's own request |
| `Handshake.OwnInputs` | client/open_cdm_impl.h:710-750 | which fields of a request reach the CDM, and which are left over from earlier requests |
| `Handshake.LeftOverKey` | client/open_cdm_impl.h:728-774 | for every request of Decrypt and every one of DecryptMulti with an empty list, a run in which the CDM decrypts the second one's payload with the key, the initialization vector and the subsamples of the first |
| `Handshake.BranchIff` | plugin/FrameworkRPC.cpp:408-459 | the worker takes the branch for many samples exactly for requests of DecryptMulti with a non-empty list |
| `Handshake.Progress` | client/open_cdm_impl.h:630-707 | while the lock is held, the holder's or the worker's next step brings its release one step nearer |
| `Handshake.NeverAway` | client/open_cdm_impl.h:630-707 | no step of any party moves the release away |
| `Handshake.Completes` | client/open_cdm_impl.h:630-707 | no deadlock: every reachable state leads to one in which the lock is free, within a bound that the state gives |
| `Handshake.TwoProcesses` | client/open_cdm_impl.h:637-645 | two processes with a lock each: a run in which a thread reads the answer to another's request |
| `Handshake.SafeIffOneProcess` | client/open_cdm_impl.h:637-645 | every answer in every run is the CDM's result on the client's own payload, exactly when all threads belong to one process |
| `SessionBuffer.NextInv` | client/open_cdm_impl.h:1135-1158 | every step keeps one success, one creator and one pointer |
| `SessionBuffer.OneBuffer` | plugin/FrameworkRPC.cpp:744-778 | in every interleaving at most one thread obtains success and one client DataExchange is constructed; a thread that spins has a creator in progress or a published pointer |
| `SessionBuffer.FoundIffSlot` | client/open_cdm_impl.h:945-965 | in every run without other sessions: with a free slot no thread ever ends without the buffer, and without one none ever ends with it |
| `SessionBuffer.GetsPointer` | client/open_cdm_impl.h:945-965 | from every reachable state with a published pointer each thread gets it within three steps of its own |
| `SessionBuffer.GetsBuffer` | client/open_cdm_impl.h:1135-1158 | from every reachable state with a buffer or a free slot some run of at most nine steps gives a thread the buffer |
| `SessionBuffer.RefusedHolds` | client/open_cdm_impl.h:1153-1156 | the assertion of a refused thread holds as long as no slot is freed |
| `SessionBuffer.RefusedFails` | client/open_cdm_impl.h:1153-1156 | a run in which it fails |
| `SessionBuffer.RefusedHoldsIff` | client/open_cdm_impl.h:1153-1156 | it holds in every run exactly when at most one thread uses the session |
| `Buffers.BufferAdministrator.AquireBuffer` | plugin/FrameworkRPC.cpp:178-202 | the lowest free slot is taken and its locator returned; without one, nothing changes |
| `Buffers.BufferAdministrator.ReleaseBuffer` | plugin/FrameworkRPC.cpp:203-232 | exactly a slot in use is freed, and no other; the number 16 passes the range check but frees nothing |
| `Buffers.LocatorRoundTrip` | plugin/FrameworkRPC.cpp:196-214 | printing and parsing a locator undo each other, for every base path |
| `Buffers.LocatorWraps` | plugin/FrameworkRPC.cpp:207-214 | a number in a locator that does not fit a byte counts modulo 256, as `NumberType` is taken to read it |
| `Buffers.NumberIff` | plugin/FrameworkRPC.cpp:203-214 | a locator is one exactly if it starts with the base path and the name, and has the number 0 if there are no digits |
| `Buffers.LocatorExample` | plugin/FrameworkRPC.cpp:196-196 | a locator, letter by letter |
| `Buffers.LocatorsDiffer` | plugin/FrameworkRPC.cpp:196-196 | different slots have different locators |
| `Buffers.SetBit` | plugin/FrameworkRPC.cpp:195-195 | setting a bit sets that bit and no other |
| `Buffers.ClearBit` | plugin/FrameworkRPC.cpp:219-221 | clearing a bit clears that bit and no other |
| `Buffers.Accessor.CreateSession` | plugin/FrameworkRPC.cpp:1234-1236 | a session without a buffer is listed in front |
| `Buffers.Accessor.CreateSessionBuffer` | plugin/FrameworkRPC.cpp:744-778 | a session without a buffer gets the lowest free slot, if there is one; slots in use and listed holders stay one to one |
| `Buffers.Accessor.Remove` | plugin/FrameworkRPC.cpp:1437-1480 | the session leaves the list and its slot is freed, never twice; slots in use and listed holders stay one to one |
| `Buffers.SlotTaken` | plugin/FrameworkRPC.cpp:752-757 | taking a free slot keeps slots and holders one to one |
| `Buffers.SlotReturned` | plugin/FrameworkRPC.cpp:1458-1476 | so does removing a session and freeing its slot |
| `Buffers.LiveLocatorsDiffer` | plugin/FrameworkRPC.cpp:178-202 | the locators that are held at one time are pairwise different |
| `Buffers.HoldersCount` | plugin/FrameworkRPC.cpp:744-778 | as many sessions hold a buffer as slots are in use |
| `KeyWait.NextInv` | client/open_cdm_impl.h:316-331 | every step keeps `_interested` at the number of registered threads, and the event reset outside of KeyUpdate |
| `KeyWait.UpdateProtocol` | client/open_cdm_impl.h:316-331 | while KeyUpdate holds the lock no thread registers; when it drops the lock no thread is registered and the event is reset |
| `KeyWait.Registers` | client/open_cdm.cpp:816-845 | in every run: a thread that finds its key leaves; one that does not is registered by its next step and waits after the one behind it, with the lock dropped |
| `KeyWait.StaysRegistered` | client/open_cdm.cpp:829-843 | a thread that waits stays registered until the event is set or its time is over |
| `KeyWait.LeavesOnly` | client/open_cdm.cpp:815-850 | a thread is in WaitForKey until it has found its key or its time is over |
| `KeyWait.LeavesAlone` | client/open_cdm.cpp:837-850 | a waiter whose time is over leaves by its own steps, without KeyUpdate and without the lock |
| `KeyWait.ChecksAgain` | client/open_cdm_impl.h:316-331 | a KeyUpdate makes a waiter with time left look at the keys again |
| `KeyWait.WaitsAndWakes` | client/open_cdm.cpp:815-850 | from every reachable state with a free lock, a thread can start to wait and be woken by another |
| `KeyWait.Leaves` | client/open_cdm.cpp:837-843 | every registered thread can deregister without the lock |
| `KeyWait.Drains` | client/open_cdm_impl.h:324-326 | the spin of KeyUpdate ends by the steps of the registered threads, at most two each |
| `KeyWait.WorkBounded` | client/open_cdm_impl.h:324-326 | no more than two steps are left for each registered thread |
| `KeyWait.WorkNeverRises` | client/open_cdm_impl.h:316-331 | while KeyUpdate spins, no step of any thread raises the number of steps that are left, every step of a registered thread lowers it by one, and at 0 the spin is over |
| `DecryptRetry.DecryptWithOutputRestrictedRetry` | client/adapter/rdk/open_cdm_decrypt.cpp:174-219 | the turns that the loop takes, the attempts in them, and the result: that of the last attempt, or a failure if there was none or the last turn was aborted |
| `DecryptRetry.TurnsBounded` | client/adapter/rdk/open_cdm_decrypt.cpp:118-119 | under any clock in which each sleep lasts its 250 ms there are at most 24 turns |
| `DecryptRetry.BoundReached` | client/adapter/rdk/open_cdm_decrypt.cpp:118-119 | 24 turns do occur |
| `DecryptRetry.TurnsUnique` | client/adapter/rdk/open_cdm_decrypt.cpp:188-215 | the number of turns is determined by what the environment answers |
| `DecryptRetry.EndsAre` | client/adapter/rdk/open_cdm_decrypt.cpp:121-219 | how the loop ends, by the names of the statuses: which turns try, which are followed by another, when the time is over, and what the result is |
| `DecryptRetry.SuccessIs` | client/adapter/rdk/open_cdm_decrypt.cpp:195-213 | every attempt directly follows a usable, downscaled or pending status; a success is the last turn; without a session or with too long a key id there is no attempt |

## Left out

- `PackedRepeatedType` (plugin/Protobuf.h:305-357) does not override `Type` and cannot be instantiated.
- `ZigzagVarintType`, `Float` and `Double` (plugin/Protobuf.h:125-151) are not used.
- `Message::IsValid`: no Widevine field is required, so it is always true there.
- Protobuf.Deserialize: the elements of a message are values of its map, not pointers, so one element registered under two numbers is not modelled.
- CencParser.CommonEncryptionData.ParseJSONInitData: the JSON and Base64 decoding of libraries is a parameter.
- Protobuf.Message.FromBuffer: below its own varints, the readers of elements are functions of the window, in which bytes that are not readable count as 0; `Protobuf.ParseLocal` shows that these do not matter.
- CencParser.CommonEncryptionData.ParseXMLBox: its two loops are two methods, with the state between them passed on.
- Protobuf.AcceptsIffTyped: nested messages are the matter of `Protobuf.ReadsEncoded`, in which bytes that are no fields are read as they stand where a message is expected.
- CencParser.CommonEncryptionData.Parse: a run that leaves the readable bytes is excluded, and one that never ends is followed by `ParseTurns` instead, unless a search inside of a turn is the one that never ends.
- CencParser.CommonEncryptionData.constructor: the same runs are excluded, since it calls Parse.
- XmlSearch.FindInXML: the loop as a method is proved where it ends; `XmlSearch.NeverEndsIff` says when it does not.
- Replica.AgreementIff: a revoked callback, which stops all news to the client, is not modelled.
- Gather.SessionDecrypt: a map that does not fit the frame, and a failed allocation of the intermediate buffer, step or copy outside of memory and are excluded.
- BatchDecrypt.DecryptBuffers: when the secure block is granted and the sizes wrap to a positive total, the copies write outside of it; these calls are excluded. What happens to the decrypted bytes behind the call belongs to the secure video path.
- SubSamples.ExtendSubsampleMap: the count of the single-frame path is narrowed to a byte after the repair (client/adapter/rdk/open_cdm_adapter.cpp:551); the map is modelled before that.
- Handshake.WorkerAdvances: the FairPlay branch of the worker is the same handshake with more fields.
- Handshake.HolderAdvances: timeouts of the semaphores and the end of the worker, which posts a token of its own, are not modelled; the whole payload is read back, whatever its size.
- The order of the fields that the worker reads inside one branch: nobody else can write then, which `Handshake.OneOwner` shows.
- KeyWait.NextInv: the statuses of the sessions and the clock are choices of the environment.
- `swapIVBytes` reverses the initialization vector in place on every attempt, so nothing is claimed about the vector of a retry.
- `client/CapsParser.cpp`, the C API, JSON-RPC, plugin activation and configuration, and the forwarding methods of the accessor.
