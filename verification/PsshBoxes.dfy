/** Well-formed pssh boxes, encoded per ISO/IEC 23001-7 section 8.1, and what Parse makes of a list of them. */
module PsshBoxes {
  import opened Bytes
  import opened Outcomes
  import opened KeyList
  import opened InitData
  import Seqs
  import Object = PlayReadyObject
  import Protobuf

  /** The content of a box: a PlayReady object, a Widevine message, or anything for another system. */
  datatype Content =
    | PlayReadyObject(records: seq<Object.Record>)
    | WidevineMessage(fields: seq<Protobuf.Field>)
    | Opaque(id: seq<byte>, bytes: seq<byte>)

  /** `header` lists the key ids of a version 1 box. */
  datatype Box = Box(version: byte, flags: seq<byte>, header: seq<seq<byte>>, content: Content)

  ghost predicate GoodContent(c: Content)
  {
    match c
    case PlayReadyObject(records) => Object.GoodRecords(records)
    case WidevineMessage(fields) => Protobuf.Good(fields)
    case Opaque(id, _) => |id| == 16 && id != PLAYREADY_ID && id != WIDEVINE_ID
  }

  predicate GoodHeader(header: seq<seq<byte>>)
  {
    forall i :: 0 <= i < |header| ==> |header[i]| == KEY_LENGTH
  }

  ghost predicate GoodBox(b: Box)
  {
    && b.version <= 1 && |b.flags| == 3 && (b.version == 0 ==> b.header == [])
    && GoodHeader(b.header) && GoodContent(b.content)
  }

  function ContentSystem(c: Content): seq<byte>
  {
    match c
    case PlayReadyObject(_) => PLAYREADY_ID
    case WidevineMessage(_) => WIDEVINE_ID
    case Opaque(id, _) => id
  }

  ghost function ContentBytes(c: Content): seq<byte>
    requires GoodContent(c)
  {
    match c
    case PlayReadyObject(records) => Object.EncodeObject(records)
    case WidevineMessage(fields) => Protobuf.EncodeAll(fields)
    case Opaque(_, bytes) => bytes
  }

  function Joined(header: seq<seq<byte>>): seq<byte>
  {
    if header == [] then [] else header[0] + Joined(header[1..])
  }

  /** What stands between the version and the size of the payload. */
  function Head(b: Box): seq<byte>
  {
    ([b.version] + b.flags) + (ContentSystem(b.content)
    + if b.version == 0 then [] else Write32BE(U32(|b.header|)) + Joined(b.header))
  }

  /** A box from its version on. */
  ghost function Body(b: Box): seq<byte>
    requires GoodBox(b)
  {
    Head(b) + (Write32BE(U32(|ContentBytes(b.content)|)) + ContentBytes(b.content))
  }

  ghost function EncodeBox(b: Box): seq<byte>
    requires GoodBox(b)
  {
    (Write32BE(U32(8 + |Body(b)|)) + PSS_HEADER) + Body(b)
  }

  ghost predicate GoodBoxes(bs: seq<Box>)
  {
    forall i :: 0 <= i < |bs| ==> GoodBox(bs[i])
  }

  ghost function EncodeBoxes(bs: seq<Box>): seq<byte>
    requires GoodBoxes(bs)
  {
    if bs == [] then [] else EncodeBox(bs[0]) + EncodeBoxes(bs[1..])
  }

  predicate EndsWithPlayReady(bs: seq<Box>)
  {
    bs != [] && bs[|bs| - 1].content.PlayReadyObject?
  }

  // ----- the keys that a list of boxes announces

  function PayloadIds(bodies: seq<Protobuf.Body>): seq<Entry>
    requires Protobuf.AllOf(bodies, Protobuf.Text([]))
  {
    seq(|bodies|, i requires 0 <= i < |bodies| => WidevineKey(Protobuf.Payload(bodies[i])))
  }

  /** A message with a field of the wrong wire type is rejected as a whole. */
  function WidevineMessageKeys(fields: seq<Protobuf.Field>): seq<Entry>
  {
    if Protobuf.TypedAll(WIDEVINE_FIELDS, fields) then
      Protobuf.RepeatedHolds(WIDEVINE_FIELDS, fields, WIDEVINE_KEY_IDS);
      PayloadIds(Protobuf.Occurrences(fields, WIDEVINE_KEY_IDS))
    else []
  }

  ghost function ContentKeys(c: Content): seq<Entry>
    requires GoodContent(c)
  {
    match c
    case PlayReadyObject(records) =>
      RecordsIdsKeys(records);
      XmlKeys(Object.RecordsIds(records))
    case WidevineMessage(fields) => WidevineMessageKeys(fields)
    case Opaque(_, _) => []
  }

  function HeadKeys(header: seq<seq<byte>>, system: System): seq<Entry>
  {
    if header == [] then [] else [Fresh(Raw(header[0]), system)] + HeadKeys(header[1..], system)
  }

  /** The keys of the payload, then those of the head. */
  ghost function KeysOf(b: Box): seq<Entry>
    requires GoodBox(b)
  {
    ContentKeys(b.content) + HeadKeys(b.header, SystemOf(ContentSystem(b.content)))
  }

  ghost function AllKeysOf(bs: seq<Box>): seq<Entry>
    requires GoodBoxes(bs)
  {
    if bs == [] then [] else KeysOf(bs[0]) + AllKeysOf(bs[1..])
  }

  /** Where the boxes start. */
  ghost function Starts(bs: seq<Box>, offset: nat): seq<nat>
    requires GoodBoxes(bs)
  {
    if bs == [] then [] else [offset] + Starts(bs[1..], offset + |EncodeBox(bs[0])|)
  }

  lemma {:induction false} RecordsIdsKeys(rs: seq<Object.Record>)
    requires Object.GoodRecords(rs)
    ensures Object.Xml.AllKeys(Object.RecordsIds(rs))
  {
    hide Object.Xml.DocumentIds, Object.GoodRecord;
    if rs != [] {
      RecordsIdsKeys(rs[1..]);
      if rs[0].Header? {
        RecordKeys(rs[0]);
        Object.Xml.AllKeysJoin(Object.Xml.DocumentIds(rs[0].parts), Object.RecordsIds(rs[1..]));
      }
    }
  }

  lemma RecordKeys(r: Object.Record)
    requires Object.GoodRecord(r) && r.Header?
    ensures Object.Xml.AllKeys(Object.Xml.DocumentIds(r.parts))
  {
    Object.Xml.DocumentKeys(r.parts);
  }

  // ----- payloads

  lemma WidevineFlat()
    ensures Protobuf.Flat(WIDEVINE_FIELDS)
  {
  }

  lemma MessageKeys(fields: seq<Protobuf.Field>)
    requires Protobuf.Good(fields)
    ensures MessageKeyIds(Protobuf.EncodeAll(fields)) == WidevineMessageKeys(fields)
  {
    hide Protobuf.ParseFields, Protobuf.EncodeAll, Protobuf.TypedAll, Protobuf.ApplyAll, Protobuf.Occurrences;
    WidevineFlat();
    Protobuf.AcceptsIffTyped(WIDEVINE_FIELDS, fields);
    if Protobuf.TypedAll(WIDEVINE_FIELDS, fields) {
      Protobuf.ParsesEncoded(WIDEVINE_FIELDS, fields);
      Protobuf.RepeatedHolds(WIDEVINE_FIELDS, fields, WIDEVINE_KEY_IDS);
      SameIds(Protobuf.Occurrences(fields, WIDEVINE_KEY_IDS));
    }
  }

  lemma SameIds(bodies: seq<Protobuf.Body>)
    requires Protobuf.AllOf(bodies, Protobuf.Text([]))
    ensures WidevineEntries([] + Protobuf.Assigned(Protobuf.Text([]), bodies)) == PayloadIds(bodies)
  {
    hide Protobuf.Payload, WidevineKey;
    forall i | 0 <= i < |bodies|
      ensures WidevineEntries([] + Protobuf.Assigned(Protobuf.Text([]), bodies))[i] == PayloadIds(bodies)[i]
    {
      Seqs.Nil(Protobuf.Payload(bodies[i]));
    }
  }

  lemma PayloadReads(data: seq<byte>, at: nat, c: Content)
    requires GoodContent(c) && |ContentBytes(c)| < 0x1_0000
    requires Holds(data, at, ContentBytes(c)) && (c.PlayReadyObject? ==> at + |ContentBytes(c)| < |data|)
    ensures PayloadKeys(data, at, |ContentBytes(c)|, SystemOf(ContentSystem(c))) == Ok(ContentKeys(c))
  {
    hide Object.EncodeObject, Protobuf.EncodeAll, WidevineMessageKeys, PlayReadyKeys, WidevineKeys, XmlKeys;
    match c
    case PlayReadyObject(records) => ObjectReads(data, at, records);
    case WidevineMessage(fields) => MessageReads(data, at, fields);
    case Opaque(_, _) =>
  }

  lemma ObjectReads(data: seq<byte>, at: nat, records: seq<Object.Record>)
    requires Object.GoodRecords(records) && |Object.EncodeObject(records)| < 0x1_0000
    requires Holds(data, at, Object.EncodeObject(records)) && at + |Object.EncodeObject(records)| < |data|
    ensures InitData.Xml.AllKeys(Object.RecordsIds(records))
    ensures PlayReadyKeys(data, at, |Object.EncodeObject(records)|) == Ok((true, XmlKeys(Object.RecordsIds(records))))
  {
    hide Object.Read, Object.EncodeObject, Object.GoodRecords, Object.RecordsIds, Holds, XmlKeys;
    RecordsIdsKeys(records);
    Object.ObjectRoundTrip(data, at, records);
  }

  lemma MessageReads(data: seq<byte>, at: nat, fields: seq<Protobuf.Field>)
    requires Protobuf.Good(fields) && |Protobuf.EncodeAll(fields)| < 0x1_0000
    requires Holds(data, at, Protobuf.EncodeAll(fields))
    ensures WidevineKeys(data, at, |Protobuf.EncodeAll(fields)|) == Ok(WidevineMessageKeys(fields))
  {
    hide Protobuf.EncodeAll, Protobuf.ParseFields, Protobuf.ParseReach, Protobuf.Good, WidevineMessageKeys;
    hide WidevineEntries, KeyIds, Window;
    WindowIs(data, at, |Protobuf.EncodeAll(fields)|);
    MessageKeys(fields);
  }

  // ----- one box

  lemma {:induction false} JoinedLength(header: seq<seq<byte>>)
    requires GoodHeader(header)
    ensures |Joined(header)| == KEY_LENGTH * |header|
  {
    if header != [] {
      JoinedLength(header[1..]);
    }
  }

  lemma HeadLength(b: Box)
    requires GoodBox(b)
    ensures |Head(b)| == if b.version == 0 then 20 else 24 + KEY_LENGTH * |b.header|
    ensures |Body(b)| == |Head(b)| + 4 + |ContentBytes(b.content)|
  {
    hide ContentBytes;
    JoinedLength(b.header);
  }

  lemma {:induction false} HeaderReads(data: seq<byte>, at: nat, header: seq<seq<byte>>, system: System)
    requires GoodHeader(header) && Holds(data, at, Joined(header))
    ensures HeaderKeys(data, at, |header|, system) == Ok(HeadKeys(header, system))
    decreases |header|
  {
    if header != [] {
      HoldsSplit(data, at, header[0], Joined(header[1..]));
      HeaderReads(data, at + KEY_LENGTH, header[1..], system);
    }
  }

  /** The pieces of a box, from its version on. */
  lemma HoldsBody(data: seq<byte>, at: nat, b: Box)
    requires GoodBox(b) && Holds(data, at, Body(b))
    ensures at + |Head(b)| + 4 <= |data| && Holds(data, at, Head(b))
    ensures Holds(data, at + |Head(b)|, Write32BE(U32(|ContentBytes(b.content)|)))
    ensures Holds(data, at + |Head(b)| + 4, ContentBytes(b.content))
  {
    hide Holds, Head, ContentBytes, U32, Write32BE;
    var size := Write32BE(U32(|ContentBytes(b.content)|));
    HoldsSplit(data, at, Head(b), size + ContentBytes(b.content));
    HoldsSplit(data, at + |Head(b)|, size, ContentBytes(b.content));
    HoldsWithin(data, at + |Head(b)|, size);
  }

  lemma HoldsHead(data: seq<byte>, at: nat, b: Box)
    requires GoodBox(b) && Holds(data, at, Head(b))
    ensures at + 20 <= |data| && data[at] == b.version && Holds(data, at + 4, ContentSystem(b.content))
    ensures b.version == 1 ==>
              Holds(data, at + 20, Write32BE(U32(|b.header|))) && Holds(data, at + 24, Joined(b.header))
  {
    hide Holds, Joined, ContentSystem, GoodContent, GoodHeader, U32, Write32BE;
    var count := Write32BE(U32(|b.header|));
    var ids := if b.version == 0 then [] else count + Joined(b.header);
    var start, system := [b.version] + b.flags, ContentSystem(b.content);
    SystemLength(b.content);
    HoldsSplit(data, at, start, system + ids);
    HoldsSplit(data, at + 4, system, ids);
    HoldsWithin(data, at + 4, system);
    HoldsAt(data, at, start, 0);
    if b.version == 1 {
      HoldsSplit(data, at + 20, count, Joined(b.header));
    }
  }

  lemma SystemLength(c: Content)
    requires GoodContent(c)
    ensures |ContentSystem(c)| == 16
  {
  }

  lemma HoldsWithin(data: seq<byte>, at: nat, part: seq<byte>)
    requires Holds(data, at, part)
    ensures at + |part| <= |data| && data[at..at + |part|] == part
  {
  }

  lemma LayoutV0(data: seq<byte>, at: nat, length: u16, size: nat)
    requires at + HEADER_V0 <= |data| && data[at] == 0
    requires size + HEADER_V0 <= length && Read32BE(data, at + 20) == size
    ensures LayoutOf(data, at, length) == Ok(Layout(false, 0, true, HEADER_V0, size))
  {
    hide Read32BE;
  }

  lemma LayoutV1(data: seq<byte>, at: nat, length: u16, count: nat, payload: nat, size: nat)
    requires payload == KEY_LENGTH * count + HEADER_V1 && at + payload <= |data| && data[at] == 1
    requires size + payload <= length && Read32BE(data, at + 20) == count && Read32BE(data, at + payload - 4) == size
    ensures LayoutOf(data, at, length) == Ok(Layout(true, count, true, payload, size))
  {
    hide Read32BE;
  }

  lemma LayoutReads(data: seq<byte>, at: nat, b: Box)
    requires GoodBox(b) && Holds(data, at, Body(b)) && |Body(b)| < 0x1_0000
    ensures |b.header| < 0x1_0000 && |ContentBytes(b.content)| < 0x1_0000
    ensures LayoutOf(data, at, |Body(b)|)
         == Ok(Layout(b.version == 1, |b.header|, true, |Head(b)| + 4, |ContentBytes(b.content)|))
  {
    hide Holds, Body, Head, ContentBytes, Read32BE, GoodContent, GoodHeader, LayoutOf, U32, Write32BE;
    HoldsBody(data, at, b);
    HoldsHead(data, at, b);
    HeadLength(b);
    Small(|ContentBytes(b.content)|);
    Small(|b.header|);
    Reads32BE(data, at + |Head(b)|, |ContentBytes(b.content)|);
    if b.version == 1 {
      Reads32BE(data, at + 20, |b.header|);
      LayoutV1(data, at, |Body(b)|, |b.header|, |Head(b)| + 4, |ContentBytes(b.content)|);
    } else {
      LayoutV0(data, at, |Body(b)|, |ContentBytes(b.content)|);
    }
  }

  lemma Small(n: nat)
    requires n < 0x1_0000
    ensures U32(n) == n
  {
  }

  /** ParsePSSHBox adds the keys of the payload, then those of the head. */
  lemma BoxReads(data: seq<byte>, at: nat, b: Box)
    requires GoodBox(b) && Holds(data, at, Body(b)) && |Body(b)| < 0x1_0000
    requires b.content.PlayReadyObject? ==> at + |Body(b)| < |data|
    ensures BoxKeys(data, at, |Body(b)|) == Ok(KeysOf(b))
  {
    hide Body, Head, ContentBytes, PayloadKeys, HeaderKeys, LayoutOf, SystemOf, ContentSystem, GoodContent, GoodHeader;
    LayoutReads(data, at, b);
    HoldsBody(data, at, b);
    HoldsHead(data, at, b);
    HeadLength(b);
    SystemLength(b.content);
    assert data[at + 4..at + 20] == ContentSystem(b.content);
    PayloadReads(data, at + |Head(b)| + 4, b.content);
    if b.version == 1 {
      HeaderReads(data, at + 24, b.header, SystemOf(ContentSystem(b.content)));
    } else {
      NoHead(SystemOf(ContentSystem(b.content)));
    }
  }

  lemma NoHead(system: System)
    ensures HeadKeys([], system) == []
  {
  }

  // ----- all boxes

  lemma HoldsBox(data: seq<byte>, at: nat, b: Box)
    requires GoodBox(b) && Holds(data, at, EncodeBox(b)) && |EncodeBox(b)| < 0x1_0000
    ensures |EncodeBox(b)| == 8 + |Body(b)| && at + 8 <= |data|
    ensures Read32BE(data, at) == |EncodeBox(b)| && data[at + 4..at + 8] == PSS_HEADER
    ensures Holds(data, at + 8, Body(b))
  {
    hide Body, Read32BE, GoodBox, Holds, U32, Write32BE;
    var size := Write32BE(U32(8 + |Body(b)|));
    Small(8 + |Body(b)|);
    HoldsSplit(data, at, size + PSS_HEADER, Body(b));
    HoldsSplit(data, at, size, PSS_HEADER);
    HoldsWithin(data, at + 4, PSS_HEADER);
    Reads32BE(data, at, 8 + |Body(b)|);
  }

  /** One turn of the loop. */
  lemma BoxesStep(data: seq<byte>, offset: nat, length: u16, json: JsonReader, size: nat, keys: seq<Entry>,
                  rest: Parsed)
    requires 8 <= size && offset + size <= length && offset + 8 <= |data|
    requires Read32BE(data, offset) == size && data[offset + 4..offset + 8] == PSS_HEADER
    requires BoxKeys(data, offset + 8, size - 8) == Ok(keys)
    requires offset + size < length ==> Boxes(data, offset + size, length, json) == Ok(rest)
    requires offset + size == length ==> rest == Parsed(length, [], [])
    ensures Boxes(data, offset, length, json)
         == Ok(Parsed(rest.offset, [offset] + rest.boxes, keys + rest.keys))
  {
    hide BoxKeys, Read32BE, Bare;
    Seqs.Nil([offset]);
    Seqs.Nil(keys);
  }

  lemma BoxesTakeRoom(bs: seq<Box>)
    requires GoodBoxes(bs)
    ensures bs != [] ==> 0 < |EncodeBoxes(bs)|
  {
    hide Body, GoodBox;
    if bs != [] {
      assert |EncodeBoxes(bs)| >= |EncodeBox(bs[0])| >= 8;
    }
  }

  lemma {:induction false} BoxesRound(data: seq<byte>, offset: nat, length: u16, bs: seq<Box>, json: JsonReader)
    requires GoodBoxes(bs) && bs != [] && Holds(data, offset, EncodeBoxes(bs))
    requires offset + |EncodeBoxes(bs)| == length && (EndsWithPlayReady(bs) ==> length < |data|)
    ensures offset < length
    ensures Boxes(data, offset, length, json) == Ok(Parsed(length, Starts(bs, offset), AllKeysOf(bs)))
    decreases |bs|
  {
    hide EncodeBox, Body, BoxKeys, KeysOf, Boxes, GoodBox, Holds, Read32BE;
    var b, rest := bs[0], bs[1..];
    assert GoodBox(b);
    HoldsSplit(data, offset, EncodeBox(b), EncodeBoxes(rest));
    HoldsBox(data, offset, b);
    var next := offset + |EncodeBox(b)|;
    BoxesTakeRoom(rest);
    HoldsWithin(data, next, EncodeBoxes(rest));
    BoxReads(data, offset + 8, b);
    if rest == [] {
      BoxesStep(data, offset, length, json, |EncodeBox(b)|, KeysOf(b), Parsed(length, [], []));
    } else {
      BoxesRound(data, next, length, rest, json);
      BoxesStep(data, offset, length, json, |EncodeBox(b)|, KeysOf(b),
                Parsed(length, Starts(rest, next), AllKeysOf(rest)));
    }
  }

  /** For every list of well-formed boxes of at most 65535 bytes in all, the parser sees each box once, in
      order, stops at the end, and adds the keys of each payload followed by those of its head. The search
      for a tag in a PlayReady header inspects the byte behind it. */
  lemma BoxesRoundTrip(data: seq<byte>, bs: seq<Box>, json: JsonReader)
    requires GoodBoxes(bs) && |EncodeBoxes(bs)| < 0x1_0000
    requires Holds(data, 0, EncodeBoxes(bs)) && (EndsWithPlayReady(bs) ==> |EncodeBoxes(bs)| < |data|)
    ensures Read(data, |EncodeBoxes(bs)|, json) == Ok(Parsed(|EncodeBoxes(bs)|, Starts(bs, 0), AllKeysOf(bs)))
  {
    hide EncodeBox, KeysOf, Boxes, GoodBox;
    if bs != [] {
      BoxesRound(data, 0, |EncodeBoxes(bs)|, bs, json);
    }
  }
}
