/** The keys that init data announces, entry by entry, and what becomes of data that is not well-formed
    (plugin/CENCParser.h, Parse, ParsePSSHBox and ParseWidevinePSSHData). */
module Announced {
  import opened Bytes
  import opened Outcomes
  import opened KeyList
  import opened InitData
  import opened PsshBoxes
  import Search = XmlSearch
  import Seqs

  // ----- markers

  /** The bytes of a UUID, in four words. */
  function Uuid(a: u32, b: u32, c: u32, d: u32): (id: seq<byte>)
    ensures |id| == 16
  {
    Write32BE(a) + Write32BE(b) + Write32BE(c) + Write32BE(d)
  }

  lemma CommonIs()
    ensures Uuid(0x1077_EFEC, 0xC0B2_4D02, 0xACE3_3C1E, 0x52E2_FB4B) == COMMON_ENCRYPTION_ID
  {
  }

  lemma PlayReadyIs()
    ensures Uuid(0x9A04_F079, 0x9840_4286, 0xAB92_E65B, 0xE088_5F95) == PLAYREADY_ID
  {
  }

  lemma WidevineIs()
    ensures Uuid(0xEDEF_8BA9, 0x79D6_4ACE, 0xA3C8_27DC, 0xD51D_21ED) == WIDEVINE_ID
  {
  }

  lemma ClearKeyIs()
    ensures Uuid(0x5814_7EC8, 0x0423_4659, 0x92E6_F52C, 0x5CE8_C3CC) == CLEARKEY_ID
  {
  }

  /** The systems of the four UUIDs, and of every other. */
  lemma SystemsAre(id: seq<byte>)
    ensures SystemOf(Uuid(0x1077_EFEC, 0xC0B2_4D02, 0xACE3_3C1E, 0x52E2_FB4B)) == COMMON
    ensures SystemOf(id) == PLAYREADY <==> id == Uuid(0x9A04_F079, 0x9840_4286, 0xAB92_E65B, 0xE088_5F95)
    ensures SystemOf(id) == WIDEVINE <==> id == Uuid(0xEDEF_8BA9, 0x79D6_4ACE, 0xA3C8_27DC, 0xD51D_21ED)
    ensures SystemOf(id) == CLEARKEY <==> id == Uuid(0x5814_7EC8, 0x0423_4659, 0x92E6_F52C, 0x5CE8_C3CC)
  {
    hide Uuid;
    CommonIs();
    PlayReadyIs();
    WidevineIs();
    ClearKeyIs();
    assert CLEARKEY_ID[0] == 0x58 && PLAYREADY_ID[0] == 0x9a && WIDEVINE_ID[0] == 0xed
           && COMMON_ENCRYPTION_ID[0] == 0x10;
  }

  /** The texts that are looked for. */
  lemma Spellings()
    ensures PSS_HEADER == Ascii("pssh") && JSON_KEY_IDS == Ascii("{\"kids\":")
    ensures Object.Xml.KID_TAG == Ascii("<KID>") && Object.Xml.KID_OPEN == Ascii("<KID ")
    ensures Object.Xml.KID_CLOSE == Ascii("</KID>") && Object.Xml.VALUE == Ascii("VALUE")
    ensures Object.Xml.QUOTE == Ascii("\"")
  {
  }

  // ----- the entries

  /** The keys of a Widevine message: one for each occurrence of field 2, in order, with its bytes (their number
      counts modulo 256), for Widevine, and pending. */
  lemma WidevineKeysAre(fields: seq<Protobuf.Field>, i: nat)
    requires Protobuf.Good(fields) && Protobuf.TypedAll(WIDEVINE_FIELDS, fields)
    ensures var bodies, keys := Protobuf.Occurrences(fields, 2), MessageKeyIds(Protobuf.EncodeAll(fields));
            && |keys| == |bodies|
            && (i < |bodies| ==>
                  && (bodies[i].Delimited? || bodies[i].Embedded?)
                  && var id := Protobuf.Payload(bodies[i]);
                  && keys[i].systems == {WIDEVINE} && keys[i].status == StatusPending
                  && keys[i].kid == Raw(id[..|id| % 0x100])
                  && (|id| <= 255 ==> keys[i].kid == Raw(id)))
  {
    hide Protobuf.ParseFields, Protobuf.EncodeAll, Protobuf.TypedAll, Protobuf.ApplyAll, Protobuf.Occurrences;
    hide Protobuf.Payload;
    MessageKeys(fields);
    Protobuf.RepeatedHolds(WIDEVINE_FIELDS, fields, WIDEVINE_KEY_IDS);
    var bodies := Protobuf.Occurrences(fields, 2);
    if i < |bodies| {
      var id := Protobuf.Payload(bodies[i]);
      if |id| <= 255 {
        assert id[..|id| % 0x100] == id;
      }
    }
  }

  /** The fields of a Widevine message: 1, 7, 9 and 10 are numbers of 32 bits, 2 repeats bytes, and the others up to 10
      are bytes. */
  lemma WidevineElements(n: nat)
    ensures n in WIDEVINE_FIELDS <==> 1 <= n <= 10
    ensures n in {1, 7, 9, 10} ==> WIDEVINE_FIELDS[n] == Protobuf.One(Protobuf.Number(false, 0, false))
    ensures n == 2 ==> WIDEVINE_FIELDS[n] == Protobuf.Many(Protobuf.Text([]), [])
    ensures n in {3, 4, 5, 6, 8} ==> WIDEVINE_FIELDS[n] == Protobuf.One(Protobuf.Text([]))
  {
  }

  /** A message with a field of the wrong wire type has no keys. */
  lemma MistypedMessage(fields: seq<Protobuf.Field>)
    requires Protobuf.Good(fields) && !Protobuf.TypedAll(WIDEVINE_FIELDS, fields)
    ensures MessageKeyIds(Protobuf.EncodeAll(fields)) == []
  {
    hide Protobuf.ParseFields, Protobuf.EncodeAll, Protobuf.TypedAll;
    MessageKeys(fields);
  }

  /** A message that announces a key id and ends there is accepted, with a key without bytes. */
  lemma CutKeyId(size: byte)
    requires 0 < size < 128
    ensures MessageKeyIds([0x12, size]) == [Entry(Raw([]), {WIDEVINE}, StatusPending)]
  {
    hide Protobuf.ParseFields;
    Protobuf.CutPayload(WIDEVINE_FIELDS, 2, size, []);
    Seqs.Nil([0x12, size]);
    Protobuf.ParsesNothing(WIDEVINE_FIELDS[2 := Protobuf.Many(Protobuf.Text([]), [] + [Protobuf.Text([])])]);
  }

  /** The key of an id in a PlayReady header: its fields, the highest byte first, for PlayReady, and pending. */
  lemma HeaderIdKey(ids: seq<seq<byte>>, i: nat)
    requires Object.Xml.AllKeys(ids) && i < |ids|
    ensures var id := ids[i];
            && |XmlKeys(ids)| == |ids| && |id| == 16
            && XmlKeys(ids)[i]
               == Entry(Guid(0x100_0000 * id[0] as int + 0x1_0000 * id[1] as int + 0x100 * id[2] as int + id[3] as int,
                             0x100 * id[4] as int + id[5] as int, 0x100 * id[6] as int + id[7] as int, id[8..]),
                        {PLAYREADY}, StatusPending)
  {
  }

  lemma JsonKeysAre(ids: seq<KeyBytes>, i: nat)
    requires i < |ids|
    ensures |JsonKeys(ids)| == |ids| && JsonKeys(ids)[i] == Entry(Raw(ids[i]), {CLEARKEY}, StatusPending)
  {
  }

  /** The keys in the head of a version 1 box. */
  lemma {:induction false} HeadKeysAre(header: seq<seq<byte>>, system: System, i: nat)
    ensures |HeadKeys(header, system)| == |header|
    ensures i < |header| ==> HeadKeys(header, system)[i] == Entry(Raw(header[i]), {system}, StatusPending)
    decreases |header|
  {
    if header != [] {
      HeadKeysAre(header[1..], system, if i > 0 then i - 1 else 0);
    }
  }

  // ----- boxes, byte by byte

  /** The first bytes of a box: its size and its type; its version, behind which stand three bytes of flags, and its
      system; and for version 1 the count of the key ids. The highest byte comes first. */
  lemma BoxBytes(b: Box)
    requires GoodBox(b) && |EncodeBox(b)| < 0x1_0000
    ensures var n, c, e := |EncodeBox(b)|, |b.header|, EncodeBox(b);
            && 32 <= n && e[..4] == [0, 0, n / 0x100, n % 0x100] && e[4..8] == Ascii("pssh")
            && e[8] == b.version && e[12..28] == ContentSystem(b.content)
            && (b.version == 1 ==> 36 <= n && c < 0x1_0000 && e[28..32] == [0, 0, c / 0x100, c % 0x100])
  {
    hide EncodeBox, ContentBytes, ContentSystem, GoodContent, Holds, Body, Head, Write32BE, Read32BE;
    Spellings();
    SystemLength(b.content);
    HeadLength(b);
    var e := EncodeBox(b);
    Whole(e);
    HoldsBox(e, 0, b);
    HoldsBody(e, 8, b);
    HoldsHead(e, 8, b);
    HoldsWithin(e, 12, ContentSystem(b.content));
    SizeHeld(b);
    if b.version == 1 {
      HoldsWithin(e, 28, Write32BE(U32(|b.header|)));
      SmallBytes(|b.header|);
    }
  }

  lemma Whole(e: seq<byte>)
    ensures Holds(e, 0, e)
  {
  }

  lemma SmallBytes(n: nat)
    requires n < 0x1_0000
    ensures Write32BE(U32(n)) == [0, 0, n / 0x100, n % 0x100]
  {
  }

  lemma SizeHeld(b: Box)
    requires GoodBox(b) && |EncodeBox(b)| == 8 + |Body(b)| < 0x1_0000
    ensures var n := |EncodeBox(b)|; EncodeBox(b)[..4] == [0, 0, n / 0x100, n % 0x100]
  {
    hide Body, Write32BE;
    SmallBytes(8 + |Body(b)|);
  }

  // ----- boxes that are not well-formed

  /** A box whose payload is announced longer than the box adds the keys in its head all the same. */
  lemma BrokenPayload(data: seq<byte>, at: nat, length: u16, b: Box)
    requires GoodBox(b) && Holds(data, at, Head(b)) && at + |Head(b)| + 4 <= |data| && |Head(b)| + 4 <= length
    requires length < Read32BE(data, at + |Head(b)|) + |Head(b)| + 4 < 0x1_0000_0000
    ensures BoxKeys(data, at, length) == Ok(HeadKeys(b.header, SystemOf(ContentSystem(b.content))))
  {
    hide Head, ContentSystem, GoodContent, SystemOf, HeaderKeys, Read32BE, PayloadKeys, Holds, LayoutOf, Joined;
    HeadLength(b);
    HoldsHead(data, at, b);
    SystemLength(b.content);
    HoldsWithin(data, at + 4, ContentSystem(b.content));
    var system := SystemOf(ContentSystem(b.content));
    BrokenLayout(data, at, length, b);
    if b.version == 0 {
      NoHead(system);
    } else {
      HeaderReads(data, at + 24, b.header, system);
      Seqs.Nil(HeadKeys(b.header, system));
    }
  }

  lemma BrokenLayout(data: seq<byte>, at: nat, length: u16, b: Box)
    requires GoodBox(b) && Holds(data, at, Head(b)) && at + |Head(b)| + 4 <= |data| && |Head(b)| + 4 <= length
    requires length < Read32BE(data, at + |Head(b)|) + |Head(b)| + 4 < 0x1_0000_0000
    ensures LayoutOf(data, at, length).Ok?
    ensures var l := LayoutOf(data, at, length).value;
            !l.hasPayload && l.hasKeys == (b.version == 1) && (b.version == 1 ==> l.keyCount == |b.header|)
  {
    hide Head, ContentSystem, GoodContent, GoodHeader, Read32BE, Holds, Joined, Write32BE;
    HeadLength(b);
    HoldsHead(data, at, b);
    if b.version == 1 {
      Small(|b.header|);
      Reads32BE(data, at + 20, |b.header|);
    }
  }

  /** A box of version 1 that counts more key ids than fit adds nothing. */
  lemma TooManyKeys(data: seq<byte>, at: nat, length: u16)
    requires HEADER_V0 <= length && at + 24 <= |data| && data[at] == 1
    requires length < 16 * Read32BE(data, at + 20) as int + 28 < 0x1_0000_0000
    ensures BoxKeys(data, at, length) == Ok([])
  {
    hide Read32BE;
  }

  /** A box that is too short for a head adds nothing, without a look at it. */
  lemma TooShort(data: seq<byte>, at: nat, length: u16)
    requires length < 24
    ensures BoxKeys(data, at, length) == Ok([])
  {
  }

  /** No box starts at `offset`: there are less than four bytes, or its size is larger than what is left, or it is of
      another type. */
  predicate NoBox(data: seq<byte>, offset: nat, length: u16)
  {
    && offset < length && offset + 4 <= |data|
    && (|| length < offset + 4
        || offset + Read32BE(data, offset) > length
        || (offset + 8 <= |data| && data[offset + 4..offset + 8] != PSS_HEADER))
  }

  /** Where the eight bytes can be read, a box starts exactly if it is not for one of these reasons. */
  lemma BoxIff(data: seq<byte>, offset: nat, length: u16)
    requires offset + 8 <= |data| && offset < length
    ensures IsBox(data, offset, length) == Ok(!NoBox(data, offset, length))
    ensures IsBox(data, offset, length)
         == Ok(4 <= length - offset && Read32BE(data, offset) <= length - offset
               && data[offset] as int * 0x100_0000 + data[offset + 1] as int * 0x1_0000
                  + data[offset + 2] as int * 0x100 + data[offset + 3] as int <= length - offset
               && data[offset + 4..offset + 8] == Ascii("pssh"))
  {
    Spellings();
  }

  /** Behind well-formed boxes, data that is no box ends the parsing, with the keys of these boxes. */
  lemma StopsBehind(data: seq<byte>, length: u16, bs: seq<Box>, json: JsonReader)
    requires GoodBoxes(bs) && bs != [] && Holds(data, 0, EncodeBoxes(bs)) && NoBox(data, |EncodeBoxes(bs)|, length)
    ensures Read(data, length, json) == Ok(Parsed(|EncodeBoxes(bs)|, Starts(bs, 0), AllKeysOf(bs)))
  {
    hide EncodeBox, EncodeBoxes, KeysOf, Boxes, GoodBox, Holds;
    var n := |EncodeBoxes(bs)|;
    HoldsWithin(data, 0, EncodeBoxes(bs));
    BoxesTakeRoom(bs);
    Stops(data, n, length, json);
    BoxesThen(data, 0, length, bs, json, Parsed(n, [], []));
    Seqs.Nil(Starts(bs, 0));
    Seqs.Nil(AllKeysOf(bs));
  }

  lemma Stops(data: seq<byte>, offset: nat, length: u16, json: JsonReader)
    requires NoBox(data, offset, length) && 0 < offset
    ensures Boxes(data, offset, length, json) == Ok(Parsed(offset, [], []))
  {
    hide BoxKeys, Bare, Read32BE;
  }

  /** Well-formed boxes in front of any data: each is visited once, and then what stands behind them. */
  lemma {:induction false} BoxesThen(data: seq<byte>, offset: nat, length: u16, bs: seq<Box>, json: JsonReader,
                                     rest: Parsed)
    requires GoodBoxes(bs) && Holds(data, offset, EncodeBoxes(bs))
    requires offset + |EncodeBoxes(bs)| < length && offset + |EncodeBoxes(bs)| < |data|
    requires Boxes(data, offset + |EncodeBoxes(bs)|, length, json) == Ok(rest)
    ensures Boxes(data, offset, length, json)
         == Ok(Parsed(rest.offset, Starts(bs, offset) + rest.boxes, AllKeysOf(bs) + rest.keys))
    decreases |bs|
  {
    hide EncodeBox, Body, BoxKeys, KeysOf, Boxes, GoodBox, Holds, Read32BE;
    if bs == [] {
      Seqs.Nil(rest.boxes);
      Seqs.Nil(rest.keys);
    } else {
      var b, behind := bs[0], bs[1..];
      assert GoodBox(b);
      HoldsSplit(data, offset, EncodeBox(b), EncodeBoxes(behind));
      HoldsBox(data, offset, b);
      var next := offset + |EncodeBox(b)|;
      HoldsWithin(data, next, EncodeBoxes(behind));
      BoxReads(data, offset + 8, b);
      BoxesThen(data, next, length, behind, json, rest);
      var tail := Parsed(rest.offset, Starts(behind, next) + rest.boxes, AllKeysOf(behind) + rest.keys);
      BoxesStep(data, offset, length, json, |EncodeBox(b)|, KeysOf(b), tail);
      Seqs.Assoc([offset], Starts(behind, next), rest.boxes);
      Seqs.Assoc(KeysOf(b), AllKeysOf(behind), rest.keys);
    }
  }

  // ----- data without boxes

  /** No data, and data of length 0, is left alone. */
  lemma NoData(data: seq<byte>, length: u16, json: JsonReader, turns: nat)
    requires data == [] || length == 0
    ensures Read(data, length, json) == Ok(Parsed(0, [], []))
    ensures ReadTurns(data, length, json, turns) == Ok(Course(true, Parsed(0, [], [])))
  {
  }

  /** A header in XML starts with `<WRM` in every other byte; data that ends before that is decided leads the look at
      it out of the readable bytes, if it agrees as far as it goes. */
  lemma XmlIff(data: seq<byte>)
    requires 4 <= |data|
    ensures 7 <= |data| ==>
              IsXml(data) == Ok([data[0], data[2], data[4], data[6]] == Ascii("<WRM"))
    ensures |data| == 4 ==> IsXml(data) == if [data[0], data[2]] == Ascii("<W") then Wild else Ok(false)
    ensures 4 < |data| < 7 ==> IsXml(data) == if [data[0], data[2], data[4]] == Ascii("<WR") then Wild else Ok(false)
  {
    assert Ascii("<WRM") == [60, 87, 82, 77] && Ascii("<W") == [60, 87] && Ascii("<WR") == [60, 87, 82];
  }

  /** Text that starts with a brace and holds the marker is passed to the JSON reader as a whole; without the marker,
      and unless it announces its size as a PlayReady object does, it adds nothing. */
  lemma BraceText(data: seq<byte>, length: u16, json: JsonReader)
    requires 0 < length <= |data| && 4 <= |data| && data[0] == 123
    requires Contains(data[..length], JSON_KEY_IDS) || Read32LE(data, 0) != length
    ensures Read(data, length, json)
         == Ok(if Contains(data[..length], JSON_KEY_IDS) then Parsed(length, [], JsonKeys(json(data[..length])))
               else Parsed(0, [], []))
  {
    hide Contains, JsonKeys, Read32LE, BoxKeys, PlayReadyKeys;
    assert Read32BE(data, 0) >= 0x100_0000 * 123;
  }

  /** Where the marker stands. */
  lemma ContainsIff(text: seq<byte>, key: seq<byte>)
    ensures Contains(text, key) <==> exists before, behind :: text == before + key + behind
  {
    if k :| 0 <= k <= |text| && Search.At(text, key, k) {
      assert text == text[..k] + key + text[k + |key|..];
    }
    if before, behind :| text == before + key + behind {
      assert Search.At(text, key, |before|);
    }
  }
}
