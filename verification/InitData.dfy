/** What the init-data parser reads from a buffer (plugin/CENCParser.h, Parse and ParsePSSHBox), and the
    encoder of pssh boxes of ISO/IEC 23001-7 section 8.1 that it is proved against.

    `data` holds the bytes that can be read, which may be more than the `length` that the caller passes. */
module InitData {
  import opened Bytes
  import opened Outcomes
  import opened KeyList
  import Seqs
  import opened XmlSearch
  import Xml = PlayReadyXml
  import Object = PlayReadyObject
  import Protobuf

  const PSS_HEADER: seq<byte> := [0x70, 0x73, 0x73, 0x68]
  const COMMON_ENCRYPTION_ID: seq<byte> :=
    [0x10, 0x77, 0xef, 0xec, 0xc0, 0xb2, 0x4d, 0x02, 0xac, 0xe3, 0x3c, 0x1e, 0x52, 0xe2, 0xfb, 0x4b]
  const PLAYREADY_ID: seq<byte> :=
    [0x9a, 0x04, 0xf0, 0x79, 0x98, 0x40, 0x42, 0x86, 0xab, 0x92, 0xe6, 0x5b, 0xe0, 0x88, 0x5f, 0x95]
  const WIDEVINE_ID: seq<byte> :=
    [0xed, 0xef, 0x8b, 0xa9, 0x79, 0xd6, 0x4a, 0xce, 0xa3, 0xc8, 0x27, 0xdc, 0xd5, 0x1d, 0x21, 0xed]
  const CLEARKEY_ID: seq<byte> :=
    [0x58, 0x14, 0x7e, 0xc8, 0x04, 0x23, 0x46, 0x59, 0x92, 0xe6, 0xf5, 0x2c, 0x5c, 0xe8, 0xc3, 0xcc]

  /** `{"kids":` */
  const JSON_KEY_IDS: seq<byte> := [123, 34, 107, 105, 100, 115, 34, 58]

  /** An unknown system is left at COMMON. */
  function SystemOf(id: seq<byte>): System
  {
    if id == COMMON_ENCRYPTION_ID then COMMON
    else if id == PLAYREADY_ID then PLAYREADY
    else if id == WIDEVINE_ID then WIDEVINE
    else if id == CLEARKEY_ID then CLEARKEY
    else COMMON
  }

  // ----- payloads

  /** The fields of a Microsoft GUID, taken big-endian from the decoded bytes. */
  function GuidOf(id: seq<byte>): Kid
    requires |id| == KEY_LENGTH
  {
    Guid(Read32BE(id, 0), id[4] as int * 0x100 + id[5] as int, id[6] as int * 0x100 + id[7] as int, id[8..])
  }

  /** The fields, written big-endian one behind the other, give the decoded bytes back. */
  lemma GuidKeepsBytes(id: seq<byte>)
    requires |id| == KEY_LENGTH
    ensures var g := GuidOf(id);
            Write32BE(g.a) + [g.b / 0x100, g.b % 0x100] + [g.c / 0x100, g.c % 0x100] + g.d == id
  {
    BigEndian(id[0], id[1], id[2], id[3]);
    var g := GuidOf(id);
    assert Write32BE(g.a) == id[..4];
    assert [g.b / 0x100, g.b % 0x100] == id[4..6] && [g.c / 0x100, g.c % 0x100] == id[6..8];
    Seqs.Slices(id, 0, 4, 6);
    Seqs.Slices(id, 0, 6, 8);
    assert id[..8] + id[8..] == id;
  }

  lemma BigEndian(a: byte, b: byte, c: byte, d: byte)
    ensures Write32BE(0x100_0000 * a as int + 0x1_0000 * b as int + 0x100 * c as int + d as int) == [a, b, c, d]
  {
    LowestByte(0x1_0000 * a as int + 0x100 * b as int + c as int, d);
    LowestByte(0x100 * a as int + b as int, c);
    LowestByte(a as int, b);
  }

  lemma LowestByte(n: int, b: byte)
    ensures (0x100 * n + b) / 0x100 == n && (0x100 * n + b) % 0x100 == b
  {
  }

  function XmlKeys(ids: seq<seq<byte>>): seq<Entry>
    requires Xml.AllKeys(ids)
  {
    seq(|ids|, i requires 0 <= i < |ids| => Fresh(GuidOf(ids[i]), PLAYREADY))
  }

  const WIDEVINE_FIELDS: Protobuf.Fields := map[
    1 := Protobuf.One(Protobuf.Number(false, 0, false)),
    2 := Protobuf.Many(Protobuf.Text([]), []),
    3 := Protobuf.One(Protobuf.Text([])),
    4 := Protobuf.One(Protobuf.Text([])),
    5 := Protobuf.One(Protobuf.Text([])),
    6 := Protobuf.One(Protobuf.Text([])),
    7 := Protobuf.One(Protobuf.Number(false, 0, false)),
    8 := Protobuf.One(Protobuf.Text([])),
    9 := Protobuf.One(Protobuf.Number(false, 0, false)),
    10 := Protobuf.One(Protobuf.Number(false, 0, false))]

  const WIDEVINE_KEY_IDS := 2

  /** The length of a key id is passed as a byte. */
  function WidevineKey(id: seq<byte>): Entry { Fresh(Raw(id[..|id| % 0x100]), WIDEVINE) }

  function WidevineEntries(ids: seq<Protobuf.Scalar>): seq<Entry>
  {
    seq(|ids|, i requires 0 <= i < |ids| => WidevineKey(if ids[i].Text? then ids[i].text else []))
  }

  /** The key ids of a parsed message. */
  function KeyIds(fields: Protobuf.Fields): seq<Protobuf.Scalar>
  {
    if WIDEVINE_KEY_IDS in fields && fields[WIDEVINE_KEY_IDS].Many? then fields[WIDEVINE_KEY_IDS].items else []
  }

  function MessageKeyIds(message: seq<byte>): seq<Entry>
  {
    var p := Protobuf.ParseFields(WIDEVINE_FIELDS, message);
    if p.complete then WidevineEntries(KeyIds(p.fields)) else []
  }

  /** ParseWidevinePSSHData, which may inspect less than the whole message. */
  function WidevineKeys(data: seq<byte>, at: nat, length: u16): Outcome<seq<Entry>>
  {
    var message := Window(data, at, length);
    if InReach(data, at, Protobuf.ParseReach(WIDEVINE_FIELDS, message)) then Ok(MessageKeyIds(message)) else Wild
  }

  /** Whatever stands behind the readable bytes, the same bytes of the message are inspected if they are all
      readable, with the same result; and if not, then one that is not readable is. */
  lemma UnreadMessage(data: seq<byte>, at: nat, length: u16, message: seq<byte>)
    requires at <= |data| && |message| == length
    requires forall i :: 0 <= i < length && at + i < |data| ==> message[i] == data[at + i]
    ensures WidevineKeys(data, at, length)
         == if at + Protobuf.ParseReach(WIDEVINE_FIELDS, message) <= |data| then Ok(MessageKeyIds(message)) else Wild
  {
    hide Protobuf.ParseReach, Protobuf.ParseFields, WidevineEntries, KeyIds;
    var window := Window(data, at, length);
    var n := if at + length <= |data| then length as nat else |data| - at;
    assert window[..n] == message[..n];
    if Protobuf.ParseReach(WIDEVINE_FIELDS, message) <= n {
      Protobuf.ParseLocal(WIDEVINE_FIELDS, message, window, n);
    }
    if Protobuf.ParseReach(WIDEVINE_FIELDS, window) <= n {
      Protobuf.ParseLocal(WIDEVINE_FIELDS, window, message, n);
    }
  }

  /** ParsePlayReadyPSSHData: its result, and the keys it adds. */
  function PlayReadyKeys(data: seq<byte>, at: nat, length: u16): Outcome<(bool, seq<Entry>)>
  {
    var r :- Object.Read(data, at, length);
    Ok((r.accepted, XmlKeys(r.found)))
  }

  /** The size of a payload is passed on as 16 bits. */
  function PayloadKeys(data: seq<byte>, at: nat, size: u32, system: System): Outcome<seq<Entry>>
  {
    if system == PLAYREADY then
      var r :- PlayReadyKeys(data, at, U16(size));
      Ok(r.1)
    else if system == WIDEVINE then WidevineKeys(data, at, U16(size))
    else Ok([])
  }

  // ----- boxes

  /** What ParsePSSHBox takes from the head of a box: the count of the key ids in the head, and the place
      and the size of the payload, if they pass the comparison with the length of the box. */
  datatype Layout = Layout(hasKeys: bool, keyCount: u32, hasPayload: bool, payload: nat, size: u32)

  const NO_LAYOUT := Layout(false, 0, false, 0, 0)

  const HEADER_V0 := 24
  const HEADER_V1 := 28

  /** A wrapped place of the payload leaves room for the size in front of it. */
  lemma PayloadPlace(count: u32)
    ensures U32(count * KEY_LENGTH + HEADER_V1) % 16 == 12
  {
    var n: int := count * KEY_LENGTH + HEADER_V1;
    assert n == 16 * (count + 1) + 12;
    assert n % 0x1_0000_0000 == 16 * (count + 1 - 0x1000_0000 * (n / 0x1_0000_0000)) + 12;
  }

  /** Sums and products are taken modulo 2^32. The version is inspected first. */
  function LayoutOf(data: seq<byte>, at: nat, length: u16): Outcome<Layout>
  {
    if at >= |data| then Wild
    else if data[at] > 1 then Ok(NO_LAYOUT)
    else if at + HEADER_V0 > |data| then Wild
    else if data[at] == 0 then
      var size := Read32BE(data, at + HEADER_V0 - 4);
      Ok(Layout(false, 0, U32(size + HEADER_V0) <= length, HEADER_V0, size))
    else
      var count := Read32BE(data, at + HEADER_V0 - 4);
      var payload := U32(count * KEY_LENGTH + HEADER_V1);
      PayloadPlace(count);
      if payload > length then Ok(NO_LAYOUT)
      else if at + payload > |data| then Wild
      else
        var size := Read32BE(data, at + payload - 4);
        Ok(Layout(true, count, U32(size + payload) <= length, payload, size))
  }

  /** What passes the comparison lies inside the box exactly when the sum that is compared does not wrap. */
  lemma LayoutInsideIff(data: seq<byte>, at: nat, length: u16)
    requires HEADER_V0 <= length && LayoutOf(data, at, length).Ok?
    ensures var l := LayoutOf(data, at, length).value;
            && (l.hasKeys ==>
                  var sum := l.keyCount * KEY_LENGTH + HEADER_V1;
                  (sum <= length <==> sum < 0x1_0000_0000) && (l.payload == sum <==> sum < 0x1_0000_0000))
            && (l.hasPayload ==> (l.payload + l.size <= length <==> l.payload + l.size < 0x1_0000_0000))
  {
    hide Read32BE;
  }

  /** The head of a version 0 box whose size of the payload is 2^32 - 16. */
  const HUGE_PAYLOAD: seq<byte> :=
    seq(HEADER_V0, i requires 0 <= i < HEADER_V0 => if i < 20 then 0 else if i < 23 then 0xFF else 0xF0)

  /** In a box of 24 bytes it is taken for a payload. */
  lemma HugePayloadAccepted()
    ensures LayoutOf(HUGE_PAYLOAD, 0, HEADER_V0) == Ok(Layout(false, 0, true, HEADER_V0, 0xFFFF_FFF0))
  {
    assert Read32BE(HUGE_PAYLOAD, 20) == 0xFFFF_FFF0;
  }

  /** The key ids in the head of a version 1 box. */
  function HeaderKeys(data: seq<byte>, at: nat, count: nat, system: System): (keys: Outcome<seq<Entry>>)
    decreases count
  {
    if count == 0 then Ok([])
    else if at + KEY_LENGTH > |data| then Wild
    else
      var rest :- HeaderKeys(data, at + KEY_LENGTH, count - 1, system);
      Ok([Fresh(Raw(data[at..at + KEY_LENGTH]), system)] + rest)
  }

  /** ParsePSSHBox, from behind the size and the type: the keys it adds, those of the payload first. */
  function BoxKeys(data: seq<byte>, at: nat, length: u16): Outcome<seq<Entry>>
  {
    if length < HEADER_V0 then Ok([])
    else
      var l :- LayoutOf(data, at, length);
      if !l.hasKeys && !l.hasPayload then Ok([])
      else
        var system := SystemOf(data[at + 4..at + 20]);
        var inPayload :- if l.hasPayload then PayloadKeys(data, at + l.payload, l.size, system) else Ok([]);
        var inHeader :- if l.hasKeys then HeaderKeys(data, at + HEADER_V0, l.keyCount, system) else Ok([]);
        Ok(inPayload + inHeader)
  }

  // ----- the whole buffer

  type KeyBytes = k: seq<byte> | |k| == KEY_LENGTH witness seq(KEY_LENGTH, i => 0)

  /** The decoder of key ids in JSON is not part of this model; it fills an array of the length of a key id for
      each of them. */
  type JsonReader = seq<byte> -> seq<KeyBytes>

  /** Where parsing stopped, where it saw a box, and the keys it added. */
  datatype Parsed = Parsed(offset: nat, boxes: seq<nat>, keys: seq<Entry>)

  /** Whether a pssh box starts at `offset`. */
  function IsBox(data: seq<byte>, offset: nat, length: u16): Outcome<bool>
    requires offset + 4 <= |data|
  {
    if Read32BE(data, offset) <= length - offset && 4 <= length - offset then
      if offset + 8 > |data| then Wild else Ok(data[offset + 4..offset + 8] == PSS_HEADER)
    else Ok(false)
  }

  /** Whether the data starts with `<WRM` in UTF-16, looking at one character after the other. */
  function IsXml(data: seq<byte>): (x: Outcome<bool>)
    requires 4 <= |data|
  {
    if data[0] != 60 || data[2] != 87 then Ok(false)
    else if |data| <= 4 then Wild
    else if data[4] != 82 then Ok(false)
    else if |data| <= 6 then Wild
    else Ok(data[6] == 77)
  }

  predicate Contains(text: seq<byte>, key: seq<byte>)
  {
    exists k :: 0 <= k <= |text| && At(text, key, k)
  }

  function JsonKeys(ids: seq<KeyBytes>): seq<Entry>
  {
    seq(|ids|, i requires 0 <= i < |ids| => Fresh(Raw(ids[i]), CLEARKEY))
  }

  /** Init data that does not start with a box. */
  function Bare(data: seq<byte>, length: u16, json: JsonReader): Outcome<Parsed>
    requires 4 <= |data|
  {
    var xml :- IsXml(data);
    if xml then
      var ids :- Xml.XmlIds(data, 0, length);
      Ok(Parsed(length, [], XmlKeys(ids)))
    else if length > |data| then Wild
    else if Contains(data[..length], JSON_KEY_IDS) then Ok(Parsed(length, [], JsonKeys(json(data[..length]))))
    else if Read32LE(data, 0) == length then
      var r :- PlayReadyKeys(data, 0, length);
      Ok(Parsed(if r.0 then length else 0, [], r.1))
    else Ok(Parsed(0, [], []))
  }

  /** One turn of the loop of Parse: it goes on at `next`, or it ends. */
  datatype Turned = Goes(next: nat, keys: seq<Entry>) | Stops(parsed: Parsed)

  function Turn(data: seq<byte>, offset: nat, length: u16, json: JsonReader): (t: Outcome<Turned>)
    requires offset < length
    ensures t.Ok? && t.value.Goes? ==> offset <= t.value.next < length
  {
    if offset + 4 > |data| then Wild
    else
      var box :- IsBox(data, offset, length);
      if box then
        var next := offset + Read32BE(data, offset);
        var keys :- BoxKeys(data, offset + 8, U16(Read32BE(data, offset) - 8));
        Ok(if next < length then Goes(next, keys) else Stops(Parsed(next, [offset], keys)))
      else if offset == 0 then
        var parsed :- Bare(data, length, json);
        Ok(Stops(parsed))
      else Ok(Stops(Parsed(offset, [], [])))
  }

  /** The box at `offset`, and what follows it. */
  function Behind(offset: nat, keys: seq<Entry>, rest: Parsed): Parsed
  {
    Parsed(rest.offset, [offset] + rest.boxes, keys + rest.keys)
  }

  /** The loop of Parse. A box of size 0 is seen again and again. */
  function Boxes(data: seq<byte>, offset: nat, length: u16, json: JsonReader): Outcome<Parsed>
    requires offset < length
    decreases length - offset
  {
    var turn :- Turn(data, offset, length, json);
    match turn
    case Stops(parsed) => Ok(parsed)
    case Goes(next, keys) =>
      if next == offset then Endless
      else
        var rest :- Boxes(data, next, length, json);
        Ok(Behind(offset, keys, rest))
  }

  /** Parse. A null pointer is a buffer without readable bytes. */
  function Read(data: seq<byte>, length: u16, json: JsonReader): Outcome<Parsed>
  {
    if data == [] || length == 0 then Ok(Parsed(0, [], [])) else Boxes(data, 0, length, json)
  }

  // ----- a number of turns of the loop

  /** Whether the loop has returned after a number of turns, and what was parsed by then. */
  datatype Course = Course(returned: bool, parsed: Parsed)

  function Onwards(offset: nat, keys: seq<Entry>, rest: Course): Course
  {
    Course(rest.returned, Behind(offset, keys, rest.parsed))
  }

  function After(data: seq<byte>, offset: nat, length: u16, json: JsonReader, turns: nat): (c: Outcome<Course>)
    requires offset < length
    ensures c.Ok? && !c.value.returned ==> offset <= c.value.parsed.offset < length
    decreases turns
  {
    if turns == 0 then Ok(Course(false, Parsed(offset, [], [])))
    else
      var turn :- Turn(data, offset, length, json);
      match turn
      case Stops(parsed) => Ok(Course(true, parsed))
      case Goes(next, keys) =>
        var rest :- After(data, next, length, json, turns - 1);
        Ok(Onwards(offset, keys, rest))
  }

  /** Parse, when no more than `turns` turns of its loop are taken. */
  function ReadTurns(data: seq<byte>, length: u16, json: JsonReader, turns: nat): Outcome<Course>
  {
    if data == [] || length == 0 then Ok(Course(true, Parsed(0, [], []))) else After(data, 0, length, json, turns)
  }

  /** As many turns as there are bytes are enough for the loop to return, if it does, or to leave the readable
      bytes, if it does. */
  lemma {:induction false} EnoughTurns(data: seq<byte>, offset: nat, length: u16, json: JsonReader, turns: nat)
    requires offset < length && length - offset <= turns
    ensures var b := Boxes(data, offset, length, json);
            && (b.Wild? ==> After(data, offset, length, json, turns) == Wild)
            && (b.Ok? ==> After(data, offset, length, json, turns) == Ok(Course(true, b.value)))
    decreases turns
  {
    hide Turn;
    var turn := Turn(data, offset, length, json);
    if turn.Ok? && turn.value.Goes? && turn.value.next != offset {
      EnoughTurns(data, turn.value.next, length, json, turns - 1);
    }
  }

  /** After a number of turns the loop has not returned: it goes on, or one of the turns does not end. */
  predicate NotReturned(c: Outcome<Course>) { c.Endless? || (c.Ok? && !c.value.returned) }

  lemma {:induction false} EndlessGoes(data: seq<byte>, offset: nat, length: u16, json: JsonReader, turns: nat)
    requires offset < length && Boxes(data, offset, length, json) == Endless
    ensures NotReturned(After(data, offset, length, json, turns))
    decreases turns
  {
    hide Turn;
    var turn := Turn(data, offset, length, json);
    if turns > 0 && turn.Ok? {
      EndlessGoes(data, turn.value.next, length, json, turns - 1);
    }
  }

  ghost predicate NeverReturns(data: seq<byte>, length: u16, json: JsonReader)
  {
    forall turns: nat :: NotReturned(ReadTurns(data, length, json, turns))
  }

  /** By following the sizes of the boxes from `offset`, a box of size 0 is reached, or one in which a search for
      a tag never ends; or the data is no box at all, and such a search is made in it. */
  predicate Stuck(data: seq<byte>, offset: nat, length: u16, json: JsonReader)
    requires offset < length
    decreases length - offset
  {
    && offset + 4 <= |data| && IsBox(data, offset, length).Ok?
    && if IsBox(data, offset, length).value then
         var next := offset + Read32BE(data, offset);
         var keys := BoxKeys(data, offset + 8, U16(Read32BE(data, offset) - 8));
         keys.Endless? || (keys.Ok? && (next == offset || (next < length && Stuck(data, next, length, json))))
       else offset == 0 && Bare(data, length, json).Endless?
  }

  lemma {:induction false} StuckIff(data: seq<byte>, offset: nat, length: u16, json: JsonReader)
    requires offset < length
    ensures Boxes(data, offset, length, json) == Endless <==> Stuck(data, offset, length, json)
    decreases length - offset
  {
    hide BoxKeys, Bare, Read32BE, U16;
    if offset + 4 <= |data| && IsBox(data, offset, length) == Ok(true) {
      var next := offset + Read32BE(data, offset);
      if offset < next < length {
        StuckIff(data, next, length, json);
      }
    }
  }

  /** A box with the size 0 is reached from `offset` by following the sizes of the boxes. */
  predicate ReachesEmptyBox(data: seq<byte>, offset: nat, length: u16)
    requires offset < length
    decreases length - offset
  {
    && offset + 4 <= |data| && IsBox(data, offset, length) == Ok(true)
    && var next := offset + Read32BE(data, offset);
    next == offset || (next < length && ReachesEmptyBox(data, next, length))
  }

  /** What is met from `offset` on is read inside the readable bytes, and its searches end. */
  predicate TurnsEnd(data: seq<byte>, offset: nat, length: u16, json: JsonReader)
    requires offset < length
    decreases length - offset
  {
    var turn := Turn(data, offset, length, json);
    && turn.Ok?
    && (turn.value.Goes? && turn.value.next != offset ==> TurnsEnd(data, turn.value.next, length, json))
  }

  lemma {:induction false} EmptyBoxStuck(data: seq<byte>, offset: nat, length: u16, json: JsonReader)
    requires offset < length && TurnsEnd(data, offset, length, json)
    ensures Stuck(data, offset, length, json) <==> ReachesEmptyBox(data, offset, length)
    decreases length - offset
  {
    hide BoxKeys, Bare, Read32BE, U16;
    if offset + 4 <= |data| && IsBox(data, offset, length) == Ok(true) {
      var next := offset + Read32BE(data, offset);
      if offset < next < length {
        EmptyBoxStuck(data, next, length, json);
      }
    }
  }

  /** Parse never returns exactly when it gets stuck; and where every turn that it takes ends, exactly when a
      box with the size 0 is reached by following the sizes of the boxes from the start. */
  lemma NeverReturnsIff(data: seq<byte>, length: u16, json: JsonReader)
    ensures NeverReturns(data, length, json) <==> Read(data, length, json) == Endless
    ensures NeverReturns(data, length, json) <==> data != [] && 0 < length && Stuck(data, 0, length, json)
    ensures data != [] && 0 < length && TurnsEnd(data, 0, length, json) ==>
              (NeverReturns(data, length, json) <==> ReachesEmptyBox(data, 0, length))
  {
    hide Boxes, After, Stuck, ReachesEmptyBox, TurnsEnd;
    if data != [] && 0 < length {
      StuckIff(data, 0, length, json);
      if Boxes(data, 0, length, json) == Endless {
        forall turns: nat ensures NotReturned(ReadTurns(data, length, json, turns)) {
          EndlessGoes(data, 0, length, json, turns);
        }
      } else {
        EnoughTurns(data, 0, length, json, length);
        assert !NotReturned(ReadTurns(data, length, json, length as nat));
      }
      if TurnsEnd(data, 0, length, json) {
        EmptyBoxStuck(data, 0, length, json);
      }
    } else {
      assert !NotReturned(ReadTurns(data, length, json, 0));
    }
  }

  /** A pssh box of size 0 and of the unknown version 2, with as many bytes behind as a head would take. */
  const EMPTY_BOX: seq<byte> :=
    seq(32, i requires 0 <= i < 32 => if 4 <= i < 8 then PSS_HEADER[i - 4] else if i == 8 then 2 else 0)

  /** On these 32 bytes Parse never returns, and never leaves them. */
  lemma EmptyBoxNeverReturns(json: JsonReader)
    ensures |EMPTY_BOX| == 32 && NeverReturns(EMPTY_BOX, 32, json)
  {
    hide NeverReturns, BoxKeys;
    assert EMPTY_BOX[4..8] == PSS_HEADER;
    assert Read32BE(EMPTY_BOX, 0) == 0;
    UnknownVersion(EMPTY_BOX, 8, 65528);
    NeverReturnsIff(EMPTY_BOX, 32, json);
  }

  lemma UnknownVersion(data: seq<byte>, at: nat, length: u16)
    requires at < |data| && 1 < data[at]
    ensures BoxKeys(data, at, length) == Ok([])
  {
  }

  /** The first nine of them are enough, for only the version is inspected. */
  lemma ShortBoxNeverReturns(json: JsonReader)
    ensures NeverReturns(EMPTY_BOX[..9], 9, json)
  {
    hide NeverReturns, BoxKeys;
    var data := EMPTY_BOX[..9];
    assert data[4..8] == PSS_HEADER;
    assert Read32BE(data, 0) == 0;
    UnknownVersion(data, 8, 65528);
    NeverReturnsIff(data, 9, json);
  }

  /** A pssh box of size 0 with a Widevine message of which 100 bytes are announced, and eight are there. */
  const CUT_BOX: seq<byte> :=
    seq(4, i => 0) + PSS_HEADER + seq(4, i => 0) + WIDEVINE_ID + [0, 0, 0, 100] + seq(8, i => 0xFF)

  /** Its first varint does not end within these eight bytes, so that no others are inspected. */
  lemma CutBoxNeverReturns(json: JsonReader)
    ensures |CUT_BOX| == 40 && NeverReturns(CUT_BOX, 40, json)
  {
    hide NeverReturns, BoxKeys;
    var data := CUT_BOX;
    assert data[4..8] == PSS_HEADER && data[12..28] == WIDEVINE_ID && data[8] == 0;
    assert Read32BE(data, 0) == 0 && Read32BE(data, 28) == 100;
    CutMessage(data, 32);
    assert BoxKeys(data, 8, 65528) == Ok([]) by {
      hide *;
      CutLayout(data, 8);
    }
    NeverReturnsIff(data, 40, json);
  }

  lemma CutMessage(data: seq<byte>, at: nat)
    requires at + 8 <= |data| && forall i :: at <= i < at + 8 ==> data[i] == 0xFF
    ensures WidevineKeys(data, at, 100) == Ok([])
  {
    hide WidevineEntries, KeyIds;
    var window := Window(data, at, 100);
    Protobuf.Varint.SizeIff(window, Protobuf.Varint.Size(window));
    Protobuf.ParseUnfold(WIDEVINE_FIELDS, window);
    Protobuf.ReachUnfold(WIDEVINE_FIELDS, window);
  }

  lemma CutLayout(data: seq<byte>, at: nat)
    requires at + 24 <= |data| && data[at] == 0 && data[at + 4..at + 20] == WIDEVINE_ID
    requires Read32BE(data, at + 20) == 100 && WidevineKeys(data, at + 24, 100) == Ok([])
    ensures BoxKeys(data, at, 65528) == Ok([])
  {
    hide Read32BE, WidevineKeys;
    assert WIDEVINE_ID[0] != COMMON_ENCRYPTION_ID[0] && WIDEVINE_ID[0] != PLAYREADY_ID[0];
    assert LayoutOf(data, at, 65528) == Ok(Layout(false, 0, true, HEADER_V0, 100));
    Seqs.Nil<Entry>([]);
  }
}
