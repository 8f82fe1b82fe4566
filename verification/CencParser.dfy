/** The session's list of key ids and the parser that fills it (plugin/CENCParser.h, CommonEncryptionData).

    Every method that parses is proved to add exactly the keys that InitData reads from the buffer, on runs that
    stay inside the readable bytes and end; ParseTurns follows the others as far as they go. */
module CencParser {
  import opened Bytes
  import opened Outcomes
  import opened KeyList
  import opened InitData
  import Seqs
  import Search = XmlSearch
  import B = Base64
  import Xml = PlayReadyXml
  import Object = PlayReadyObject
  import Protobuf
  import Pssh = PsshBoxes

  class CommonEncryptionData {
    var keyIds: seq<Entry>
    const same: Sameness
    const json: JsonReader

    constructor (data: seq<byte>, length: u16, same: Sameness, json: JsonReader)
      requires Read(data, length, json).Ok?
      ensures this.same == same && this.json == json
      ensures keyIds == AddAll([], Read(data, length, json).value.keys, same)
    {
      hide Boxes, AddAll;
      this.same, this.json := same, json;
      keyIds := [];
      new;
      var _, _ := Parse(data, length);
    }

    // ----- the list

    method Status() returns (status: KeyStatus)
      ensures status == if keyIds == [] then StatusPending else keyIds[0].status
    {
      status := if |keyIds| > 0 then keyIds[0].status else StatusPending;
    }

    /** Whether the key is valid is decided by Exchange::KeyId, which is not part of this model. */
    method KeyStatusOf(kid: Kid, isValid: bool) returns (result: KeyStatus)
      ensures !isValid || !Has(keyIds, kid, same) ==> result == StatusPending
      ensures isValid && Has(keyIds, kid, same) ==>
                exists i :: 0 <= i < |keyIds| && same(keyIds[i].kid, kid) && result == keyIds[i].status
                            && forall j :: 0 <= j < i ==> !same(keyIds[j].kid, kid)
    {
      result := StatusPending;
      if isValid {
        var index := Index(keyIds, kid, same);
        if index != |keyIds| {
          result := keyIds[index].status;
        }
      }
    }

    method HasKeyId(kid: Kid) returns (has: bool)
      ensures has <==> Has(keyIds, kid, same)
    {
      has := Index(keyIds, kid, same) != |keyIds|;
    }

    method AddKeyId(key: Entry)
      modifies this
      ensures keyIds == Add(old(keyIds), key, same)
    {
      var index := Index(keyIds, key.kid, same);
      if index == |keyIds| {
        keyIds := keyIds + [key];
      } else {
        keyIds := keyIds[index := keyIds[index].(systems := keyIds[index].systems + key.systems)];
      }
    }

    method UpdateKeyStatus(status: KeyStatus, key: Entry) returns (index: nat)
      modifies this
      ensures keyIds == Update(old(keyIds), status, key, same)
      ensures index == Index(old(keyIds), key.kid, same) < |keyIds|
    {
      index := Index(keyIds, key.kid, same);
      if index == |keyIds| {
        keyIds := keyIds + [key];
      }
      keyIds := keyIds[index := keyIds[index].(status := status)];
    }

    /** Every requested key is in the list. */
    method IsSupported(keys: CommonEncryptionData) returns (result: bool)
      ensures result <==> forall j :: 0 <= j < |keys.keyIds| ==> Has(keyIds, keys.keyIds[j].kid, same)
    {
      result := true;
      var requested := 0;
      while requested != |keys.keyIds| && result
        invariant 0 <= requested <= |keys.keyIds|
        invariant result <==> forall j :: 0 <= j < requested ==> Has(keyIds, keys.keyIds[j].kid, same)
        decreases |keys.keyIds| - requested, result
      {
        var index := 0;
        while index != |keyIds| && !same(keyIds[index].kid, keys.keyIds[requested].kid)
          invariant 0 <= index <= |keyIds|
          invariant forall i :: 0 <= i < index ==> !same(keyIds[i].kid, keys.keyIds[requested].kid)
        {
          index := index + 1;
        }
        result := index != |keyIds|;
        assert result == Has(keyIds, keys.keyIds[requested].kid, same);
        requested := requested + 1;
      }
    }

    /** A decoded key id is passed on "the Microsoft way". */
    method AddGuid(byteArray: array<byte>)
      requires KEY_LENGTH <= byteArray.Length
      modifies this
      ensures keyIds == Add(old(keyIds), Fresh(GuidOf(byteArray[..KEY_LENGTH]), PLAYREADY), same)
    {
      var a := byteArray[0] as int;
      a := a * 0x100 + byteArray[1];
      a := a * 0x100 + byteArray[2];
      a := a * 0x100 + byteArray[3];
      var b := byteArray[4] as int;
      b := b * 0x100 + byteArray[5];
      var c := byteArray[6] as int;
      c := c * 0x100 + byteArray[7];
      var d := byteArray[8..KEY_LENGTH];
      assert byteArray[..KEY_LENGTH][8..] == d;
      AddKeyId(Fresh(Guid(a, b, c, d), PLAYREADY));
    }

    /** The loop of ParseXMLBox over `<KID>` elements, which leaves off at `slot'` with `size'` bytes. */
    method ParseSimpleElements(data: seq<byte>, at: nat, length: u16) returns (slot: nat, size: u16)
      requires at <= |data| && Xml.SimplePass(data, at, length).Ok?
      modifies this
      ensures var p := Xml.SimplePass(data, at, length).value;
              slot == p.slot && size == p.size && keyIds == AddAll(old(keyIds), XmlKeys(p.found), same)
    {
      hide U8, U16, Xml.SimplePass, Xml.SimpleTurn, Search.Find, Search.Answers, B.Decode, AddAll, Add, XmlKeys, GuidOf;
      slot, size := at, length;
      ghost var all := Xml.SimplePass(data, at, length).value;
      while size > 0
        invariant slot <= |data| + 1 && Xml.SimplePass(data, slot, size).Ok?
        invariant var left := Xml.SimplePass(data, slot, size).value;
                  && left.slot == all.slot && left.size == all.size
                  && AddAll(keyIds, XmlKeys(left.found), same) == AddAll(old(keyIds), XmlKeys(all.found), same)
        decreases |data| + 1 - slot, size
      {
        Xml.SimpleUnfold(data, slot, size);
        var begin := Search.FindInXML(data, slot, size, Xml.KID_TAG);
        if begin >= size {
          break;
        }
        var end := Search.FindInXML(data, slot + begin + 10, U16(size - begin - 10), Xml.KID_CLOSE);
        if end < size - begin - 10 {
          var byteArray := new byte[32];
          var filled := B.Base64(data, slot + begin + 10, U8(end), byteArray);
          ghost var id := B.Decode(data, slot + begin + 10, U8(end), 32).value;
          ghost var rest := Xml.SimplePass(data, slot + (begin + 10 + end + 12), U16(size - (begin + 10 + end + 12)));
          AddsOne(keyIds, id, rest.value.found, same);
          if filled == KEY_LENGTH {
            AddGuid(byteArray);
          }
          size := U16(size - (begin + 10 + end + 12));
          slot := slot + (begin + 10 + end + 12);
        } else {
          NoSimple(data, slot);
          size := 0;
        }
      }
      if size == 0 {
        NoSimple(data, slot);
      }
      AddsNothing(keyIds, same);
    }

    /** The searches for the quoted key behind `<KID `; its length is narrowed where it is used. */
    method FindValue(data: seq<byte>, inner: nat, end: u16) returns (key: nat, keyLength: u16)
      requires Xml.ValueSpan(data, inner, end).Ok?
      ensures Xml.ValueSpan(data, inner, end) == Ok(Xml.Span(key, U8(keyLength)))
    {
      hide U8, Search.Find, Search.Answers;
      var keyValue := Search.FindInXML(data, inner, end, Xml.VALUE);
      var quote := Search.FindInXML(data, inner + keyValue + 10, U16(end - keyValue - 10), Xml.QUOTE);
      var keyStart := U16(quote as int + 2);
      key := inner + keyValue + 10 + keyStart;
      var unquote := Search.FindInXML(data, key, U16(end - keyValue - 10 - keyStart - 2), Xml.QUOTE);
      keyLength := U16(unquote as int - 2);
      LowByte(unquote as int - 2);
    }

    /** The loop of ParseXMLBox over `<KID ...>` elements with a VALUE attribute. */
    method ParseAttributedElements(data: seq<byte>, at: nat, length: u16)
      requires at <= |data| + 1 && Xml.AttributePass(data, at, length).Ok?
      modifies this
      ensures keyIds == AddAll(old(keyIds), XmlKeys(Xml.AttributePass(data, at, length).value.found), same)
    {
      hide U8, U16, Xml.AttributePass, Xml.AttributeTurn, Xml.ValueSpan, Search.Find, Search.Answers, B.Decode;
      hide AddAll, Add, XmlKeys, GuidOf;
      var slot: nat, size: u16 := at, length;
      ghost var all := Xml.AttributePass(data, at, length).value;
      while size > 0
        invariant slot <= |data| + 1 && Xml.AttributePass(data, slot, size).Ok?
        invariant var left := Xml.AttributePass(data, slot, size).value;
                  AddAll(keyIds, XmlKeys(left.found), same) == AddAll(old(keyIds), XmlKeys(all.found), same)
        decreases |data| + 1 - slot, size
      {
        Xml.AttributeUnfold(data, slot, size);
        var begin := Search.FindInXML(data, slot, size, Xml.KID_OPEN);
        if begin >= size {
          break;
        }
        var inner := slot + begin + 10;
        var end := Search.FindInXML(data, inner, U16(size - begin - 10), Xml.KID_CLOSE);
        var key, keyLength := FindValue(data, inner, end);
        if end < size - begin - 10 {
          var byteArray := new byte[32];
          var filled := B.Base64(data, key, U8(keyLength), byteArray);
          ghost var id := B.Decode(data, key, U8(keyLength), 32).value;
          ghost var step := begin + 10 + end + 12;
          ghost var rest := Xml.AttributePass(data, slot + step, U16(size - step));
          AddsOne(keyIds, id, rest.value.found, same);
          if filled == KEY_LENGTH {
            AddGuid(byteArray);
          }
          size := U16(size - (begin + 10 + end + 12));
          slot := slot + (begin + 10 + end + 12);
        } else {
          NoAttributed(data, slot);
          size := 0;
        }
      }
      if size == 0 {
        NoAttributed(data, slot);
      }
      AddsNothing(keyIds, same);
    }

    method ParseXMLBox(data: seq<byte>, at: nat, length: u16)
      requires at <= |data| && Xml.XmlIds(data, at, length).Ok?
      modifies this
      ensures keyIds == AddAll(old(keyIds), XmlKeys(Xml.XmlIds(data, at, length).value), same)
    {
      hide Xml.SimplePass, Xml.AttributePass, AddAll, XmlKeys;
      ghost var simple := Xml.SimplePass(data, at, length).value;
      var slot, size := ParseSimpleElements(data, at, length);
      ParseAttributedElements(data, slot, size);
      AddsBoth(old(keyIds), simple.found, Xml.AttributePass(data, slot, size).value.found, same);
    }

    // ----- payloads

    method ParsePlayReadyPSSHData(data: seq<byte>, at: nat, length: u16) returns (result: bool)
      requires PlayReadyKeys(data, at, length).Ok?
      modifies this
      ensures var r := PlayReadyKeys(data, at, length).value;
              result == r.0 && keyIds == AddAll(old(keyIds), r.1, same)
    {
      hide AddAll, XmlKeys, Read32LE, Read16LE, Object.Records, Object.RecordIds;
      result := false;
      AddsNothing(keyIds, same);
      var size := Read32LE(data, at);
      var pos := at + 4;
      if size == length {
        var count := Read16LE(data, pos);
        if count > 0 {
          var dataEnd := pos + length;
          pos := pos + 2;
          count := ParseRecords(data, pos, dataEnd, count);
        }
        result := count == 0;
      }
    }

    /** The loop over the records of a PlayReady object. */
    method ParseRecords(data: seq<byte>, at: nat, dataEnd: nat, records: u16) returns (count: u16)
      requires 0 < records && Object.Records(data, at, dataEnd, records).Ok?
      modifies this
      ensures var s := Object.Records(data, at, dataEnd, records).value;
              count == s.count && keyIds == AddAll(old(keyIds), XmlKeys(s.found), same)
    {
      hide AddAll, XmlKeys, Read16LE, Object.Records, Xml.XmlIds;
      var pos := at;
      count := records;
      ghost var all := Object.Records(data, at, dataEnd, records).value;
      while pos + 4 < dataEnd
        invariant 0 < count && Object.Records(data, pos, dataEnd, count).Ok?
        invariant var left := Object.Records(data, pos, dataEnd, count).value;
                  && left.count == all.count
                  && AddAll(keyIds, XmlKeys(left.found), same) == AddAll(old(keyIds), XmlKeys(all.found), same)
        decreases dataEnd - pos
      {
        Object.RecordsUnfold(data, pos, dataEnd, count);
        var recordType, recordLength := Read16LE(data, pos), Read16LE(data, pos + 2);
        pos := pos + 4;
        if pos + recordLength >= dataEnd {
          AddsNothing(keyIds, same);
          return;
        }
        ghost var ids := Object.RecordIds(data, pos, recordType, recordLength).value;
        if count > 1 {
          AddsBoth(keyIds, ids, Object.Records(data, pos + recordLength, dataEnd, count - 1).value.found, same);
        }
        if recordType == Object.RIGHTS_MANAGEMENT {
          ParseXMLBox(data, pos, recordLength);
        } else {
          AddsNothing(keyIds, same);
        }
        pos := pos + recordLength;
        count := count - 1;
        if count == 0 {
          return;
        }
      }
      Object.RecordsDone(data, pos, dataEnd, count);
      AddsNothing(keyIds, same);
    }

    method ParseWidevinePSSHData(data: seq<byte>, at: nat, length: u16) returns (result: bool)
      requires WidevineKeys(data, at, length).Ok?
      modifies this
      ensures result == Protobuf.ParseFields(WIDEVINE_FIELDS, Window(data, at, length)).complete
      ensures keyIds == AddAll(old(keyIds), WidevineKeys(data, at, length).value, same)
    {
      hide AddAll, Protobuf.ParseFields, Protobuf.ParseReach, Window, WidevineKey;
      result := false;
      AddsNone(keyIds, same);
      var wvpb2 := new Protobuf.Message(WIDEVINE_FIELDS);
      var parsed := wvpb2.FromBuffer(data, at, length);
      if parsed {
        AddKeyIds(WidevineEntries(KeyIds(wvpb2.elements)));
        result := true;
      }
    }

    /** A loop that adds one key after the other. */
    method AddKeyIds(keys: seq<Entry>)
      modifies this
      ensures keyIds == AddAll(old(keyIds), keys, same)
    {
      hide Add;
      var i := 0;
      AddsNone(keyIds, same);
      while i < |keys|
        invariant 0 <= i <= |keys| && keyIds == AddAll(old(keyIds), keys[..i], same)
      {
        AddKeyId(keys[i]);
        assert keys[..i + 1][..i] == keys[..i];
        i := i + 1;
      }
      assert keys[..|keys|] == keys;
    }

    /** The key ids in a JSON text, which a library decodes. */
    method ParseJSONInitData(text: seq<byte>)
      modifies this
      ensures keyIds == AddAll(old(keyIds), JsonKeys(json(text)), same)
    {
      AddKeyIds(JsonKeys(json(text)));
    }

    // ----- boxes

    method ParsePSSHBox(data: seq<byte>, at: nat, length: u16)
      requires BoxKeys(data, at, length).Ok?
      modifies this
      ensures keyIds == AddAll(old(keyIds), BoxKeys(data, at, length).value, same)
    {
      hide AddAll, PayloadKeys, HeaderKeys, SystemOf, Read32BE;
      AddsNone(keyIds, same);
      if length >= HEADER_V0 {
        ghost var l := LayoutOf(data, at, length).value;
        var version := data[at];
        var hasKeyIds, keyIdCount: u32 := false, 0;
        var hasPssh, psshData: nat, psshDataSize: u32 := false, 0, 0;
        if version == 0 {
          psshData := HEADER_V0;
          psshDataSize := Read32BE(data, at + psshData - 4);
          hasPssh := U32(psshDataSize + HEADER_V0) <= length;
        } else if version == 1 {
          keyIdCount := Read32BE(data, at + HEADER_V0 - 4);
          hasKeyIds := U32(keyIdCount * KEY_LENGTH + HEADER_V1) <= length;
          if hasKeyIds {
            psshData := U32(keyIdCount * KEY_LENGTH + HEADER_V1);
            psshDataSize := Read32BE(data, at + psshData - 4);
            hasPssh := U32(psshDataSize + psshData) <= length;
          }
        }
        assert hasKeyIds == l.hasKeys && hasPssh == l.hasPayload;
        assert hasKeyIds ==> keyIdCount == l.keyCount;
        assert hasPssh ==> psshData == l.payload && psshDataSize == l.size;
        if hasKeyIds || hasPssh {
          var system := SystemOf(data[at + 4..at + 20]);
          if hasPssh {
            ParsePayload(data, at + psshData, psshDataSize, system);
          }
          if hasKeyIds {
            AddHeaderKeys(data, at + HEADER_V0, keyIdCount, system);
          }
          ghost var inPayload := if hasPssh then PayloadKeys(data, at + psshData, psshDataSize, system).value else [];
          ghost var inHeader := if hasKeyIds then HeaderKeys(data, at + HEADER_V0, keyIdCount, system).value else [];
          AddAllJoin(old(keyIds), inPayload, inHeader, same);
          AddsNone(AddAll(old(keyIds), inPayload, same), same);
        }
      }
    }

    /** The branches of ParsePSSHBox on the system. */
    method ParsePayload(data: seq<byte>, at: nat, size: u32, system: System)
      requires PayloadKeys(data, at, size, system).Ok?
      modifies this
      ensures keyIds == AddAll(old(keyIds), PayloadKeys(data, at, size, system).value, same)
    {
      hide AddAll, PlayReadyKeys, WidevineKeys;
      AddsNone(keyIds, same);
      if system == PLAYREADY {
        var _ := ParsePlayReadyPSSHData(data, at, U16(size));
      } else if system == WIDEVINE {
        var _ := ParseWidevinePSSHData(data, at, U16(size));
      }
    }

    /** The loop of ParsePSSHBox over the key ids of a version 1 box. */
    method AddHeaderKeys(data: seq<byte>, at: nat, count: u32, system: System)
      requires HeaderKeys(data, at, count, system).Ok?
      modifies this
      ensures keyIds == AddAll(old(keyIds), HeaderKeys(data, at, count, system).value, same)
    {
      hide AddAll, Add;
      var keyIdCount: nat, keyIdData: nat := count, at;
      ghost var all := HeaderKeys(data, at, count, system).value;
      while keyIdCount != 0
        invariant HeaderKeys(data, keyIdData, keyIdCount, system).Ok?
        invariant AddAll(keyIds, HeaderKeys(data, keyIdData, keyIdCount, system).value, same)
               == AddAll(old(keyIds), all, same)
        decreases keyIdCount
      {
        var key := Fresh(Raw(data[keyIdData..keyIdData + KEY_LENGTH]), system);
        ghost var rest := HeaderKeys(data, keyIdData + KEY_LENGTH, keyIdCount - 1, system).value;
        AddAllJoin(keyIds, [key], rest, same);
        AddsEntry(keyIds, key, same);
        keyIdCount := keyIdCount - 1;
        AddKeyId(key);
        keyIdData := keyIdData + KEY_LENGTH;
      }
      AddsNone(keyIds, same);
    }

    // ----- the whole buffer

    /** Parse, on data on which it returns: the offset at which it stops, and the offsets of the boxes. */
    method Parse(data: seq<byte>, length: u16) returns (offset: nat, ghost boxes: seq<nat>)
      requires Read(data, length, json).Ok?
      modifies this
      ensures Parsed(offset, boxes, Read(data, length, json).value.keys) == Read(data, length, json).value
      ensures keyIds == AddAll(old(keyIds), Read(data, length, json).value.keys, same)
    {
      hide Boxes, After, AddAll;
      if data != [] && 0 < length {
        EnoughTurns(data, 0, length, json, length);
      }
      var returned;
      returned, offset, boxes := ParseTurns(data, length, length);
    }

    /** The loop of Parse, cut off after a number of turns: whether it has returned by then. It may go on
        forever. */
    method ParseTurns(data: seq<byte>, length: u16, turns: nat)
      returns (returned: bool, offset: nat, ghost boxes: seq<nat>)
      requires ReadTurns(data, length, json, turns).Ok?
      modifies this
      ensures var c := ReadTurns(data, length, json, turns).value;
              && c == Course(returned, Parsed(offset, boxes, c.parsed.keys))
              && keyIds == AddAll(old(keyIds), c.parsed.keys, same)
    {
      hide AddAll, After, Bare, BoxKeys, Read32BE, U16;
      returned, offset, boxes := false, 0, [];
      AddsNone(keyIds, same);
      if data == [] || length == 0 {
        returned := true;
        return;
      }
      ghost var all := After(data, 0, length, json, turns).value;
      var left := turns;
      while left > 0
        invariant 0 <= left && offset < length && After(data, offset, length, json, left).Ok?
        invariant var rest := After(data, offset, length, json, left).value;
                  Leads(rest, boxes, keyIds, old(keyIds), same, all)
        decreases left
      {
        AfterUnfold(data, offset, length, json, left);
        var sizeBE := Read32BE(data, offset);
        if sizeBE <= length - offset && 4 <= length - offset && data[offset + 4..offset + 8] == PSS_HEADER {
          ghost var keys := BoxKeys(data, offset + 8, U16(sizeBE - 8)).value;
          ghost var at, before, next := offset, boxes, offset + sizeBE;
          ghost var rest := if next < length then After(data, next, length, json, left - 1).value
                            else Course(true, Parsed(next, [], []));
          LeadsOn(offset, keys, rest, boxes, keyIds, old(keyIds), same, all);
          boxes := boxes + [offset];
          ParsePSSHBox(data, offset + 8, U16(sizeBE - 8));
          offset := offset + sizeBE;
          left := left - 1;
          if offset >= length {
            LeadsEnd(rest, boxes, keyIds, old(keyIds), same, all);
            returned := true;
            return;
          }
        } else {
          ghost var rest := After(data, offset, length, json, left).value;
          ghost var now := keyIds;
          if offset == 0 {
            offset := ParseBare(data, length);
          } else {
            AddsNone(keyIds, same);
          }
          Seqs.Nil(boxes);
          returned := true;
          return;
        }
      }
      AfterNone(data, offset, length, json);
      LeadsEnd(Course(false, Parsed(offset, [], [])), boxes, keyIds, old(keyIds), same, all);
    }

    /** The branch of Parse for init data that does not start with a box. */
    method ParseBare(data: seq<byte>, length: u16) returns (offset: nat)
      requires 4 <= |data| && Bare(data, length, json).Ok?
      modifies this
      ensures var p := Bare(data, length, json).value;
              offset == p.offset && p.boxes == [] && keyIds == AddAll(old(keyIds), p.keys, same)
    {
      hide AddAll, PlayReadyKeys, Read32LE, XmlKeys, JsonKeys, Contains, Xml.XmlIds;
      offset := 0;
      AddsNone(keyIds, same);
      if data[0] == 60 && data[2] == 87 && data[4] == 82 && data[6] == 77 {
        ParseXMLBox(data, 0, length);
        offset := length;
      } else if Contains(data[..length], JSON_KEY_IDS) {
        ParseJSONInitData(data[..length]);
        offset := length;
      } else if Read32LE(data, 0) == length {
        var accepted := ParsePlayReadyPSSHData(data, 0, length);
        if accepted {
          offset := length;
        }
      }
    }
  }

  lemma LowByte(n: int)
    ensures U8(U16(n)) == U8(n)
  {
  }

  lemma NoSimple(data: seq<byte>, slot: nat)
    requires slot <= |data| + 1
    ensures Xml.SimplePass(data, slot, 0) == Ok(Xml.Pass(slot, 0, []))
  {
  }

  lemma NoAttributed(data: seq<byte>, slot: nat)
    requires slot <= |data| + 1
    ensures Xml.AttributePass(data, slot, 0) == Ok(Xml.Pass(slot, 0, []))
  {
  }

  lemma AddsNothing(list: seq<Entry>, same: Sameness)
    ensures AddAll(list, XmlKeys([]), same) == list
  {
  }

  lemma AddsBoth(list: seq<Entry>, ids: seq<seq<byte>>, more: seq<seq<byte>>, same: Sameness)
    requires Xml.AllKeys(ids) && Xml.AllKeys(more)
    ensures AddAll(list, XmlKeys(ids + more), same) == AddAll(AddAll(list, XmlKeys(ids), same), XmlKeys(more), same)
  {
    hide GuidOf, AddAll;
    AddAllJoin(list, XmlKeys(ids), XmlKeys(more), same);
    assert XmlKeys(ids + more) == XmlKeys(ids) + XmlKeys(more);
  }

  /** A decoded string is added if it has the length of a key id. */
  lemma AddsOne(list: seq<Entry>, id: seq<byte>, rest: seq<seq<byte>>, same: Sameness)
    requires Xml.AllKeys(rest)
    ensures var after := if |id| == KEY_LENGTH then Add(list, Fresh(GuidOf(id), PLAYREADY), same) else list;
            AddAll(list, XmlKeys(Xml.Accepted(id) + rest), same) == AddAll(after, XmlKeys(rest), same)
  {
    hide GuidOf, AddAll, Add;
    AddsBoth(list, Xml.Accepted(id), rest, same);
    if |id| == KEY_LENGTH {
      assert XmlKeys([id]) == [Fresh(GuidOf(id), PLAYREADY)];
      AddsEntry(list, Fresh(GuidOf(id), PLAYREADY), same);
    } else {
      AddsNothing(list, same);
    }
  }

  lemma AddsEntry(list: seq<Entry>, e: Entry, same: Sameness)
    ensures AddAll(list, [e], same) == Add(list, e, same)
  {
    assert AddAll(list, [], same) == list && [e][..0] == [];
  }

  lemma AddsNone(list: seq<Entry>, same: Sameness)
    ensures AddAll(list, [], same) == list
  {
  }

  /** What is left to do leads from the present boxes and keys to the whole course. */
  predicate Leads(rest: Course, boxes: seq<nat>, now: seq<Entry>, before: seq<Entry>, same: Sameness, all: Course)
  {
    && rest.returned == all.returned && rest.parsed.offset == all.parsed.offset
    && boxes + rest.parsed.boxes == all.parsed.boxes
    && AddAll(now, rest.parsed.keys, same) == AddAll(before, all.parsed.keys, same)
  }

  lemma LeadsOn(offset: nat, keys: seq<Entry>, rest: Course, boxes: seq<nat>, now: seq<Entry>, before: seq<Entry>,
                same: Sameness, all: Course)
    requires Leads(Onwards(offset, keys, rest), boxes, now, before, same, all)
    ensures Leads(rest, boxes + [offset], AddAll(now, keys, same), before, same, all)
  {
    hide AddAll;
    AddAllJoin(now, keys, rest.parsed.keys, same);
    Seqs.Assoc(boxes, [offset], rest.parsed.boxes);
  }

  lemma LeadsEnd(rest: Course, boxes: seq<nat>, now: seq<Entry>, before: seq<Entry>, same: Sameness, all: Course)
    requires Leads(rest, boxes, now, before, same, all) && rest.parsed.boxes == [] && rest.parsed.keys == []
    ensures all == Course(rest.returned, Parsed(rest.parsed.offset, boxes, all.parsed.keys))
    ensures now == AddAll(before, all.parsed.keys, same)
  {
    hide AddAll;
    AddsNone(now, same);
    Seqs.Nil(boxes);
  }

  lemma AfterNone(data: seq<byte>, offset: nat, length: u16, json: JsonReader)
    requires offset < length
    ensures After(data, offset, length, json, 0) == Ok(Course(false, Parsed(offset, [], [])))
  {
  }

  /** One turn of the loop of Parse. */
  lemma AfterUnfold(data: seq<byte>, offset: nat, length: u16, json: JsonReader, turns: nat)
    requires offset < length && 0 < turns && After(data, offset, length, json, turns).Ok?
    ensures offset + 4 <= |data| && IsBox(data, offset, length).Ok?
    ensures var c := After(data, offset, length, json, turns);
            if IsBox(data, offset, length).value then
              var next := offset + Read32BE(data, offset);
              var keys := BoxKeys(data, offset + 8, U16(Read32BE(data, offset) - 8));
              && keys.Ok?
              && if next < length then
                   var rest := After(data, next, length, json, turns - 1);
                   rest.Ok? && c == Ok(Onwards(offset, keys.value, rest.value))
                 else c == Ok(Onwards(offset, keys.value, Course(true, Parsed(next, [], []))))
            else if offset == 0 then
              Bare(data, length, json).Ok? && c == Ok(Course(true, Bare(data, length, json).value))
            else c == Ok(Course(true, Parsed(offset, [], [])))
  {
    hide BoxKeys, Read32BE, Bare, U16;
    if IsBox(data, offset, length) == Ok(true) {
      Seqs.Nil([offset]);
      Seqs.Nil(BoxKeys(data, offset + 8, U16(Read32BE(data, offset) - 8)).value);
    }
  }

  // ----- what the constructor leaves in the list

  /** For every list of well-formed pssh boxes of at most 65535 bytes in all, the constructor sees each box
      once, in order, stops at the end of the data, and leaves the order-preserving, duplicate-free fold of
      each box's payload keys and header keys, with the systems of equal keys joined. */
  lemma InitDataRoundTrip(data: seq<byte>, bs: seq<Pssh.Box>, json: JsonReader, same: Sameness)
    requires Equivalence(same)
    requires Pssh.GoodBoxes(bs) && |Pssh.EncodeBoxes(bs)| < 0x1_0000
    requires Holds(data, 0, Pssh.EncodeBoxes(bs))
    requires Pssh.EndsWithPlayReady(bs) ==> |Pssh.EncodeBoxes(bs)| < |data|
    ensures var length := |Pssh.EncodeBoxes(bs)|;
            Read(data, length, json) == Ok(Parsed(length, Pssh.Starts(bs, 0), Pssh.AllKeysOf(bs)))
    ensures AddAll([], Pssh.AllKeysOf(bs), same) == Merged(Pssh.AllKeysOf(bs), same)
    ensures Distinct(Merged(Pssh.AllKeysOf(bs), same), same)
  {
    hide Read, Merged, AddAll, Pssh.EncodeBox, Pssh.KeysOf, Pssh.GoodBox;
    Pssh.BoxesRoundTrip(data, bs, json);
    AddAllMerges(Pssh.AllKeysOf(bs), same);
  }

  /** A PlayReady object without a pssh box around it is found by its size, unless the text `{"kids":`
      stands anywhere in it: then it is taken for key ids in JSON. */
  lemma BareObject(data: seq<byte>, rs: seq<Object.Record>, json: JsonReader)
    requires Object.GoodRecords(rs) && |Object.EncodeObject(rs)| < 0x1_0000
    requires Holds(data, 0, Object.EncodeObject(rs)) && |Object.EncodeObject(rs)| < |data|
    ensures Xml.AllKeys(Object.RecordsIds(rs))
    ensures var text := Object.EncodeObject(rs);
            Read(data, |text|, json)
            == Ok(Parsed(|text|, [], if Contains(text, JSON_KEY_IDS) then JsonKeys(json(text))
                                     else XmlKeys(Object.RecordsIds(rs))))
  {
    hide Contains, XmlKeys, JsonKeys, Object.RecordsIds, Object.EncodeRecords, Object.GoodRecords, Object.Read, BoxKeys;
    var text := Object.EncodeObject(rs);
    Pssh.RecordsIdsKeys(rs);
    Object.ObjectLength(rs);
    Object.ObjectRoundTrip(data, 0, rs);
    HoldsSplit(data, 0, Write32LE(|text|) + Write16LE(U16(|rs|)), Object.EncodeRecords(rs));
    HoldsSplit(data, 0, Write32LE(|text|), Write16LE(U16(|rs|)));
    Reads32LE(data, 0, |text|);
    SmallSize(data, |text|);
    assert data[..|text|] == text;
  }

  lemma ContainsWithin(a: seq<byte>, b: seq<byte>, c: seq<byte>, key: seq<byte>)
    requires Contains(b, key)
    ensures Contains((a + b) + c, key)
  {
    var k :| 0 <= k <= |b| && Search.At(b, key, k);
    assert ((a + b) + c)[|a| + k..|a| + k + |key|] == b[k..k + |key|];
    assert Search.At((a + b) + c, key, |a| + k);
  }

  /** The text that marks JSON stands in an object if it stands in one of its records. */
  lemma {:induction false} MarkedRecord(rs: seq<Object.Record>, k: nat)
    requires Object.GoodRecords(rs) && k < |rs| && rs[k].Other? && Contains(rs[k].bytes, JSON_KEY_IDS)
    ensures Contains(Object.EncodeRecords(rs), JSON_KEY_IDS) && Contains(Object.EncodeObject(rs), JSON_KEY_IDS)
    decreases |rs|
  {
    hide Contains, Object.RecordKind, Write16LE, Write32LE, Object.GoodRecord;
    var first, rest := Object.EncodeRecord(rs[0]), Object.EncodeRecords(rs[1..]);
    if k == 0 {
      var head := Write16LE(Object.RecordKind(rs[0])) + Write16LE(U16(|Object.RecordValue(rs[0])|));
      ContainsWithin(head, rs[0].bytes, rest, JSON_KEY_IDS);
      assert first == head + rs[0].bytes;
    } else {
      MarkedRecord(rs[1..], k - 1);
      ContainsWithin(first, rest, [], JSON_KEY_IDS);
      Seqs.Nil(first + rest);
    }
    var records := Object.EncodeRecords(rs);
    var start := Write32LE(U32(6 + |records|)) + Write16LE(U16(|rs|));
    ContainsWithin(start, records, [], JSON_KEY_IDS);
    Seqs.Nil(start + records);
  }

  /** A well-formed object with a key whose key is not found, for a record of another kind marks it as JSON. */
  lemma MarkedObject(id: seq<byte>) returns (rs: seq<Object.Record>)
    requires |id| == KEY_LENGTH
    ensures Object.GoodRecords(rs) && Object.RecordsIds(rs) == [id]
    ensures Contains(Object.EncodeObject(rs), JSON_KEY_IDS)
  {
    hide Contains, Object.EncodeRecord;
    var parts := [Xml.Part([], Xml.Simple(id))];
    OneElement(id, parts);
    var high := seq(|Xml.PartsText(parts) + []|, i => 0);
    var header, marked := Object.Header(parts, [], high), Object.Other(2, JSON_KEY_IDS);
    assert Object.GoodRecord(header) && Object.GoodRecord(marked);
    rs := [header, marked];
    MarkIsMarked();
    MarkedRecord(rs, 1);
    assert rs[1..] == [marked] && rs[1..][1..] == [];
    assert Object.RecordsIds(rs[1..]) == [];
  }

  lemma MarkIsMarked()
    ensures Contains(JSON_KEY_IDS, JSON_KEY_IDS)
  {
    assert Search.At(JSON_KEY_IDS, JSON_KEY_IDS, 0);
  }

  lemma OneElement(id: seq<byte>, parts: seq<Xml.Part>)
    requires |id| == KEY_LENGTH && parts == [Xml.Part([], Xml.Simple(id))]
    ensures Xml.GoodParts(parts) && Xml.GoodTail([]) && Xml.DocumentIds(parts) == [id]
  {
    Search.FreeWithout([], Xml.KID_TAG);
    Search.FreeWithout([], Xml.KID_OPEN);
    forall b: byte ensures Search.Free([] + [b], Xml.KID_TAG) && Search.Free([] + [b], Xml.KID_OPEN) {
    }
    assert parts[1..] == [];
    assert parts[0].element.Simple? && Xml.AfterSimple([]) == [];
    assert Xml.SimpleIds([]) == [] && Xml.Ids([]) == [];
  }

  /** A small little-endian size is a huge big-endian one. */
  lemma SmallSize(data: seq<byte>, n: u16)
    requires Holds(data, 0, Write32LE(n)) && 0 < n
    ensures |data| >= 4 && n < Read32BE(data, 0) && data[2] == 0
  {
    HoldsAt(data, 0, Write32LE(n), 0);
    HoldsAt(data, 0, Write32LE(n), 1);
    HoldsAt(data, 0, Write32LE(n), 2);
  }

  /** A header in XML without anything around it is found by its first characters. */
  lemma BareHeader(data: seq<byte>, parts: seq<Xml.Part>, tail: seq<byte>, high: seq<byte>, json: JsonReader)
    requires Xml.GoodParts(parts) && Xml.GoodTail(tail) && |high| == |Xml.PartsText(parts) + tail|
    requires Holds(data, 0, Xml.Utf16(Xml.PartsText(parts) + tail, high))
    requires 2 * |high| <= Search.LAST_OFFSET && 2 * |high| < |data|
    requires 4 <= |high| && (Xml.PartsText(parts) + tail)[..4] == [60, 87, 82, 77]
    ensures Xml.AllKeys(Xml.DocumentIds(parts))
    ensures Read(data, 2 * |high|, json) == Ok(Parsed(2 * |high|, [], XmlKeys(Xml.DocumentIds(parts))))
  {
    hide Xml.XmlIds, Xml.DocumentIds, Xml.PartsText, Xml.GoodParts, Xml.GoodTail, XmlKeys, BoxKeys, Contains;
    var low := Xml.PartsText(parts) + tail;
    Xml.XmlRoundTrip(data, 0, parts, tail, high);
    Xml.DocumentKeys(parts);
    forall i | 0 <= i < 4 ensures data[2 * i] == low[i] {
      HoldsAt(data, 0, Xml.Utf16(low, high), 2 * i);
    }
    var start := low[..4];
    assert data[0] == start[0] && data[2] == start[1] && data[4] == start[2] && data[6] == start[3];
  }
}
