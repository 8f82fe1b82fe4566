/** The PlayReady object of a pssh box (plugin/CENCParser.h, ParsePlayReadyPSSHData): a size, a count, and as
    many records, of which those of type 1 hold a header in XML. */
module PlayReadyObject {
  import opened Bytes
  import opened Outcomes
  import Seqs
  import Xml = PlayReadyXml

  const RIGHTS_MANAGEMENT := 1

  /** The records that are left when the loop ends, and the ids that were found. */
  datatype Scan = Scan(count: u16, found: seq<seq<byte>>)

  function RecordIds(data: seq<byte>, at: nat, kind: u16, length: u16): (ids: Outcome<seq<seq<byte>>>)
    requires at <= |data|
    ensures ids.Ok? ==> Xml.AllKeys(ids.value)
  {
    if kind == RIGHTS_MANAGEMENT then Xml.XmlIds(data, at, length) else Ok([])
  }

  /** The loop over the records, at `pos`, with `count` records to come. */
  function Records(data: seq<byte>, pos: nat, end: nat, count: u16): (s: Outcome<Scan>)
    requires 0 < count
    ensures s.Ok? ==> Xml.AllKeys(s.value.found)
    decreases end - pos
  {
    if pos + 4 < end then
      if pos + 4 > |data| then Wild
      else
        var length := Read16LE(data, pos + 2);
        if pos + 4 + length >= end then Ok(Scan(count, []))
        else
          var ids :- RecordIds(data, pos + 4, Read16LE(data, pos), length);
          if count == 1 then Ok(Scan(0, ids))
          else
            var rest :- Records(data, pos + 4 + length, end, count - 1);
            Xml.AllKeysJoin(ids, rest.found);
            Ok(Scan(rest.count, ids + rest.found))
    else Ok(Scan(count, []))
  }

  /** Whether the object is accepted, and the ids that are added in either case. */
  datatype Reading = Reading(accepted: bool, found: seq<seq<byte>>)

  function Read(data: seq<byte>, at: nat, length: u16): (r: Outcome<Reading>)
    ensures r.Ok? ==> Xml.AllKeys(r.value.found)
  {
    if at + 4 > |data| then Wild
    else if Read32LE(data, at) != length then Ok(Reading(false, []))
    else if at + 6 > |data| then Wild
    else
      var count := Read16LE(data, at + 4);
      if count == 0 then Ok(Reading(true, []))
      else
        // The end is taken from behind the size, so that it lies four bytes behind the object.
        var s :- Records(data, at + 6, at + 4 + length, count);
        Ok(Reading(s.count == 0, s.found))
  }

  /** One turn of the loop, for the method that runs it. */
  lemma RecordsUnfold(data: seq<byte>, pos: nat, end: nat, count: u16)
    requires 0 < count && pos + 4 < end && Records(data, pos, end, count).Ok?
    ensures pos + 4 <= |data|
    ensures var kind, length := Read16LE(data, pos), Read16LE(data, pos + 2);
            if pos + 4 + length >= end then Records(data, pos, end, count) == Ok(Scan(count, []))
            else
              var ids := RecordIds(data, pos + 4, kind, length);
              && ids.Ok?
              && if count == 1 then Records(data, pos, end, count) == Ok(Scan(0, ids.value))
                 else
                   var rest := Records(data, pos + 4 + length, end, count - 1);
                   && rest.Ok?
                   && Records(data, pos, end, count) == Ok(Scan(rest.value.count, ids.value + rest.value.found))
  {
    hide RecordIds, Read16LE;
  }

  lemma RecordsDone(data: seq<byte>, pos: nat, end: nat, count: u16)
    requires 0 < count && end <= pos + 4
    ensures Records(data, pos, end, count) == Ok(Scan(count, []))
  {
  }

  // ----- well-formed objects

  /** A header in XML, as the low bytes of its elements and of what follows them, and its high bytes. */
  datatype Record =
    | Header(parts: seq<Xml.Part>, tail: seq<byte>, high: seq<byte>)
    | Other(kind: u16, bytes: seq<byte>)

  ghost predicate GoodRecord(r: Record)
  {
    match r
    case Header(parts, tail, high) =>
      Xml.GoodParts(parts) && Xml.GoodTail(tail) && |high| == |Xml.PartsText(parts) + tail|
    case Other(kind, _) => kind != RIGHTS_MANAGEMENT
  }

  ghost predicate GoodRecords(rs: seq<Record>)
  {
    forall i :: 0 <= i < |rs| ==> GoodRecord(rs[i])
  }

  ghost function RecordKind(r: Record): u16 { if r.Header? then RIGHTS_MANAGEMENT else r.kind }

  ghost function RecordValue(r: Record): seq<byte>
    requires GoodRecord(r)
  {
    if r.Header? then Xml.Utf16(Xml.PartsText(r.parts) + r.tail, r.high) else r.bytes
  }

  ghost function EncodeRecord(r: Record): seq<byte>
    requires GoodRecord(r)
  {
    (Write16LE(RecordKind(r)) + Write16LE(U16(|RecordValue(r)|))) + RecordValue(r)
  }

  ghost function EncodeRecords(rs: seq<Record>): seq<byte>
    requires GoodRecords(rs)
  {
    if rs == [] then [] else EncodeRecord(rs[0]) + EncodeRecords(rs[1..])
  }

  /** The object: its size, which includes the size and the count, its count, and its records. */
  ghost function EncodeObject(rs: seq<Record>): seq<byte>
    requires GoodRecords(rs)
  {
    var records := EncodeRecords(rs);
    (Write32LE(U32(6 + |records|)) + Write16LE(U16(|rs|))) + records
  }

  /** The ids of the headers, in order. */
  function RecordsIds(rs: seq<Record>): seq<seq<byte>>
  {
    if rs == [] then []
    else (if rs[0].Header? then Xml.DocumentIds(rs[0].parts) else []) + RecordsIds(rs[1..])
  }

  lemma {:induction false} RecordsTakeRoom(rs: seq<Record>)
    requires GoodRecords(rs)
    ensures 4 * |rs| <= |EncodeRecords(rs)|
  {
    hide GoodRecord, RecordValue;
    if rs != [] {
      RecordsTakeRoom(rs[1..]);
    }
  }

  /** The three pieces of a record. */
  lemma HoldsRecord(data: seq<byte>, pos: nat, r: Record)
    requires GoodRecord(r) && Holds(data, pos, EncodeRecord(r)) && |RecordValue(r)| < 0x1_0000
    ensures |EncodeRecord(r)| == 4 + |RecordValue(r)| && pos + 4 <= |data|
    ensures Read16LE(data, pos) == RecordKind(r) && Read16LE(data, pos + 2) == |RecordValue(r)|
    ensures Holds(data, pos + 4, RecordValue(r))
  {
    hide GoodRecord, RecordValue, RecordKind, Holds, Read16LE;
    var kind, size := Write16LE(RecordKind(r)), Write16LE(|RecordValue(r)|);
    HoldsSplit(data, pos, kind + size, RecordValue(r));
    HoldsSplit(data, pos, kind, size);
    Reads16LE(data, pos, RecordKind(r));
    Reads16LE(data, pos + 2, |RecordValue(r)|);
    HoldsBound(data, pos, EncodeRecord(r));
  }

  lemma HoldsBound(data: seq<byte>, pos: nat, part: seq<byte>)
    requires Holds(data, pos, part)
    ensures pos + |part| <= |data|
  {
  }

  /** What a well-formed record adds. */
  lemma RecordAdds(data: seq<byte>, pos: nat, r: Record)
    requires GoodRecord(r) && Holds(data, pos, RecordValue(r)) && pos + |RecordValue(r)| < |data|
    requires |RecordValue(r)| <= 0xFFFD
    ensures RecordIds(data, pos, RecordKind(r), |RecordValue(r)|)
         == Ok(if r.Header? then Xml.DocumentIds(r.parts) else [])
  {
    hide Xml.XmlIds, Xml.DocumentIds, Xml.PartsText, Xml.GoodParts, Xml.GoodTail;
    if r.Header? {
      Xml.XmlRoundTrip(data, pos, r.parts, r.tail, r.high);
    }
  }

  /** One turn of the loop. */
  lemma RecordsStep(data: seq<byte>, pos: nat, end: nat, count: u16, kind: u16, length: u16, ids: seq<seq<byte>>)
    requires 0 < count && pos + 4 + length < end && pos + 4 <= |data|
    requires Read16LE(data, pos) == kind && Read16LE(data, pos + 2) == length
    requires RecordIds(data, pos + 4, kind, length) == Ok(ids)
    ensures count == 1 ==> Records(data, pos, end, count) == Ok(Scan(0, ids))
    ensures 1 < count && Records(data, pos + 4 + length, end, count - 1).Ok? ==>
              var rest := Records(data, pos + 4 + length, end, count - 1).value;
              Records(data, pos, end, count) == Ok(Scan(rest.count, ids + rest.found))
  {
    hide RecordIds, Read16LE;
  }

  lemma {:induction false} RecordsRound(data: seq<byte>, pos: nat, end: nat, rs: seq<Record>)
    requires GoodRecords(rs) && 0 < |rs| < 0x1_0000 && Holds(data, pos, EncodeRecords(rs))
    requires pos + |EncodeRecords(rs)| < end && pos + |EncodeRecords(rs)| < |data|
    requires |EncodeRecords(rs)| <= 0xFFFD
    ensures Records(data, pos, end, |rs|) == Ok(Scan(0, RecordsIds(rs)))
    decreases |rs|
  {
    hide GoodRecord, EncodeRecord, RecordValue, RecordKind, Holds, Records, RecordIds, Xml.DocumentIds, Read16LE;
    var r := rs[0];
    var ids := if r.Header? then Xml.DocumentIds(r.parts) else [];
    HoldsSplit(data, pos, EncodeRecord(r), EncodeRecords(rs[1..]));
    RecordLength(r);
    HoldsRecord(data, pos, r);
    var length := |RecordValue(r)|;
    RecordAdds(data, pos + 4, r);
    RecordsStep(data, pos, end, |rs|, RecordKind(r), length, ids);
    if |rs| == 1 {
      assert rs[1..] == [];
      Seqs.Nil(ids);
    } else {
      RecordsRound(data, pos + 4 + length, end, rs[1..]);
    }
  }

  lemma RecordLength(r: Record)
    requires GoodRecord(r)
    ensures |EncodeRecord(r)| == 4 + |RecordValue(r)|
  {
    hide RecordValue;
  }

  /** Every well-formed object of at most 65535 bytes is accepted, and adds the ids of its headers in order.
      The search for a tag inspects the byte behind the object. */
  lemma ObjectRoundTrip(data: seq<byte>, at: nat, rs: seq<Record>)
    requires GoodRecords(rs) && |EncodeObject(rs)| < 0x1_0000
    requires Holds(data, at, EncodeObject(rs)) && at + |EncodeObject(rs)| < |data|
    ensures Read(data, at, |EncodeObject(rs)|) == Ok(Reading(true, RecordsIds(rs)))
  {
    hide GoodRecords, EncodeRecords, Holds, Records, Read32LE, Read16LE, Write32LE, Write16LE, RecordsIds;
    var records := EncodeRecords(rs);
    RecordsTakeRoom(rs);
    ObjectLength(rs);
    var size, count := Write32LE(6 + |records|), Write16LE(|rs|);
    HoldsSplit(data, at, size + count, records);
    HoldsSplit(data, at, size, count);
    Reads32LE(data, at, 6 + |records|);
    Reads16LE(data, at + 4, |rs|);
    if |rs| == 0 {
      NoRecords();
    } else {
      RecordsRound(data, at + 6, at + 10 + |records|, rs);
    }
  }

  lemma NoRecords()
    ensures RecordsIds([]) == []
  {
  }

  lemma ObjectLength(rs: seq<Record>)
    requires GoodRecords(rs)
    ensures |EncodeObject(rs)| == 6 + |EncodeRecords(rs)|
  {
  }

  // ----- objects whose count or size is another

  /** The first records, as far as there are any. */
  function Counted(rs: seq<Record>, count: nat): seq<Record> { if count <= |rs| then rs[..count] else rs }

  lemma {:induction false} RecordsCounted(data: seq<byte>, pos: nat, end: nat, rs: seq<Record>, count: u16)
    requires GoodRecords(rs) && 0 < count && Holds(data, pos, EncodeRecords(rs))
    requires pos + |EncodeRecords(rs)| + 4 == end && pos + |EncodeRecords(rs)| < |data|
    requires |EncodeRecords(rs)| <= 0xFFFD
    ensures Records(data, pos, end, count)
         == Ok(Scan(if count <= |rs| then 0 else count - |rs|, RecordsIds(Counted(rs, count))))
    decreases |rs|
  {
    hide GoodRecord, EncodeRecord, RecordValue, RecordKind, Holds, Records, RecordIds, Xml.DocumentIds, Read16LE;
    if rs == [] {
      RecordsDone(data, pos, end, count);
    } else {
      var r := rs[0];
      var ids := if r.Header? then Xml.DocumentIds(r.parts) else [];
      HoldsSplit(data, pos, EncodeRecord(r), EncodeRecords(rs[1..]));
      RecordLength(r);
      HoldsRecord(data, pos, r);
      var length := |RecordValue(r)|;
      RecordAdds(data, pos + 4, r);
      RecordsStep(data, pos, end, count, RecordKind(r), length, ids);
      CountedStep(rs, count);
      if count == 1 {
        Seqs.Nil(ids);
      } else {
        RecordsCounted(data, pos + 4 + length, end, rs[1..], count - 1);
      }
    }
  }

  lemma CountedStep(rs: seq<Record>, count: nat)
    requires rs != [] && 0 < count
    ensures var counted, ids := Counted(rs, count), if rs[0].Header? then Xml.DocumentIds(rs[0].parts) else [];
            && counted != [] && counted[0] == rs[0] && counted[1..] == Counted(rs[1..], count - 1)
            && RecordsIds(counted) == ids + RecordsIds(Counted(rs[1..], count - 1))
            && (count == 1 ==> RecordsIds(Counted(rs[1..], 0)) == [])
  {
    hide Xml.DocumentIds;
    assert Counted(rs, count)[1..] == Counted(rs[1..], count - 1);
  }

  /** An object that counts less records than it holds is accepted with the first ones, and one that counts more is
      not accepted, but the ids of all its records are added. */
  lemma ObjectCounted(data: seq<byte>, at: nat, rs: seq<Record>, count: u16)
    requires GoodRecords(rs) && 6 + |EncodeRecords(rs)| < 0x1_0000
    requires Holds(data, at, (Write32LE(6 + |EncodeRecords(rs)|) + Write16LE(count)) + EncodeRecords(rs))
    requires at + 6 + |EncodeRecords(rs)| < |data|
    ensures Read(data, at, 6 + |EncodeRecords(rs)|) == Ok(Reading(count <= |rs|, RecordsIds(Counted(rs, count))))
  {
    hide GoodRecords, EncodeRecords, Holds, Records, Read32LE, Read16LE, Write32LE, Write16LE, RecordsIds;
    var records := EncodeRecords(rs);
    var size := Write32LE(6 + |records|);
    HoldsSplit(data, at, size + Write16LE(count), records);
    HoldsSplit(data, at, size, Write16LE(count));
    HoldsBound(data, at, (size + Write16LE(count)) + records);
    Reads32LE(data, at, 6 + |records|);
    Reads16LE(data, at + 4, count);
    if count == 0 {
      NoRecords();
      assert Counted(rs, 0) == [];
    } else {
      RecordsCounted(data, at + 6, at + 10 + |records|, rs, count);
    }
  }

  /** An object without records is accepted, and nothing behind its count is inspected. */
  lemma EmptyObject(data: seq<byte>, at: nat)
    requires Holds(data, at, [6, 0, 0, 0, 0, 0])
    ensures Read(data, at, 6) == Ok(Reading(true, []))
  {
    HoldsAt(data, at, [6, 0, 0, 0, 0, 0], 0);
    HoldsAt(data, at, [6, 0, 0, 0, 0, 0], 1);
    HoldsAt(data, at, [6, 0, 0, 0, 0, 0], 2);
    HoldsAt(data, at, [6, 0, 0, 0, 0, 0], 3);
    HoldsAt(data, at, [6, 0, 0, 0, 0, 0], 4);
    HoldsAt(data, at, [6, 0, 0, 0, 0, 0], 5);
  }

  /** Data that announces another size than its own is not accepted and adds nothing. */
  lemma OtherSize(data: seq<byte>, at: nat, length: u16, size: u32)
    requires Holds(data, at, Write32LE(size)) && size != length
    ensures Read(data, at, length) == Ok(Reading(false, []))
  {
    hide Read32LE, Write32LE, Records;
    HoldsBound(data, at, Write32LE(size));
    Reads32LE(data, at, size);
  }

  lemma LittleEndian(n: u16)
    ensures U16(n) == U32(n) == n
    ensures Write16LE(n) == [n % 0x100, n / 0x100] && Write32LE(n) == [n % 0x100, n / 0x100, 0, 0]
  {
  }

  /** The first bytes of a record: its kind and its length, with the lowest byte first. */
  lemma RecordBytes(r: Record)
    requires GoodRecord(r) && |RecordValue(r)| < 0x1_0000
    ensures var kind, n := if r.Header? then 1 else r.kind, |RecordValue(r)|;
            |EncodeRecord(r)| == 4 + n && EncodeRecord(r)[..4] == [kind % 0x100, kind / 0x100, n % 0x100, n / 0x100]
  {
    hide RecordValue, GoodRecord, Write16LE, Write32LE;
    LittleEndian(RecordKind(r));
    LittleEndian(|RecordValue(r)|);
  }

  /** The first bytes of an object: its size and its count, with the lowest byte first; behind them its records. */
  lemma ObjectBytes(rs: seq<Record>)
    requires GoodRecords(rs) && |EncodeObject(rs)| < 0x1_0000
    ensures var n, c, o := |EncodeObject(rs)|, |rs|, EncodeObject(rs);
            && c < 0x1_0000 && n == 6 + |EncodeRecords(rs)|
            && o[..6] == [n % 0x100, n / 0x100, 0, 0, c % 0x100, c / 0x100] && o[6..] == EncodeRecords(rs)
  {
    hide EncodeRecords, GoodRecords, Write16LE, Write32LE;
    RecordsTakeRoom(rs);
    LittleEndian(6 + |EncodeRecords(rs)|);
    LittleEndian(|rs|);
  }
}
