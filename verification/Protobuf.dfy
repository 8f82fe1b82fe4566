/** The Protocol Buffers reader (plugin/Protobuf.h): elements, messages, and the fields they are read from.

    The elements that a message points to are values of its map; a nested message is a value too. */
module Protobuf {
  import opened Bytes
  import Seqs
  import Varint

  /** VarintType (64 bits wide, or truncated to 32), Fixed32Type, Fixed64Type and BytesType. */
  datatype Scalar =
    | Number(wide: bool, value: nat, isSet: bool)
    | Fixed32(bytes: seq<byte>, isSet: bool)
    | Fixed64(bytes: seq<byte>, isSet: bool)
    | Text(text: seq<byte>)

  /** A scalar, a RepeatedType of scalars, or a Message. */
  datatype Element =
    | One(scalar: Scalar)
    | Many(blank: Scalar, items: seq<Scalar>)
    | Nested(fields: Fields)

  type Fields = map<nat, Element>

  const VARINT := 0
  const FIXED64 := 1
  const LENGTH_DELIMITED := 2
  const FIXED32 := 5

  function ScalarType(s: Scalar): nat
  {
    match s
    case Number(_, _, _) => VARINT
    case Fixed32(_, _) => FIXED32
    case Fixed64(_, _) => FIXED64
    case Text(_) => LENGTH_DELIMITED
  }

  function WireType(e: Element): nat
  {
    match e
    case One(s) => ScalarType(s)
    case Many(blank, _) => ScalarType(blank)
    case Nested(_) => LENGTH_DELIMITED
  }

  /** The bytes consumed, and the element afterwards. */
  datatype Taken<T> = Taken(consumed: nat, after: T)

  function DeserializeScalar(s: Scalar, data: seq<byte>): (t: Taken<Scalar>)
    ensures t.consumed <= |data|
  {
    match s
    case Number(wide, value, _) =>
      var r := Varint.VarintOf(data);
      if r.size == 0 then Taken(0, Number(wide, value, false))
      else Taken(r.size, Number(wide, if wide then r.value else U32(r.value), true))
    case Fixed32(bytes, _) =>
      if |data| >= 4 then Taken(4, Fixed32(data[..4], true)) else Taken(0, Fixed32(bytes, false))
    case Fixed64(bytes, _) =>
      if |data| >= 8 then Taken(8, Fixed64(data[..8], true)) else Taken(0, Fixed64(bytes, false))
    case Text(text) =>
      // A payload that does not fit leaves only the length prefix consumed.
      var r := Varint.VarintOf(data);
      var size := U32(r.value);
      if r.size != 0 && size != 0 && size <= |data| && r.size + size <= |data|
      then Taken(r.size + size, Text(text + data[r.size..r.size + size]))
      else Taken(r.size, s)
  }

  function Deserialize(e: Element, data: seq<byte>): (t: Taken<Element>)
    ensures t.consumed <= |data|
    decreases |data|, 0
  {
    match e
    case One(s) =>
      var t := DeserializeScalar(s, data);
      Taken(t.consumed, One(t.after))
    case Many(blank, items) =>
      var t := DeserializeScalar(blank, data);
      Taken(t.consumed, if t.consumed != 0 then Many(blank, items + [t.after]) else e)
    case Nested(fields) =>
      var r := Varint.VarintOf(data);
      var size := U32(r.value);
      if r.size != 0 && size > 0 && size <= |data| - r.size then
        var p := ParseFields(fields, data[r.size..r.size + size]);
        Taken(if p.complete then r.size + size else r.size, Nested(p.fields))
      else Taken(r.size, e)
  }

  function Skip(data: seq<byte>, wireType: nat): (consumed: nat)
    ensures consumed <= |data|
  {
    if wireType == VARINT then Varint.VarintOf(data).size
    else if wireType == FIXED64 then if |data| >= 8 then 8 else 0
    else if wireType == LENGTH_DELIMITED then DeserializeScalar(Text([]), data).consumed
    else if wireType == FIXED32 then if |data| >= 4 then 4 else 0
    else 0
  }

  /** Whether the buffer was read to its end, and the elements afterwards. */
  datatype Parsed = Parsed(complete: bool, fields: Fields)

  /** One turn of FromBuffer behind a tag: the bytes consumed (0 is an error) and the elements. The map is
      keyed by a byte, so that a field number counts modulo 256. */
  function Turn(fields: Fields, tag: nat, data: seq<byte>): (t: Taken<Fields>)
    ensures t.consumed <= |data|
    decreases |data|, 1
  {
    var key := U32(tag / 8);
    var slot := key % 0x100;
    if key == 0 then Taken(0, fields)
    else if slot in fields then
      if tag % 8 == WireType(fields[slot]) then
        var t := Deserialize(fields[slot], data);
        Taken(t.consumed, fields[slot := t.after])
      else Taken(0, fields)
    else Taken(Skip(data, tag % 8), fields)
  }

  function ParseFields(fields: Fields, data: seq<byte>): (p: Parsed)
    decreases |data|, 2
  {
    if data == [] then Parsed(true, fields)
    else
      var tag := Varint.VarintOf(data);
      if tag.size == 0 then Parsed(false, fields)
      else
        var t := Turn(fields, tag.value, data[tag.size..]);
        if t.consumed == 0 then Parsed(false, t.after)
        else ParseFields(t.after, data[tag.size + t.consumed..])
  }

  // ----- how many bytes are inspected

  function Max(m: nat, n: nat): nat { if m < n then n else m }

  /** The varint, if there is one, and what is consumed. */
  function ScalarReach(s: Scalar, data: seq<byte>): (n: nat)
    ensures n <= |data|
  {
    Max(if s.Number? || s.Text? then Varint.Reach(data) else 0, DeserializeScalar(s, data).consumed)
  }

  function ElementReach(e: Element, data: seq<byte>): (n: nat)
    ensures n <= |data|
    decreases |data|, 0
  {
    match e
    case One(s) => ScalarReach(s, data)
    case Many(blank, _) => ScalarReach(blank, data)
    case Nested(fields) =>
      var r := Varint.VarintOf(data);
      var size := U32(r.value);
      if r.size != 0 && size > 0 && size <= |data| - r.size
      then r.size + ParseReach(fields, data[r.size..r.size + size])
      else Varint.Reach(data)
  }

  function SkipReach(data: seq<byte>, wireType: nat): (n: nat)
    ensures n <= |data|
  {
    Max(if wireType == VARINT || wireType == LENGTH_DELIMITED then Varint.Reach(data) else 0, Skip(data, wireType))
  }

  function TurnReach(fields: Fields, tag: nat, data: seq<byte>): (n: nat)
    ensures n <= |data|
    decreases |data|, 1
  {
    var key := U32(tag / 8);
    var slot := key % 0x100;
    if key == 0 then 0
    else if slot in fields then
      if tag % 8 == WireType(fields[slot]) then ElementReach(fields[slot], data) else 0
    else SkipReach(data, tag % 8)
  }

  function ParseReach(fields: Fields, data: seq<byte>): (n: nat)
    ensures n <= |data|
    decreases |data|, 3
  {
    if data == [] then 0
    else
      var tag := Varint.VarintOf(data);
      if tag.size == 0 then Varint.Reach(data) else tag.size + TurnsReach(fields, tag.value, data[tag.size..])
  }

  /** Behind a tag. After a nested message that fails, the loop goes back to its first byte. */
  function TurnsReach(fields: Fields, tag: nat, data: seq<byte>): (n: nat)
    ensures n <= |data|
    decreases |data|, 2
  {
    var t := Turn(fields, tag, data);
    var reach := TurnReach(fields, tag, data);
    if t.consumed == 0 then reach else Max(reach, t.consumed + ParseReach(t.after, data[t.consumed..]))
  }

  /** The two agree on the first `n` bytes. */
  predicate Agree(data: seq<byte>, other: seq<byte>, n: nat)
  {
    |data| == |other| && n <= |data| && data[..n] == other[..n]
  }

  lemma AgreeDrop(data: seq<byte>, other: seq<byte>, n: nat, i: nat)
    requires Agree(data, other, n) && i <= n
    ensures Agree(data[i..], other[i..], n - i)
  {
    assert data[i..][..n - i] == data[..n][i..] && other[i..][..n - i] == other[..n][i..];
  }

  lemma AgreeSlice(data: seq<byte>, other: seq<byte>, n: nat, i: nat, j: nat, m: nat)
    requires Agree(data, other, n) && i + m <= n && i + m <= j <= |data|
    ensures Agree(data[i..j], other[i..j], m)
  {
    assert data[i..j][..m] == data[..n][i..i + m] && other[i..j][..m] == other[..n][i..i + m];
  }

  lemma AgreeLess(data: seq<byte>, other: seq<byte>, n: nat, m: nat)
    requires Agree(data, other, n) && m <= n
    ensures Agree(data, other, m)
  {
    assert data[..m] == data[..n][..m] && other[..m] == other[..n][..m];
  }

  lemma VarintLocal(data: seq<byte>, other: seq<byte>, n: nat)
    requires Agree(data, other, n) && Varint.Reach(data) <= n
    ensures Varint.VarintOf(other) == Varint.VarintOf(data) && Varint.Reach(other) == Varint.Reach(data)
  {
    Varint.Local(data, other, n);
  }

  lemma ScalarLocal(s: Scalar, data: seq<byte>, other: seq<byte>, n: nat)
    requires Agree(data, other, n) && ScalarReach(s, data) <= n
    ensures DeserializeScalar(s, other) == DeserializeScalar(s, data) && ScalarReach(s, other) == ScalarReach(s, data)
  {
    hide Varint.VarintOf, Varint.Reach;
    var consumed := DeserializeScalar(s, data).consumed;
    AgreeLess(data, other, n, consumed);
    if s.Number? || s.Text? {
      VarintLocal(data, other, n);
      var size := Varint.VarintOf(data).size;
      if size <= consumed {
        assert data[size..consumed] == data[..consumed][size..] && other[size..consumed] == other[..consumed][size..];
      }
    }
  }

  lemma SkipLocal(data: seq<byte>, other: seq<byte>, n: nat, wireType: nat)
    requires Agree(data, other, n) && SkipReach(data, wireType) <= n
    ensures Skip(other, wireType) == Skip(data, wireType) && SkipReach(other, wireType) == SkipReach(data, wireType)
  {
    hide Varint.VarintOf, Varint.Reach, DeserializeScalar;
    if wireType == VARINT {
      VarintLocal(data, other, n);
    } else if wireType == LENGTH_DELIMITED {
      VarintLocal(data, other, n);
      ScalarLocal(Text([]), data, other, n);
    }
  }

  lemma {:induction false} ElementLocal(e: Element, data: seq<byte>, other: seq<byte>, n: nat)
    requires Agree(data, other, n) && ElementReach(e, data) <= n
    ensures Deserialize(e, other) == Deserialize(e, data) && ElementReach(e, other) == ElementReach(e, data)
    decreases |data|, 0
  {
    hide Varint.VarintOf, Varint.Reach, DeserializeScalar, ScalarReach, ParseReach, ParseFields;
    match e
    case One(s) => ScalarLocal(s, data, other, n);
    case Many(blank, _) => ScalarLocal(blank, data, other, n);
    case Nested(fields) =>
      var r := Varint.VarintOf(data);
      var size := U32(r.value);
      ElementVarint(e, data);
      VarintLocal(data, other, n);
      if r.size != 0 && size > 0 && size <= |data| - r.size {
        var inner, outer := data[r.size..r.size + size], other[r.size..r.size + size];
        var m := ParseReach(fields, inner);
        AgreeSlice(data, other, n, r.size, r.size + size, m);
        ParseLocal(fields, inner, outer, m);
      }
  }

  lemma ElementVarint(e: Element, data: seq<byte>)
    requires e.Nested?
    ensures Varint.Reach(data) <= ElementReach(e, data)
  {
    hide ParseReach;
  }

  lemma {:induction false} TurnLocal(fields: Fields, tag: nat, data: seq<byte>, other: seq<byte>, n: nat)
    requires Agree(data, other, n) && TurnReach(fields, tag, data) <= n
    ensures Turn(fields, tag, other) == Turn(fields, tag, data)
    ensures TurnReach(fields, tag, other) == TurnReach(fields, tag, data)
    decreases |data|, 1
  {
    hide Deserialize, ElementReach, Skip, SkipReach, WireType, Agree;
    var slot := U32(tag / 8) % 0x100;
    if slot in fields {
      if tag % 8 == WireType(fields[slot]) && U32(tag / 8) != 0 {
        ElementLocal(fields[slot], data, other, n);
      }
    } else if U32(tag / 8) != 0 {
      SkipLocal(data, other, n, tag % 8);
    }
  }

  /** Behind a tag, the turn and those that follow. */
  lemma {:induction false} TurnsLocal(fields: Fields, tag: nat, data: seq<byte>, other: seq<byte>, n: nat)
    requires Agree(data, other, n) && TurnsReach(fields, tag, data) <= n
    ensures Turn(fields, tag, other) == Turn(fields, tag, data)
    ensures TurnsReach(fields, tag, other) == TurnsReach(fields, tag, data)
    ensures var t := Turn(fields, tag, data);
            0 < t.consumed ==> ParseFields(t.after, other[t.consumed..]) == ParseFields(t.after, data[t.consumed..])
    decreases |data|, 2
  {
    hide Turn, TurnReach, ParseReach, ParseFields, Agree;
    var t := Turn(fields, tag, data);
    TurnLocal(fields, tag, data, other, n);
    if 0 < t.consumed {
      AgreeDrop(data, other, n, t.consumed);
      ParseLocal(t.after, data[t.consumed..], other[t.consumed..], n - t.consumed);
    }
  }

  /** Bytes that are not inspected make no difference: not to the result, and not to what is inspected. */
  lemma {:induction false} ParseLocal(fields: Fields, data: seq<byte>, other: seq<byte>, n: nat)
    requires Agree(data, other, n) && ParseReach(fields, data) <= n
    ensures ParseFields(fields, other) == ParseFields(fields, data)
    ensures ParseReach(fields, other) == ParseReach(fields, data)
    decreases |data|, 3
  {
    hide Turn, TurnsReach, ParseFields, ParseReach, Varint.VarintOf, Varint.Reach, Agree;
    AgreeLength(data, other, n);
    if data == [] {
      assert other == data;
    } else {
      var tag := Varint.VarintOf(data);
      ParseUnfold(fields, data);
      ParseUnfold(fields, other);
      ReachUnfold(fields, data);
      ReachUnfold(fields, other);
      VarintLocal(data, other, n);
      if tag.size != 0 {
        AgreeDrop(data, other, n, tag.size);
        TurnsLocal(fields, tag.value, data[tag.size..], other[tag.size..], n - tag.size);
        TurnDrop(fields, tag, data);
        TurnDrop(fields, tag, other);
      }
    }
  }

  lemma AgreeLength(data: seq<byte>, other: seq<byte>, n: nat)
    requires Agree(data, other, n)
    ensures |data| == |other|
  {
  }

  lemma TurnDrop(fields: Fields, tag: Varint.Read, data: seq<byte>)
    requires tag.size <= |data|
    ensures var t := Turn(fields, tag.value, data[tag.size..]);
            data[tag.size..][t.consumed..] == data[tag.size + t.consumed..]
  {
    hide Turn;
  }

  lemma TagReach(data: seq<byte>)
    ensures var tag := Varint.VarintOf(data); 0 < tag.size ==> Varint.Reach(data) == tag.size
  {
  }

  /** Message, with the elements that are registered in it. */
  class Message {
    var elements: Fields

    constructor (fields: Fields)
      ensures elements == fields
    {
      elements := fields;
    }

    /** FromBuffer, on `length` bytes from `at` on, of which those that are inspected are readable. `ptr` stays
        inside the buffer, and the result is true only when it ends at its end. */
    method FromBuffer(data: seq<byte>, at: nat, length: nat) returns (result: bool)
      requires InReach(data, at, ParseReach(elements, Window(data, at, length)))
      modifies this
      ensures Parsed(result, elements) == ParseFields(old(elements), Window(data, at, length))
    {
      hide Window, Going, ParseFields, Deserialize, Skip, Varint.VarintOf, WireType, Varint.Reach;
      result := true;
      var ptr, end := 0, length;
      ghost var all := ParseFields(elements, Window(data, at, length));
      GoingStarts(elements, data, at, length);
      while ptr < end
        invariant 0 <= ptr <= end && Going(elements, data, at + ptr, end - ptr, all)
        decreases end - ptr
      {
        GoesOn(elements, data, at + ptr, end - ptr, all);
        var tagSize, tag := Varint.ReadVarint(data, at + ptr, end - ptr);
        if tagSize > 0 {
          ptr := ptr + tagSize;
          var wireType, key, consumed := tag % 8, U32(tag / 8), 0;
          if key != 0 {
            var slot := key % 0x100;
            if slot in elements {
              if wireType == WireType(elements[slot]) {
                var taken := Deserialize(elements[slot], Window(data, at + ptr, end - ptr));
                consumed := taken.consumed;
                elements := elements[slot := taken.after];
              }
            } else {
              consumed := Skip(Window(data, at + ptr, end - ptr), wireType);
            }
          }
          if consumed == 0 {
            result := false;
            return;
          }
          ptr := ptr + consumed;
        } else {
          result := false;
          return;
        }
      }
      GoingEnds(elements, data, at + ptr, all);
    }
  }

  /** What is left of the buffer leads to `all`, and what is inspected of it is readable. */
  predicate Going(elements: Fields, data: seq<byte>, at: nat, length: nat, all: Parsed)
  {
    && ParseFields(elements, Window(data, at, length)) == all
    && InReach(data, at, ParseReach(elements, Window(data, at, length)))
  }

  lemma GoingStarts(elements: Fields, data: seq<byte>, at: nat, length: nat)
    requires InReach(data, at, ParseReach(elements, Window(data, at, length)))
    ensures Going(elements, data, at, length, ParseFields(elements, Window(data, at, length)))
  {
    hide ParseFields, ParseReach, Window;
  }

  lemma GoingEnds(elements: Fields, data: seq<byte>, at: nat, all: Parsed)
    requires Going(elements, data, at, 0, all)
    ensures all == Parsed(true, elements)
  {
    hide ParseReach;
    assert Window(data, at, 0) == [];
  }

  lemma GoesOn(elements: Fields, data: seq<byte>, at: nat, length: nat, all: Parsed)
    requires 0 < length && Going(elements, data, at, length, all)
    ensures InReach(data, at, Varint.Reach(Window(data, at, length)))
    ensures var tag := Varint.VarintOf(Window(data, at, length));
            if tag.size == 0 then all == Parsed(false, elements)
            else
              var t := Turn(elements, tag.value, Window(data, at + tag.size, length - tag.size));
              if t.consumed == 0 then all == Parsed(false, t.after)
              else Going(t.after, data, at + tag.size + t.consumed, length - tag.size - t.consumed, all)
  {
    hide Window, ParseFields, ParseReach, Turn, TurnReach, Varint.VarintOf, Varint.Reach;
    var window := Window(data, at, length);
    ParseUnfold(elements, window);
    ReachUnfold(elements, window);
    var tag := Varint.VarintOf(window);
    if 0 < tag.size {
      WindowDrop(data, at, length, tag.size);
      var t := Turn(elements, tag.value, window[tag.size..]);
      WindowDrop(data, at + tag.size, length - tag.size, t.consumed);
      WindowDrop(data, at, length, tag.size + t.consumed);
    }
  }

  /** One turn of the loop, for the method that runs it. */
  lemma ParseUnfold(fields: Fields, data: seq<byte>)
    requires data != []
    ensures var tag := Varint.VarintOf(data);
            if tag.size == 0 then ParseFields(fields, data) == Parsed(false, fields)
            else
              var t := Turn(fields, tag.value, data[tag.size..]);
              ParseFields(fields, data)
              == if t.consumed == 0 then Parsed(false, t.after) else ParseFields(t.after, data[tag.size + t.consumed..])
  {
    hide Turn, Varint.VarintOf;
  }

  lemma ReachUnfold(fields: Fields, data: seq<byte>)
    requires data != []
    ensures var tag := Varint.VarintOf(data);
            ParseReach(fields, data)
            == if tag.size == 0 then Varint.Reach(data)
               else tag.size + TurnsReach(fields, tag.value, data[tag.size..])
    ensures Varint.Reach(data) <= ParseReach(fields, data)
  {
    hide TurnsReach, Varint.VarintOf, Varint.Reach;
    TagReach(data);
  }

  // ----- what an accepted buffer looks like

  /** `data` starts with a tag of a nonzero field number, and with more bytes up to `n`. */
  predicate FieldAt(data: seq<byte>, n: nat)
  {
    var tag := Varint.VarintOf(data);
    0 < tag.size < n <= |data| && U32(tag.value / 8) != 0
  }

  /** `sizes` divides all of `data` into fields. */
  predicate Division(data: seq<byte>, sizes: seq<nat>)
  {
    if sizes == [] then data == []
    else FieldAt(data, sizes[0]) && Division(data[sizes[0]..], sizes[1..])
  }

  lemma TurnKey(fields: Fields, tag: nat, data: seq<byte>)
    ensures 0 < Turn(fields, tag, data).consumed ==> U32(tag / 8) != 0
  {
  }

  /** FromBuffer returns true only for a buffer that is a sequence of fields to its very end. */
  lemma {:induction false} Accepted(fields: Fields, data: seq<byte>) returns (sizes: seq<nat>)
    requires ParseFields(fields, data).complete
    ensures Division(data, sizes)
    decreases |data|
  {
    hide Turn;
    if data == [] {
      sizes := [];
    } else {
      var tag := Varint.VarintOf(data);
      var t := Turn(fields, tag.value, data[tag.size..]);
      var n := tag.size + t.consumed;
      TurnKey(fields, tag.value, data[tag.size..]);
      var rest := Accepted(t.after, data[n..]);
      sizes := [n] + rest;
      assert sizes[1..] == rest;
    }
  }

  // ----- the encoder of Protocol Buffers Encoding, section "Message Structure"

  /** What stands behind a tag. `Embedded` is the length-delimited encoding of a message. */
  datatype Body =
    | Var(value: nat)
    | Word(bytes: seq<byte>)
    | Long(bytes: seq<byte>)
    | Delimited(payload: seq<byte>)
    | Embedded(sub: seq<Field>)

  datatype Field = Field(number: nat, body: Body)

  function BodyType(b: Body): nat
  {
    match b
    case Var(_) => VARINT
    case Word(_) => FIXED32
    case Long(_) => FIXED64
    case Delimited(_) => LENGTH_DELIMITED
    case Embedded(_) => LENGTH_DELIMITED
  }

  function Tag(f: Field): nat { 8 * f.number + BodyType(f.body) }

  function Payload(b: Body): seq<byte>
    requires b.Delimited? || b.Embedded?
    decreases b, 0
  {
    if b.Delimited? then b.payload else EncodeAll(b.sub)
  }

  function Contents(b: Body): seq<byte>
    decreases b, 1
  {
    match b
    case Var(value) => Varint.Encode(value)
    case Word(bytes) => bytes
    case Long(bytes) => bytes
    case Delimited(_) => Varint.Encode(|Payload(b)|) + Payload(b)
    case Embedded(_) => Varint.Encode(|Payload(b)|) + Payload(b)
  }

  function EncodeField(f: Field): seq<byte>
    decreases f
  {
    Varint.Encode(Tag(f)) + Contents(f.body)
  }

  function EncodeAll(fs: seq<Field>): seq<byte>
    decreases fs
  {
    if fs == [] then [] else EncodeField(fs[0]) + EncodeAll(fs[1..])
  }

  /** What the reader can represent: field numbers of a byte, varints below 2^56, lengths of 32 bits. */
  predicate GoodBody(b: Body)
    decreases b
  {
    match b
    case Var(value) => value < Varint.Pow128(Varint.MAX_BYTES)
    case Word(bytes) => |bytes| == 4
    case Long(bytes) => |bytes| == 8
    case Delimited(payload) => |payload| < 0x1_0000_0000
    case Embedded(sub) => |Payload(b)| < 0x1_0000_0000 && Good(sub)
  }

  predicate GoodField(f: Field)
    decreases f
  {
    1 <= f.number <= 255 && GoodBody(f.body)
  }

  predicate Good(fs: seq<Field>)
    decreases fs
  {
    forall i :: 0 <= i < |fs| ==> GoodField(fs[i])
  }

  // ----- what a field does to the elements of a message

  function Assign(s: Scalar, b: Body): Scalar
    requires ScalarType(s) == BodyType(b)
  {
    match s
    case Number(wide, _, _) => Number(wide, if wide then b.value else U32(b.value), true)
    case Fixed32(_, _) => Fixed32(b.bytes, true)
    case Fixed64(_, _) => Fixed64(b.bytes, true)
    case Text(text) => Text(text + Payload(b))
  }

  /** The field is of the type that its number is registered for, and so are the fields it embeds. */
  predicate Typed(e: Element, b: Body)
    decreases b, 0
  {
    && WireType(e) == BodyType(b)
    && (e.Nested? ==> b.Embedded? && TypedAll(e.fields, b.sub))
  }

  function Merge(e: Element, b: Body): (after: Element)
    requires Typed(e, b)
    decreases b, 1
  {
    match e
    case One(s) => One(Assign(s, b))
    case Many(blank, items) => Many(blank, items + [Assign(blank, b)])
    case Nested(fields) => Nested(ApplyAll(fields, b.sub))
  }

  predicate TypedField(fields: Fields, f: Field)
    decreases f, 0
  {
    f.number in fields ==> Typed(fields[f.number], f.body)
  }

  function Apply(fields: Fields, f: Field): Fields
    requires TypedField(fields, f)
    decreases f, 1
  {
    if f.number in fields then fields[f.number := Merge(fields[f.number], f.body)] else fields
  }

  predicate TypedAll(fields: Fields, fs: seq<Field>)
    decreases fs, 0
  {
    fs == [] || (TypedField(fields, fs[0]) && TypedAll(Apply(fields, fs[0]), fs[1..]))
  }

  function ApplyAll(fields: Fields, fs: seq<Field>): Fields
    requires TypedAll(fields, fs)
    decreases fs, 1
  {
    if fs == [] then fields else ApplyAll(Apply(fields, fs[0]), fs[1..])
  }

  // ----- the round trip

  lemma TagRange(f: Field)
    requires GoodField(f)
    ensures Tag(f) < Varint.Pow128(Varint.MAX_BYTES)
    ensures Tag(f) % 8 == BodyType(f.body) && U32(Tag(f) / 8) == f.number
  {
    Varint.PowEight();
  }

  lemma LengthRange(n: nat)
    requires n < 0x1_0000_0000
    ensures n < Varint.Pow128(Varint.MAX_BYTES)
  {
    Varint.PowEight();
  }

  lemma NonEmpty(b: Body)
    requires GoodBody(b)
    ensures Contents(b) != []
  {
  }

  /** A length-delimited body is read as its prefix and its payload. */
  lemma ReadsDelimited(payload: seq<byte>, rest: seq<byte>)
    requires |payload| < 0x1_0000_0000
    ensures var prefix := Varint.Encode(|payload|);
            var data := (prefix + payload) + rest;
            && Varint.VarintOf(data) == Varint.Read(|prefix|, |payload|)
            && data[|prefix|..|prefix| + |payload|] == payload
  {
    var prefix := Varint.Encode(|payload|);
    LengthRange(|payload|);
    Varint.ReadEncoded(|payload|, payload + rest);
    Seqs.Assoc(prefix, payload, rest);
    Seqs.Suffix(prefix, payload);
    Seqs.Suffix(prefix + payload, rest);
    assert ((prefix + payload) + rest)[|prefix|..|prefix| + |payload|] == (prefix + payload)[|prefix|..];
  }

  lemma DeserializesScalar(s: Scalar, b: Body, rest: seq<byte>)
    requires GoodBody(b) && ScalarType(s) == BodyType(b)
    ensures DeserializeScalar(s, Contents(b) + rest) == Taken(|Contents(b)|, Assign(s, b))
  {
    hide Varint.Encode, Varint.Pow128, Varint.VarintOf;
    match b
    case Var(value) => Varint.ReadEncoded(value, rest);
    case Word(bytes) => Seqs.Suffix(bytes, rest);
    case Long(bytes) => Seqs.Suffix(bytes, rest);
    case Delimited(_) => DeserializesText(s, b, rest);
    case Embedded(_) => DeserializesText(s, b, rest);
  }

  lemma DeserializesText(s: Scalar, b: Body, rest: seq<byte>)
    requires GoodBody(b) && s.Text? && (b.Delimited? || b.Embedded?)
    ensures DeserializeScalar(s, Contents(b) + rest) == Taken(|Contents(b)|, Assign(s, b))
  {
    hide Varint.Encode, Varint.Pow128, Varint.VarintOf, EncodeAll;
    ReadsDelimited(Payload(b), rest);
    if Payload(b) == [] {
      Seqs.Nil(s.text);
    }
  }

  lemma Skips(b: Body, rest: seq<byte>)
    requires GoodBody(b)
    ensures Skip(Contents(b) + rest, BodyType(b)) == |Contents(b)|
  {
    hide Varint.Encode, Varint.Pow128, DeserializeScalar, EncodeAll;
    match b
    case Var(value) => Varint.ReadEncoded(value, rest);
    case Word(bytes) =>
    case Long(bytes) =>
    case Delimited(_) => DeserializesScalar(Text([]), b, rest);
    case Embedded(_) => DeserializesScalar(Text([]), b, rest);
  }

  /** The reader of an element does to it what the field means, given that it does so for the fields that
      are embedded in it. */
  lemma Deserializes(e: Element, b: Body, rest: seq<byte>)
    requires GoodBody(b) && Typed(e, b)
    requires e.Nested? ==> ParseFields(e.fields, EncodeAll(b.sub)) == Parsed(true, ApplyAll(e.fields, b.sub))
    ensures Deserialize(e, Contents(b) + rest) == Taken(|Contents(b)|, Merge(e, b))
  {
    hide Varint.Encode, Varint.Pow128, Varint.VarintOf, DeserializeScalar, EncodeAll, ParseFields, ApplyAll;
    match e
    case One(s) => DeserializesScalar(s, b, rest);
    case Many(blank, _) =>
      DeserializesScalar(blank, b, rest);
      NonEmpty(b);
    case Nested(_) =>
      ReadsDelimited(Payload(b), rest);
      EmptyMessage(e.fields, b.sub);
  }

  /** An encoding is empty only for no fields. */
  lemma EmptyMessage(fields: Fields, fs: seq<Field>)
    requires TypedAll(fields, fs)
    ensures EncodeAll(fs) == [] ==> ApplyAll(fields, fs) == fields
  {
    hide Varint.Encode;
    if fs != [] {
      assert |EncodeAll(fs)| >= |EncodeField(fs[0])| >= |Varint.Encode(Tag(fs[0]))|;
    }
  }

  lemma Turns(fields: Fields, f: Field, rest: seq<byte>)
    requires GoodField(f) && TypedField(fields, f)
    requires f.number in fields && fields[f.number].Nested? ==>
      var inner := fields[f.number].fields;
      && f.body.Embedded? && TypedAll(inner, f.body.sub)
      && ParseFields(inner, EncodeAll(f.body.sub)) == Parsed(true, ApplyAll(inner, f.body.sub))
    ensures Turn(fields, Tag(f), Contents(f.body) + rest) == Taken(|Contents(f.body)|, Apply(fields, f))
  {
    hide Contents, Deserialize, Skip, Merge, Tag, GoodBody, ParseFields, ApplyAll, EncodeAll;
    TagRange(f);
    if f.number in fields {
      Deserializes(fields[f.number], f.body, rest);
    } else {
      Skips(f.body, rest);
    }
  }

  /** The loop of FromBuffer takes one field at a time. */
  lemma ParseStep(fields: Fields, f: Field, rest: seq<byte>, after: Fields)
    requires GoodField(f)
    requires Turn(fields, Tag(f), Contents(f.body) + rest) == Taken(|Contents(f.body)|, after)
    ensures ParseFields(fields, EncodeField(f) + rest) == ParseFields(after, rest)
  {
    hide ParseFields, Turn, Contents, EncodeField, GoodBody;
    NonEmpty(f.body);
    ParseOn(fields, f, rest, |Contents(f.body)|, after);
    Seqs.Suffix(Contents(f.body), rest);
  }

  /** FromBuffer on an encoding of typed fields returns true, and applies the fields in order. */
  lemma {:induction false} ParsesEncoded(fields: Fields, fs: seq<Field>)
    requires Good(fs) && TypedAll(fields, fs)
    ensures ParseFields(fields, EncodeAll(fs)) == Parsed(true, ApplyAll(fields, fs))
    decreases fs
  {
    hide ParseFields, EncodeField, Apply, GoodBody;
    if fs == [] {
      ParsesNothing(fields);
    } else {
      var f := fs[0];
      TurnsEncoded(fields, f, EncodeAll(fs[1..]));
      ParseStep(fields, f, EncodeAll(fs[1..]), Apply(fields, f));
      ParsesEncoded(Apply(fields, f), fs[1..]);
    }
  }

  lemma {:induction false} TurnsEncoded(fields: Fields, f: Field, rest: seq<byte>)
    requires GoodField(f) && TypedField(fields, f)
    ensures Turn(fields, Tag(f), Contents(f.body) + rest) == Taken(|Contents(f.body)|, Apply(fields, f))
    decreases f
  {
    hide *;
    if f.number in fields && fields[f.number].Nested? {
      TypedInner(fields, f);
      ParsesEncoded(fields[f.number].fields, f.body.sub);
    }
    Turns(fields, f, rest);
  }

  lemma ParsesNothing(fields: Fields)
    ensures ParseFields(fields, []) == Parsed(true, fields)
  {
  }

  lemma TypedInner(fields: Fields, f: Field)
    requires GoodField(f) && TypedField(fields, f) && f.number in fields && fields[f.number].Nested?
    ensures f.body.Embedded? && Good(f.body.sub) && TypedAll(fields[f.number].fields, f.body.sub)
  {
  }

  // ----- what the elements hold afterwards

  /** The bodies of the fields of one number, in order. */
  function Occurrences(fs: seq<Field>, n: nat): seq<Body>
  {
    if fs == [] then []
    else (if fs[0].number == n then [fs[0].body] else []) + Occurrences(fs[1..], n)
  }

  predicate AllOf(bodies: seq<Body>, s: Scalar)
  {
    forall i :: 0 <= i < |bodies| ==> BodyType(bodies[i]) == ScalarType(s)
  }

  function Assigned(blank: Scalar, bodies: seq<Body>): seq<Scalar>
    requires AllOf(bodies, blank)
  {
    seq(|bodies|, i requires 0 <= i < |bodies| => Assign(blank, bodies[i]))
  }

  function Payloads(bodies: seq<Body>): seq<byte>
    requires AllOf(bodies, Text([]))
  {
    if bodies == [] then [] else Payload(bodies[0]) + Payloads(bodies[1..])
  }

  lemma ApplyOne(fields: Fields, fs: seq<Field>, n: nat)
    requires TypedAll(fields, fs) && n in fields && fs != []
    ensures TypedField(fields, fs[0])
    ensures var after := Apply(fields, fs[0]);
            && TypedAll(after, fs[1..]) && ApplyAll(fields, fs) == ApplyAll(after, fs[1..])
            && n in after
            && if fs[0].number == n then Typed(fields[n], fs[0].body) && after[n] == Merge(fields[n], fs[0].body)
               else after[n] == fields[n]
  {
    hide Merge, Typed;
  }

  lemma OccurrencesStep(fs: seq<Field>, n: nat)
    requires fs != []
    ensures var occurrences, rest := Occurrences(fs, n), Occurrences(fs[1..], n);
            if fs[0].number == n then occurrences != [] && occurrences[0] == fs[0].body && occurrences[1..] == rest
            else occurrences == rest
  {
  }

  /** A repeated element holds exactly the occurrences of its field, in order. */
  lemma {:induction false} RepeatedHolds(fields: Fields, fs: seq<Field>, n: nat)
    requires TypedAll(fields, fs) && n in fields && fields[n].Many?
    ensures n in ApplyAll(fields, fs) && AllOf(Occurrences(fs, n), fields[n].blank)
    ensures ApplyAll(fields, fs)[n]
         == Many(fields[n].blank, fields[n].items + Assigned(fields[n].blank, Occurrences(fs, n)))
    decreases |fs|
  {
    hide Assign, TypedAll, ApplyAll, Apply;
    if fs == [] {
      ApplyNone(fields);
      Seqs.Nil(fields[n].items);
    } else {
      OccurrencesStep(fs, n);
      ApplyOne(fields, fs, n);
      RepeatedHolds(Apply(fields, fs[0]), fs[1..], n);
      if fs[0].number == n {
        var blank, items := fields[n].blank, fields[n].items;
        var rest := Assigned(blank, Occurrences(fs[1..], n));
        Seqs.Assoc(items, [Assign(blank, fs[0].body)], rest);
        assert Assigned(blank, Occurrences(fs, n)) == [Assign(blank, fs[0].body)] + rest;
      }
    }
  }

  lemma ApplyNone(fields: Fields)
    ensures TypedAll(fields, []) && ApplyAll(fields, []) == fields
  {
  }

  /** A single bytes element holds the concatenation of the occurrences of its field. */
  lemma {:induction false} TextHolds(fields: Fields, fs: seq<Field>, n: nat)
    requires TypedAll(fields, fs) && n in fields && fields[n].One? && fields[n].scalar.Text?
    ensures n in ApplyAll(fields, fs) && AllOf(Occurrences(fs, n), Text([]))
    ensures ApplyAll(fields, fs)[n] == One(Text(fields[n].scalar.text + Payloads(Occurrences(fs, n))))
    decreases |fs|
  {
    hide Payload, TypedAll, ApplyAll, Apply;
    if fs == [] {
      ApplyNone(fields);
      Seqs.Nil(fields[n].scalar.text);
    } else {
      OccurrencesStep(fs, n);
      ApplyOne(fields, fs, n);
      TextHolds(Apply(fields, fs[0]), fs[1..], n);
      if fs[0].number == n {
        Seqs.Assoc(fields[n].scalar.text, Payload(fs[0].body), Payloads(Occurrences(fs[1..], n)));
      }
    }
  }

  lemma {:induction false} ApplyJoin(fields: Fields, fs: seq<Field>, more: seq<Field>)
    requires TypedAll(fields, fs) && TypedAll(ApplyAll(fields, fs), more)
    ensures TypedAll(fields, fs + more) && ApplyAll(fields, fs + more) == ApplyAll(ApplyAll(fields, fs), more)
    decreases |fs|
  {
    hide Apply, TypedField;
    if fs == [] {
      Seqs.Nil(more);
    } else {
      Seqs.Tail(fs, more);
      ApplyJoin(Apply(fields, fs[0]), fs[1..], more);
    }
  }

  predicate AllEmbedded(bodies: seq<Body>)
  {
    forall i :: 0 <= i < |bodies| ==> bodies[i].Embedded?
  }

  /** The fields of all messages, one message after the other. */
  function Joined(bodies: seq<Body>): seq<Field>
    requires AllEmbedded(bodies)
  {
    if bodies == [] then [] else bodies[0].sub + Joined(bodies[1..])
  }

  /** A nested message holds what the fields of all its occurrences, put together, make of it. */
  lemma {:induction false} NestedHolds(fields: Fields, fs: seq<Field>, n: nat)
    requires TypedAll(fields, fs) && n in fields && fields[n].Nested?
    ensures n in ApplyAll(fields, fs) && AllEmbedded(Occurrences(fs, n))
    ensures TypedAll(fields[n].fields, Joined(Occurrences(fs, n)))
    ensures ApplyAll(fields, fs)[n] == Nested(ApplyAll(fields[n].fields, Joined(Occurrences(fs, n))))
    decreases |fs|
  {
    hide TypedAll, ApplyAll, Apply;
    if fs == [] {
      ApplyNone(fields);
      ApplyNone(fields[n].fields);
    } else {
      OccurrencesStep(fs, n);
      ApplyOne(fields, fs, n);
      NestedHolds(Apply(fields, fs[0]), fs[1..], n);
      if fs[0].number == n {
        ApplyJoin(fields[n].fields, fs[0].body.sub, Joined(Occurrences(fs[1..], n)));
      }
    }
  }

  function Known(fields: Fields, fs: seq<Field>): seq<Field>
  {
    if fs == [] then [] else (if fs[0].number in fields then [fs[0]] else []) + Known(fields, fs[1..])
  }

  /** Fields of unregistered numbers change nothing: what is parsed is what remains without them. */
  lemma {:induction false} UnknownIgnored(fields: Fields, fs: seq<Field>)
    requires TypedAll(fields, fs)
    ensures TypedAll(fields, Known(fields, fs))
    ensures ApplyAll(fields, fs) == ApplyAll(fields, Known(fields, fs))
  {
    hide TypedField, Merge, Typed;
    if fs != [] {
      var after := Apply(fields, fs[0]);
      UnknownIgnored(after, fs[1..]);
      KnownKeys(fields, after, fs[1..]);
      if fs[0].number in fields {
        assert Known(fields, fs)[1..] == Known(fields, fs[1..]);
      } else {
        Seqs.Nil(Known(fields, fs[1..]));
      }
    }
  }

  lemma {:induction false} KnownKeys(fields: Fields, after: Fields, fs: seq<Field>)
    requires fields.Keys == after.Keys
    ensures Known(fields, fs) == Known(after, fs)
  {
    if fs != [] {
      KnownKeys(fields, after, fs[1..]);
    }
  }

  // ----- fields of the wrong type

  predicate Flat(fields: Fields)
  {
    forall n <- fields :: !fields[n].Nested?
  }

  /** The field is of another wire type than the element of its number. */
  predicate Mismatched(fields: Fields, f: Field)
  {
    f.number in fields && WireType(fields[f.number]) != BodyType(f.body)
  }

  lemma TurnMismatch(fields: Fields, f: Field, rest: seq<byte>)
    requires GoodField(f) && Mismatched(fields, f)
    ensures Turn(fields, Tag(f), Contents(f.body) + rest) == Taken(0, fields)
  {
    hide Contents, Deserialize, Skip, GoodBody, Tag;
    TagRange(f);
  }

  lemma ParseMismatch(fields: Fields, f: Field, rest: seq<byte>)
    requires GoodField(f) && Mismatched(fields, f)
    ensures ParseFields(fields, EncodeField(f) + rest) == Parsed(false, fields)
  {
    hide Varint.Encode, Varint.VarintOf, Varint.Pow128, Turn, Contents, Tag, GoodBody, Mismatched;
    var tag, contents := Varint.Encode(Tag(f)), Contents(f.body);
    TagRange(f);
    Seqs.Assoc(tag, contents, rest);
    Varint.ReadEncoded(Tag(f), contents + rest);
    Seqs.Suffix(tag, contents + rest);
    TurnMismatch(fields, f, rest);
  }

  lemma FlatMismatch(fields: Fields, f: Field)
    requires Flat(fields) && !TypedField(fields, f)
    ensures Mismatched(fields, f)
  {
  }

  lemma FlatStep(fields: Fields, f: Field)
    requires Flat(fields) && TypedField(fields, f)
    ensures Flat(Apply(fields, f))
  {
  }

  /** For a message without nested messages, FromBuffer accepts an encoding exactly when every field of a
      registered number has the wire type of its element. */
  lemma {:induction false} AcceptsIffTyped(fields: Fields, fs: seq<Field>)
    requires Good(fs) && Flat(fields)
    ensures ParseFields(fields, EncodeAll(fs)).complete <==> TypedAll(fields, fs)
    decreases |fs|
  {
    hide ParseFields, EncodeField, Apply, TypedField, GoodField, Flat;
    if fs == [] {
      ParsesNothing(fields);
    } else if TypedField(fields, fs[0]) {
      var after := Apply(fields, fs[0]);
      TurnsEncoded(fields, fs[0], EncodeAll(fs[1..]));
      ParseStep(fields, fs[0], EncodeAll(fs[1..]), after);
      FlatStep(fields, fs[0]);
      AcceptsIffTyped(after, fs[1..]);
    } else {
      FlatMismatch(fields, fs[0]);
      ParseMismatch(fields, fs[0], EncodeAll(fs[1..]));
    }
  }

  // ----- what is made of any fields

  lemma {:induction false} EncodeJoin(fs: seq<Field>, more: seq<Field>)
    ensures EncodeAll(fs + more) == EncodeAll(fs) + EncodeAll(more)
    decreases |fs|
  {
    hide EncodeField;
    if fs == [] {
      Seqs.Nil(more);
      Seqs.Nil(EncodeAll(more));
    } else {
      Seqs.Tail(fs, more);
      EncodeJoin(fs[1..], more);
      Seqs.Assoc(EncodeField(fs[0]), EncodeAll(fs[1..]), EncodeAll(more));
    }
  }

  /** What is left of an encoding behind its first field, and inside it. */
  lemma EncodeShrinks(fs: seq<Field>)
    requires fs != []
    ensures |EncodeAll(fs[1..])| < |EncodeAll(fs)|
    ensures fs[0].body.Embedded? ==>
              |EncodeAll(fs[0].body.sub)| + |EncodeAll(fs[1..])| < |EncodeAll(fs)|
  {
    hide Varint.Encode, Tag;
    assert |EncodeAll(fs)| == |Varint.Encode(Tag(fs[0]))| + |Contents(fs[0].body)| + |EncodeAll(fs[1..])|;
    if fs[0].body.Embedded? {
      assert |Contents(fs[0].body)| >= |Payload(fs[0].body)| == |EncodeAll(fs[0].body.sub)|;
    }
  }

  /** The meaning of any list of fields. A field of the wrong wire type ends the reading. When the fields in a
      message do not pass, they stay in it as far as they went, and are read once more as fields of the message
      around it. Bytes that are no fields are read as they stand where a message is expected. */
  function Reading(fields: Fields, fs: seq<Field>): Parsed
    decreases |EncodeAll(fs)|
  {
    if fs == [] then Parsed(true, fields)
    else
      EncodeShrinks(fs);
      var f, rest := fs[0], fs[1..];
      if f.number !in fields then Reading(fields, rest)
      else if Mismatched(fields, f) then Parsed(false, fields)
      else if !fields[f.number].Nested? then Reading(Apply(fields, f), rest)
      else if f.body.Embedded? then
        var p := Reading(fields[f.number].fields, f.body.sub);
        var after := fields[f.number := Nested(p.fields)];
        EncodeJoin(f.body.sub, rest);
        Reading(after, if p.complete then rest else f.body.sub + rest)
      else
        var p := ParseFields(fields[f.number].fields, f.body.payload);
        var after := fields[f.number := Nested(p.fields)];
        if p.complete then Reading(after, rest) else ParseFields(after, f.body.payload + EncodeAll(rest))
  }

  /** A nested message whose payload does not pass consumes only the prefix. */
  lemma DeserializesNested(inner: Fields, b: Body, rest: seq<byte>)
    requires GoodBody(b) && (b.Delimited? || b.Embedded?)
    ensures var p := ParseFields(inner, Payload(b));
            Deserialize(Nested(inner), Contents(b) + rest)
            == Taken(if p.complete then |Contents(b)| else |Varint.Encode(|Payload(b)|)|, Nested(p.fields))
  {
    hide Varint.Encode, Varint.VarintOf, EncodeAll, ParseFields;
    ReadsDelimited(Payload(b), rest);
    if Payload(b) == [] {
      ParsesNothing(inner);
    }
  }

  lemma TurnsNested(fields: Fields, f: Field, rest: seq<byte>)
    requires GoodField(f) && f.number in fields && fields[f.number].Nested? && !Mismatched(fields, f)
    ensures var p := ParseFields(fields[f.number].fields, Payload(f.body));
            Turn(fields, Tag(f), Contents(f.body) + rest)
            == Taken(if p.complete then |Contents(f.body)| else |Varint.Encode(|Payload(f.body)|)|,
                     fields[f.number := Nested(p.fields)])
  {
    hide Contents, Deserialize, Skip, Tag, Payload, GoodBody, ParseFields, Varint.Encode;
    TagRange(f);
    DeserializesNested(fields[f.number].fields, f.body, rest);
  }

  /** The loop takes one field, or a part of it. */
  lemma ParseOn(fields: Fields, f: Field, rest: seq<byte>, consumed: nat, after: Fields)
    requires GoodField(f) && 0 < consumed <= |Contents(f.body)|
    requires Turn(fields, Tag(f), Contents(f.body) + rest) == Taken(consumed, after)
    ensures ParseFields(fields, EncodeField(f) + rest) == ParseFields(after, (Contents(f.body) + rest)[consumed..])
  {
    hide Varint.Encode, Varint.VarintOf, Varint.Pow128, Turn, Contents, Tag, GoodBody;
    var tag, contents := Varint.Encode(Tag(f)), Contents(f.body);
    TagRange(f);
    Seqs.Assoc(tag, contents, rest);
    Varint.ReadEncoded(Tag(f), contents + rest);
    Seqs.Suffix(tag, contents + rest);
    Seqs.Drop(tag + (contents + rest), |tag|, consumed, consumed);
  }

  /** Behind a nested message: the fields that follow, or its payload and the fields that follow. */
  lemma NestedStep(fields: Fields, f: Field, rest: seq<byte>)
    requires GoodField(f) && f.number in fields && fields[f.number].Nested? && !Mismatched(fields, f)
    ensures var p := ParseFields(fields[f.number].fields, Payload(f.body));
            ParseFields(fields, EncodeField(f) + rest)
            == ParseFields(fields[f.number := Nested(p.fields)], if p.complete then rest else Payload(f.body) + rest)
  {
    hide ParseFields, Turn, Varint.Encode, EncodeField, Tag, GoodBody, EncodeAll;
    var p := ParseFields(fields[f.number].fields, Payload(f.body));
    var prefix := Varint.Encode(|Payload(f.body)|);
    var after := fields[f.number := Nested(p.fields)];
    TurnsNested(fields, f, rest);
    if p.complete {
      ParseOn(fields, f, rest, |Contents(f.body)|, after);
      Seqs.Suffix(Contents(f.body), rest);
    } else {
      ParseOn(fields, f, rest, |prefix|, after);
      Seqs.Assoc(prefix, Payload(f.body), rest);
      Seqs.Suffix(prefix, Payload(f.body) + rest);
    }
  }

  /** On the encoding of any fields, typed or not, FromBuffer leaves their meaning; so it accepts it exactly
      when the fields pass. */
  lemma {:induction false} ReadsEncoded(fields: Fields, fs: seq<Field>)
    requires Good(fs)
    ensures ParseFields(fields, EncodeAll(fs)) == Reading(fields, fs)
    decreases |EncodeAll(fs)|
  {
    hide ParseFields, EncodeField, Apply, GoodField, Mismatched;
    if fs == [] {
      ParsesNothing(fields);
    } else {
      var f, rest := fs[0], fs[1..];
      EncodeShrinks(fs);
      if f.number !in fields || (!Mismatched(fields, f) && !fields[f.number].Nested?) {
        FlatTyped(fields, f);
        TurnsEncoded(fields, f, EncodeAll(rest));
        ParseStep(fields, f, EncodeAll(rest), Apply(fields, f));
        ApplyUnknown(fields, f);
        ReadsEncoded(Apply(fields, f), rest);
      } else if Mismatched(fields, f) {
        ParseMismatch(fields, f, EncodeAll(rest));
      } else {
        NestedStep(fields, f, EncodeAll(rest));
        ReadsNested(fields, fs);
      }
    }
  }

  lemma FlatTyped(fields: Fields, f: Field)
    requires f.number !in fields || (!Mismatched(fields, f) && !fields[f.number].Nested?)
    ensures TypedField(fields, f)
  {
  }

  lemma ApplyUnknown(fields: Fields, f: Field)
    requires TypedField(fields, f)
    ensures f.number !in fields ==> Apply(fields, f) == fields
  {
  }

  lemma {:induction false} ReadsNested(fields: Fields, fs: seq<Field>)
    requires Good(fs) && fs != []
    requires fs[0].number in fields && fields[fs[0].number].Nested? && !Mismatched(fields, fs[0])
    ensures var f, rest := fs[0], fs[1..];
            var p := ParseFields(fields[f.number].fields, Payload(f.body));
            Reading(fields, fs)
            == ParseFields(fields[f.number := Nested(p.fields)],
                           if p.complete then EncodeAll(rest) else Payload(f.body) + EncodeAll(rest))
    decreases |EncodeAll(fs)|, 0
  {
    hide ParseFields, EncodeField, Apply, GoodField;
    var f, rest := fs[0], fs[1..];
    var inner := fields[f.number].fields;
    var p := ParseFields(inner, Payload(f.body));
    var after := fields[f.number := Nested(p.fields)];
    EncodeShrinks(fs);
    if f.body.Embedded? {
      GoodInner(fs);
      EncodeJoin(f.body.sub, rest);
      ReadsEncoded(inner, f.body.sub);
      ReadsEncoded(after, if p.complete then rest else f.body.sub + rest);
    } else if p.complete {
      ReadsEncoded(after, rest);
    }
  }

  lemma GoodInner(fs: seq<Field>)
    requires Good(fs) && fs != [] && fs[0].body.Embedded?
    ensures Good(fs[0].body.sub) && Good(fs[0].body.sub + fs[1..])
  {
    assert GoodField(fs[0]) && GoodBody(fs[0].body);
    GoodEmbedded(fs[0].body);
    forall i | 0 <= i < |fs[0].body.sub + fs[1..]| ensures GoodField((fs[0].body.sub + fs[1..])[i]) {
    }
  }

  lemma GoodEmbedded(b: Body)
    requires GoodBody(b) && b.Embedded?
    ensures Good(b.sub)
  {
  }

  /** A nested message can be accepted although its fields do not pass: here the field is of the wrong wire type in
      the inner message, and unknown to the outer one, as a field of which it is read again. */
  lemma NestedSlips()
    ensures var fields := map[1 := Nested(map[2 := One(Number(true, 0, false))])];
            var fs := [Field(1, Embedded([Field(2, Word([0, 0, 0, 0]))]))];
            Good(fs) && !TypedAll(fields, fs) && ParseFields(fields, EncodeAll(fs)).complete
  {
    hide ParseFields;
    var inner: Fields := map[2 := One(Number(true, 0, false))];
    var fields: Fields := map[1 := Nested(inner)];
    var sub := [Field(2, Word([0, 0, 0, 0]))];
    var fs := [Field(1, Embedded(sub))];
    ShortEncoding(sub);
    assert GoodBody(sub[0].body) && Good(sub) && GoodBody(fs[0].body) && Good(fs);
    assert !TypedField(inner, sub[0]) && !TypedAll(inner, sub) && !Typed(fields[1], fs[0].body);
    ReadsEncoded(fields, fs);
    assert Reading(inner, sub) == Parsed(false, inner);
    assert sub + fs[1..] == sub && sub[1..] == [];
    assert fields[1 := Nested(inner)] == fields;
    assert Reading(fields, sub) == Reading(fields, []) == Parsed(true, fields);
    assert Reading(fields, fs) == Parsed(true, fields);
  }

  lemma ShortEncoding(sub: seq<Field>)
    requires sub == [Field(2, Word([0, 0, 0, 0]))]
    ensures |EncodeAll(sub)| < 0x1_0000_0000
  {
    assert Tag(sub[0]) == 21 && |Varint.Encode(21)| == 1;
    assert sub[1..] == [] && EncodeAll([]) == [];
  }

  // ----- single bytes

  /** The first bytes of a field of a number up to 15: the number and the wire type, and the length of a payload. */
  lemma EncodedBytes(n: nat, v: byte, bytes: seq<byte>)
    requires 1 <= n <= 15 && v < 128 && |bytes| < 128
    ensures EncodeField(Field(n, Var(v))) == [8 * n, v]
    ensures EncodeField(Field(n, Long(bytes))) == [8 * n + 1] + bytes
    ensures EncodeField(Field(n, Delimited(bytes))) == [8 * n + 2, |bytes|] + bytes
    ensures EncodeField(Field(n, Word(bytes))) == [8 * n + 5] + bytes
  {
    Seqs.Assoc([8 * n + 2], [|bytes|], bytes);
    assert [8 * n + 2] + [|bytes|] == [8 * n + 2, |bytes|];
    var f := Field(n, Delimited(bytes));
    assert Tag(f) == 8 * n + 2 && Contents(f.body) == [|bytes|] + bytes;
  }

  lemma OneByte(b: byte, rest: seq<byte>)
    requires b < 128
    ensures Varint.VarintOf([b] + rest) == Varint.Read(1, b) && ([b] + rest)[1..] == rest
  {
    Varint.PowEight();
    Varint.ReadEncoded(b, rest);
  }

  /** A field of number 0, and one of an unknown number and another wire type than the four, is an error. */
  lemma Refused(fields: Fields, n: nat, wireType: nat, rest: seq<byte>)
    requires n <= 15 && wireType < 8 && (n == 0 || (n !in fields && wireType in {3, 4, 6, 7}))
    ensures ParseFields(fields, [8 * n + wireType] + rest) == Parsed(false, fields)
  {
    hide ParseFields, Varint.VarintOf;
    OneByte(8 * n + wireType, rest);
    ParseUnfold(fields, [8 * n + wireType] + rest);
  }

  /** A known field of another wire type than its element's is an error. */
  lemma MismatchRefused(fields: Fields, n: nat, wireType: nat, rest: seq<byte>)
    requires 1 <= n <= 15 && wireType < 8 && n in fields && WireType(fields[n]) != wireType
    ensures ParseFields(fields, [8 * n + wireType] + rest) == Parsed(false, fields)
  {
    hide ParseFields, Varint.VarintOf;
    OneByte(8 * n + wireType, rest);
    ParseUnfold(fields, [8 * n + wireType] + rest);
  }

  /** The map of elements is keyed by a byte: numbers that differ by a multiple of 256 are the same field. */
  lemma NumbersWrap(fields: Fields, n: nat, k: nat, wireType: nat, data: seq<byte>)
    requires 1 <= n <= 255 && wireType < 8 && 256 * k + n < 0x1_0000_0000
    ensures Turn(fields, 8 * (256 * k + n) + wireType, data) == Turn(fields, 8 * n + wireType, data)
  {
    TagParts(256 * k + n, wireType);
    TagParts(n, wireType);
  }

  lemma TagParts(n: u32, wireType: nat)
    requires wireType < 8
    ensures U32((8 * n + wireType) / 8) == n && (8 * n + wireType) % 8 == wireType
  {
  }

  /** A payload that is announced longer than what is left is not read: the reader goes on right behind the length,
      with an empty item more in a repeated element. */
  lemma CutPayload(fields: Fields, n: nat, size: byte, rest: seq<byte>)
    requires 1 <= n <= 15 && |rest| < size < 128
    requires n in fields ==> TakesBytes(fields[n])
    ensures ParseFields(fields, [8 * n + 2, size] + rest)
         == ParseFields(if n in fields && fields[n].Many? then fields[n := Many(Text([]), fields[n].items + [Text([])])]
                        else fields, rest)
  {
    hide ParseFields, Varint.VarintOf, Turn;
    var data, tail := [8 * n + 2, size] + rest, [size] + rest;
    assert data == [8 * n + 2] + tail && data[2..] == rest;
    OneByte(8 * n + 2, tail);
    CutTurn(fields, n, size, rest);
    ParseUnfold(fields, data);
    if n in fields {
      assert fields[n := fields[n]] == fields;
    }
  }

  /** What a payload that is cut leaves of an element of bytes. */
  function Cut(e: Element): Element { if e.Many? then Many(Text([]), e.items + [Text([])]) else e }

  lemma CutTurn(fields: Fields, n: nat, size: byte, rest: seq<byte>)
    requires 1 <= n <= 15 && |rest| < size < 128
    requires n in fields ==> TakesBytes(fields[n])
    ensures Turn(fields, 8 * n + 2, [size] + rest)
         == Taken(1, if n in fields then fields[n := Cut(fields[n])] else fields)
  {
    hide Deserialize, DeserializeScalar;
    CutText([], size, rest);
    if n in fields {
      CutElement(fields[n], size, rest);
    }
  }

  predicate TakesBytes(e: Element)
  {
    e.Nested? || (e.One? && e.scalar.Text?) || (e.Many? && e.blank == Text([]))
  }

  lemma CutElement(e: Element, size: byte, rest: seq<byte>)
    requires TakesBytes(e) && |rest| < size < 128
    ensures Deserialize(e, [size] + rest) == Taken(1, Cut(e))
  {
    hide ParseFields, Varint.VarintOf, DeserializeScalar;
    OneByte(size, rest);
    CutText(if e.One? then e.scalar.text else [], size, rest);
  }

  lemma CutText(text: seq<byte>, size: byte, rest: seq<byte>)
    requires |rest| < size < 128
    ensures DeserializeScalar(Text(text), [size] + rest) == Taken(1, Text(text))
  {
    hide Varint.VarintOf;
    OneByte(size, rest);
  }

  /** A single number holds the value of the last occurrence of its field, modulo 2^32 if it is narrow. */
  lemma {:induction false} NumberHolds(fields: Fields, fs: seq<Field>, n: nat)
    requires TypedAll(fields, fs) && n in fields && fields[n].One? && fields[n].scalar.Number?
    ensures n in ApplyAll(fields, fs)
    ensures var os, wide := Occurrences(fs, n), fields[n].scalar.wide;
            if os == [] then ApplyAll(fields, fs)[n] == fields[n]
            else
              && os[|os| - 1].Var?
              && var value := os[|os| - 1].value;
              ApplyAll(fields, fs)[n] == One(Number(wide, if wide then value else value % 0x1_0000_0000, true))
    decreases |fs|
  {
    hide TypedAll, ApplyAll, Apply;
    if fs == [] {
      ApplyNone(fields);
    } else {
      OccurrencesStep(fs, n);
      ApplyOne(fields, fs, n);
      NumberHolds(Apply(fields, fs[0]), fs[1..], n);
    }
  }

  /** A field that ends too early is an error: behind the tag there is nothing, or too little for a fixed size. */
  lemma CutField(fields: Fields, n: nat, wireType: nat, rest: seq<byte>)
    requires 1 <= n <= 15 && wireType < 8
    requires rest == [] || (wireType == FIXED32 && |rest| < 4) || (wireType == FIXED64 && |rest| < 8)
    ensures !ParseFields(fields, [8 * n + wireType] + rest).complete
  {
    hide ParseFields;
    OneByte(8 * n + wireType, rest);
    ParseUnfold(fields, [8 * n + wireType] + rest);
  }

  /** A single element that cannot be read is an error; it keeps its value and counts as not set. */
  lemma Unset(fields: Fields, n: nat, rest: seq<byte>)
    requires 1 <= n <= 15 && n in fields && fields[n].One?
    ensures match fields[n].scalar
            case Number(wide, value, _) =>
              Varint.Size(rest) == 0 ==>
                ParseFields(fields, [8 * n] + rest) == Parsed(false, fields[n := One(Number(wide, value, false))])
            case Fixed32(bytes, _) =>
              |rest| < 4 ==>
                ParseFields(fields, [8 * n + 5] + rest) == Parsed(false, fields[n := One(Fixed32(bytes, false))])
            case Fixed64(bytes, _) =>
              |rest| < 8 ==>
                ParseFields(fields, [8 * n + 1] + rest) == Parsed(false, fields[n := One(Fixed64(bytes, false))])
            case Text(_) => true
  {
    hide ParseFields, Varint.Size;
    var tag: byte := 8 * n + ScalarType(fields[n].scalar);
    OneByte(tag, rest);
    ParseUnfold(fields, [tag] + rest);
  }
}
