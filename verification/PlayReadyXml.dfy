/** The key ids in the XML of a PlayReady header (plugin/CENCParser.h, ParseXMLBox).

    The first loop follows `<KID>b64</KID>` elements, the second `<KID ... VALUE="b64" ...></KID>` elements
    from where the first one stopped. */
module PlayReadyXml {
  import opened Bytes
  import opened Outcomes
  import Seqs
  import opened XmlSearch
  import opened Base64

  /** `<KID>`, `<KID `, `</KID>`, `VALUE` and the quote. */
  const KID_TAG: seq<byte> := [60, 75, 73, 68, 62]
  const KID_OPEN: seq<byte> := [60, 75, 73, 68, 32]
  const KID_CLOSE: seq<byte> := [60, 47, 75, 73, 68, 62]
  const VALUE: seq<byte> := [86, 65, 76, 85, 69]
  const QUOTE: seq<byte> := [34]

  const ARRAY_SIZE: byte := 32

  /** Where a loop stopped, and the 16-byte ids it decoded. */
  datatype Pass = Pass(slot: nat, size: u16, found: seq<seq<byte>>)

  /** The decoded bytes count as a key id when there are 16 of them. */
  function Accepted(id: seq<byte>): seq<seq<byte>> { if |id| == KEY_LENGTH then [id] else [] }

  /** One turn of a loop: it ends with a remaining size, or decodes a string and moves on. */
  datatype Turn = Stop(size: u16) | Next(id: seq<byte>, step: nat)

  predicate Moves(data: seq<byte>, slot: nat, turn: Outcome<Turn>)
  {
    turn.Ok? && turn.value.Next? ==> 22 <= turn.value.step && slot + turn.value.step <= |data| + 1
  }

  function SimpleTurn(data: seq<byte>, slot: nat, size: u16): (t: Outcome<Turn>)
    ensures Moves(data, slot, t)
  {
    hide Find, Decode, Answers;
    if size == 0 then Ok(Stop(0))
    else
      var begin :- Find(data, slot, size, KID_TAG);
      if begin >= size then Ok(Stop(size))
      else
        var at := slot + begin + 10;
        var end :- Find(data, at, U16(size - begin - 10), KID_CLOSE);
        if end < size - begin - 10 then
          FoundReadable(data, at, U16(size - begin - 10), KID_CLOSE);
          var id :- Decode(data, at, U8(end), ARRAY_SIZE);
          Ok(Next(id, begin + 10 + end + 12))
        else Ok(Stop(0))
  }

  /** The place of a quoted key and the characters it may span, in bytes. */
  datatype Span = Span(key: nat, length: byte)

  /** The three searches behind `<KID `: VALUE, the quote before the key and the quote behind it. */
  function ValueSpan(data: seq<byte>, at: nat, end: u16): Outcome<Span>
  {
    var keyValue :- Find(data, at, end, VALUE);
    var quote :- Find(data, at + keyValue + 10, U16(end - keyValue - 10), QUOTE);
    var keyStart := U16(quote + 2);
    var key := at + keyValue + 10 + keyStart;
    var unquote :- Find(data, key, U16(end - keyValue - 10 - keyStart - 2), QUOTE);
    Ok(Span(key, U8(unquote - 2)))
  }

  function AttributeTurn(data: seq<byte>, slot: nat, size: u16): (t: Outcome<Turn>)
    ensures Moves(data, slot, t)
  {
    hide Find, ValueSpan, Decode, Answers;
    if size == 0 then Ok(Stop(0))
    else
      var begin :- Find(data, slot, size, KID_OPEN);
      if begin >= size then Ok(Stop(size))
      else
        var at := slot + begin + 10;
        var end :- Find(data, at, U16(size - begin - 10), KID_CLOSE);
        var span :- ValueSpan(data, at, U16(end));
        if end < size - begin - 10 then
          FoundReadable(data, at, U16(size - begin - 10), KID_CLOSE);
          var id :- Decode(data, span.key, span.length, ARRAY_SIZE);
          Ok(Next(id, begin + 10 + end + 12))
        else Ok(Stop(0))
  }

  /** The loop over `<KID>` elements. */
  function SimplePass(data: seq<byte>, slot: nat, size: u16): (p: Outcome<Pass>)
    requires slot <= |data| + 1
    ensures p.Ok? ==> slot <= p.value.slot <= |data| + 1
    ensures p.Ok? ==> AllKeys(p.value.found)
    decreases |data| + 1 - slot
  {
    var turn :- SimpleTurn(data, slot, size);
    match turn
    case Stop(left) => Ok(Pass(slot, left, []))
    case Next(id, step) => Followed(id, SimplePass(data, slot + step, U16(size - step)))
  }

  /** The loop over `<KID ...>` elements with a VALUE attribute. */
  function AttributePass(data: seq<byte>, slot: nat, size: u16): (p: Outcome<Pass>)
    requires slot <= |data| + 1
    ensures p.Ok? ==> AllKeys(p.value.found)
    decreases |data| + 1 - slot
  {
    var turn :- AttributeTurn(data, slot, size);
    match turn
    case Stop(left) => Ok(Pass(slot, left, []))
    case Next(id, step) => Followed(id, AttributePass(data, slot + step, U16(size - step)))
  }

  /** The result of a turn that decodes `id` and goes on with `rest`. */
  function Followed(id: seq<byte>, rest: Outcome<Pass>): (p: Outcome<Pass>)
    ensures rest.Ok? && AllKeys(rest.value.found) ==> p.Ok? && AllKeys(p.value.found)
  {
    var pass :- rest;
    Ok(pass.(found := Accepted(id) + pass.found))
  }

  predicate AllKeys(ids: seq<seq<byte>>)
  {
    forall i :: 0 <= i < |ids| ==> |ids[i]| == KEY_LENGTH
  }

  lemma AllKeysJoin(ids: seq<seq<byte>>, more: seq<seq<byte>>)
    requires AllKeys(ids) && AllKeys(more)
    ensures AllKeys(ids + more)
  {
  }

  /** The ids that ParseXMLBox adds, in order. */
  function XmlIds(data: seq<byte>, slot: nat, length: u16): (ids: Outcome<seq<seq<byte>>>)
    requires slot <= |data|
    ensures ids.Ok? ==> AllKeys(ids.value)
  {
    var simple :- SimplePass(data, slot, length);
    var attributed :- AttributePass(data, simple.slot, simple.size);
    Ok(simple.found + attributed.found)
  }

  // ----- the remaining size

  /** What a turn leaves of the size: an end tag whose last character ends at most two bytes behind the size is
      found, so that the size may wrap. It falls exactly when the end tag lies inside it. */
  predicate SizeFalls(size: u16, turn: Outcome<Turn>)
  {
    turn.Ok? && turn.value.Next? ==>
      && turn.value.step <= size + 2
      && (U16(size - turn.value.step) < size <==> turn.value.step <= size)
  }

  lemma StepSize(size: u16, begin: nat, end: nat)
    requires begin % 2 == 0 && end % 2 == 0 && end + 12 <= size - begin - 10 + 2
    ensures var step := begin + 10 + end + 12;
            step <= size + 2 && (U16(size - step) < size <==> step <= size)
  {
  }

  lemma SimpleSize(data: seq<byte>, slot: nat, size: u16)
    ensures SizeFalls(size, SimpleTurn(data, slot, size))
  {
    hide Find, Decode, U16, Answers;
    var turn := SimpleTurn(data, slot, size);
    if turn.Ok? && turn.value.Next? {
      var begin := Find(data, slot, size, KID_TAG).value;
      TagPlaces(data, slot, size, KID_TAG, begin);
    }
  }

  lemma AttributeSize(data: seq<byte>, slot: nat, size: u16)
    ensures SizeFalls(size, AttributeTurn(data, slot, size))
  {
    hide Find, ValueSpan, Decode, U16, U8, Answers;
    var turn := AttributeTurn(data, slot, size);
    if turn.Ok? && turn.value.Next? {
      var begin := Find(data, slot, size, KID_OPEN).value;
      TagPlaces(data, slot, size, KID_OPEN, begin);
    }
  }

  lemma TagPlaces(data: seq<byte>, slot: nat, size: u16, tag: seq<byte>, begin: nat)
    requires |tag| == 5 && Find(data, slot, size, tag) == Ok(begin) && begin < size
    requires Find(data, slot + begin + 10, U16(size - begin - 10), KID_CLOSE).Ok?
    ensures var end := Find(data, slot + begin + 10, U16(size - begin - 10), KID_CLOSE).value;
            end < size - begin - 10 ==>
              var step := begin + 10 + end + 12;
              step <= size + 2 && (U16(size - step) < size <==> step <= size)
  {
    hide Find, Spelled;
    FindAnswers(data, slot, size, tag);
    FindAnswers(data, slot + begin + 10, U16(size - begin - 10), KID_CLOSE);
    var end := Find(data, slot + begin + 10, U16(size - begin - 10), KID_CLOSE).value;
    if end < size - begin - 10 {
      StepSize(size, begin, end);
    }
  }

  /** The size falls in every turn of the first loop. */
  predicate SimpleFalls(data: seq<byte>, slot: nat, size: u16)
    requires slot <= |data| + 1
    decreases |data| + 1 - slot
  {
    var turn := SimpleTurn(data, slot, size);
    turn.Ok? && turn.value.Next? ==>
      turn.value.step <= size && SimpleFalls(data, slot + turn.value.step, size - turn.value.step)
  }

  /** The size falls in every turn of the second loop. */
  predicate AttributeFalls(data: seq<byte>, slot: nat, size: u16)
    requires slot <= |data| + 1
    decreases |data| + 1 - slot
  {
    var turn := AttributeTurn(data, slot, size);
    turn.Ok? && turn.value.Next? ==>
      turn.value.step <= size && AttributeFalls(data, slot + turn.value.step, size - turn.value.step)
  }

  /** The size falls in every turn of both loops. */
  predicate AllFalls(data: seq<byte>, slot: nat, length: u16)
    requires slot <= |data|
  {
    && SimpleFalls(data, slot, length)
    && var simple := SimplePass(data, slot, length);
    simple.Ok? ==> AttributeFalls(data, simple.value.slot, simple.value.size)
  }

  // ----- one turn of each loop, for the methods that run them

  lemma SimpleUnfold(data: seq<byte>, slot: nat, size: u16)
    requires slot <= |data| + 1 && 0 < size && SimplePass(data, slot, size).Ok?
    ensures var found := Find(data, slot, size, KID_TAG);
            && found.Ok?
            && (found.value >= size ==> SimplePass(data, slot, size) == Ok(Pass(slot, size, [])))
            && (found.value < size ==>
                  var begin := found.value;
                  var close := Find(data, slot + begin + 10, U16(size - begin - 10), KID_CLOSE);
                  && close.Ok?
                  && if close.value < size - begin - 10 then
                       var step := begin + 10 + close.value + 12;
                       var id := Decode(data, slot + begin + 10, U8(close.value), ARRAY_SIZE);
                       && slot + step <= |data| + 1 && id.Ok?
                       && SimplePass(data, slot, size)
                          == Followed(id.value,
                                      SimplePass(data, slot + step, U16(size - step)))
                     else SimplePass(data, slot, size) == Ok(Pass(slot, 0, [])))
  {
    hide Find, Decode, Followed;
    var begin := Find(data, slot, size, KID_TAG).value;
    if begin < size && Find(data, slot + begin + 10, U16(size - begin - 10), KID_CLOSE).value < size - begin - 10 {
      FoundReadable(data, slot + begin + 10, U16(size - begin - 10), KID_CLOSE);
    }
  }

  lemma AttributeUnfold(data: seq<byte>, slot: nat, size: u16)
    requires slot <= |data| + 1 && 0 < size && AttributePass(data, slot, size).Ok?
    ensures var found := Find(data, slot, size, KID_OPEN);
            && found.Ok?
            && (found.value >= size ==> AttributePass(data, slot, size) == Ok(Pass(slot, size, [])))
            && (found.value < size ==>
                  var begin := found.value;
                  var at := slot + begin + 10;
                  var close := Find(data, at, U16(size - begin - 10), KID_CLOSE);
                  && close.Ok? && close.value < 0x1_0000
                  && var end: u16 := close.value;
                  var span := ValueSpan(data, at, end);
                  && span.Ok?
                  && if end < size - begin - 10 then
                       var step := begin + 10 + end + 12;
                       var id := Decode(data, span.value.key, span.value.length, ARRAY_SIZE);
                       && slot + step <= |data| + 1 && id.Ok?
                       && AttributePass(data, slot, size)
                          == Followed(id.value,
                                      AttributePass(data, slot + step, U16(size - step)))
                     else AttributePass(data, slot, size) == Ok(Pass(slot, 0, [])))
  {
    hide Find, ValueSpan, Decode, Followed, AttributePass;
    AttributeTurns(data, slot, size);
    var begin := Find(data, slot, size, KID_OPEN).value;
    if begin < size {
      FindFits(data, slot + begin + 10, U16(size - begin - 10), KID_CLOSE);
    }
  }

  lemma AttributeTurns(data: seq<byte>, slot: nat, size: u16)
    requires slot <= |data| + 1 && AttributePass(data, slot, size).Ok?
    ensures AttributeTurn(data, slot, size).Ok?
    ensures match AttributeTurn(data, slot, size).value
            case Stop(left) => AttributePass(data, slot, size) == Ok(Pass(slot, left, []))
            case Next(id, step) =>
              slot + step <= |data| + 1
              && AttributePass(data, slot, size) == Followed(id, AttributePass(data, slot + step, U16(size - step)))
  {
    hide AttributeTurn, Followed;
  }

  // ----- documents, as the strings of their low bytes

  datatype Element =
    | Simple(id: seq<byte>)
    | Attributed(before: seq<byte>, between: seq<byte>, id: seq<byte>, after: seq<byte>)

  datatype Part = Part(text: seq<byte>, element: Element)

  /** What stands between `<KID ` and `</KID>`. */
  function Inner(e: Element): seq<byte>
    requires e.Attributed?
  {
    e.before + VALUE + e.between + QUOTE + Encode(e.id) + QUOTE + e.after
  }

  function ElementText(e: Element): seq<byte>
  {
    if e.Simple? then KID_TAG + Encode(e.id) + KID_CLOSE else KID_OPEN + Inner(e) + KID_CLOSE
  }

  function PartText(p: Part): seq<byte> { p.text + ElementText(p.element) }

  function PartsText(parts: seq<Part>): seq<byte>
  {
    if parts == [] then [] else PartText(parts[0]) + PartsText(parts[1..])
  }

  /** XML attributes hold no `<`; the quoted key is the first VALUE attribute. */
  ghost predicate GoodElement(e: Element)
  {
    && |e.id| == KEY_LENGTH
    && (e.Attributed? ==>
      && 60 !in e.before && 60 !in e.between && 60 !in e.after
      && Free(e.before, VALUE) && 34 !in e.between)
  }

  /** The text before an element holds neither marker. */
  ghost predicate GoodPart(p: Part)
  {
    GoodElement(p.element) && Free(p.text, KID_TAG) && Free(p.text, KID_OPEN)
  }

  ghost predicate GoodParts(parts: seq<Part>)
  {
    forall i :: 0 <= i < |parts| ==> GoodPart(parts[i])
  }

  /** The text after the last element completes no marker, whatever character is inspected behind it. */
  ghost predicate GoodTail(tail: seq<byte>)
  {
    forall b: byte :: Free(tail + [b], KID_TAG) && Free(tail + [b], KID_OPEN)
  }

  function SimpleIds(parts: seq<Part>): seq<seq<byte>>
  {
    if parts == [] then []
    else (if parts[0].element.Simple? then [parts[0].element.id] else []) + SimpleIds(parts[1..])
  }

  predicate AllAttributed(parts: seq<Part>)
  {
    forall i :: 0 <= i < |parts| ==> parts[i].element.Attributed?
  }

  /** The parts behind the last simple element. */
  function AfterSimple(parts: seq<Part>): (after: seq<Part>)
    ensures AllAttributed(after)
    ensures AllAttributed(parts) ==> after == parts
  {
    if AllAttributed(parts) then parts else AfterSimple(parts[1..])
  }

  function Ids(parts: seq<Part>): seq<seq<byte>>
  {
    seq(|parts|, i requires 0 <= i < |parts| => parts[i].element.id)
  }

  /** The ids of all simple elements, then those of the attributed elements behind the last simple one. */
  function DocumentIds(parts: seq<Part>): seq<seq<byte>>
  {
    SimpleIds(parts) + Ids(AfterSimple(parts))
  }

  lemma {:induction false} DocumentKeys(parts: seq<Part>)
    requires GoodParts(parts)
    ensures GoodParts(AfterSimple(parts)) && AllKeys(SimpleIds(parts))
    ensures AllKeys(DocumentIds(parts))
  {
    hide GoodPart;
    if parts != [] {
      GoodPartsRest(parts);
      DocumentKeys(parts[1..]);
      assert |parts[0].element.id| == KEY_LENGTH by { GoodIds(parts); }
    }
    GoodIds(AfterSimple(parts));
  }

  lemma GoodIds(parts: seq<Part>)
    requires GoodParts(parts)
    ensures AllKeys(Ids(parts))
    ensures forall i :: 0 <= i < |parts| ==> |parts[i].element.id| == KEY_LENGTH
  {
    forall i | 0 <= i < |parts| ensures |parts[i].element.id| == KEY_LENGTH {
      assert GoodPart(parts[i]);
    }
  }

  /** The whole of a document, with the character that is inspected behind it. */
  function Rest(parts: seq<Part>, tail: seq<byte>, b: byte): seq<byte>
  {
    PartsText(parts) + (tail + [b])
  }

  /** `text` ends with `rest`, from `at` on. */
  predicate Ends(text: seq<byte>, at: nat, rest: seq<byte>)
  {
    at <= |text| && text[at..] == rest
  }

  lemma EndsSplit(text: seq<byte>, at: nat, left: seq<byte>, right: seq<byte>)
    requires Ends(text, at, left + right)
    ensures Holds(text, at, left) && Ends(text, at + |left|, right)
  {
    Seqs.Suffix(left, right);
    assert text[at..][..|left|] == text[at..at + |left|];
    assert text[at..][|left|..] == text[at + |left|..];
  }

  lemma RestSplit(text: seq<byte>, at: nat, parts: seq<Part>, tail: seq<byte>, b: byte)
    requires parts != [] && Ends(text, at, Rest(parts, tail, b))
    ensures var p := parts[0];
            && Holds(text, at, p.text)
            && Holds(text, at + |p.text|, ElementText(p.element))
            && Ends(text, at + |PartText(p)|, Rest(parts[1..], tail, b))
  {
    hide ElementText;
    var p := parts[0];
    Seqs.Assoc(PartText(p), PartsText(parts[1..]), tail + [b]);
    EndsSplit(text, at, PartText(p), Rest(parts[1..], tail, b));
    HoldsSplit(text, at, p.text, ElementText(p.element));
  }

  // ----- the first loop

  lemma EncodeAlphabet(id: seq<byte>)
    ensures 60 !in Encode(id) && 34 !in Encode(id)
  {
    forall c | c in Encode(id) ensures c != 60 && c != 34 {
      var i :| 0 <= i < |Encode(id)| && Encode(id)[i] == c;
      EncodeChars(id, i);
    }
  }

  lemma DecodesId(data: seq<byte>, slot: nat, text: seq<byte>, at: nat, id: seq<byte>, length: byte)
    requires |id| == KEY_LENGTH && Reads(data, slot, text) && Holds(text, at, Encode(id)) && at + 24 < |text|
    requires 46 <= length <= 48
    ensures Decode(data, slot + 2 * at, length, ARRAY_SIZE) == Ok(id)
  {
    EncodeLength(id);
    forall i | 0 <= i < (length + 1) / 2 ensures data[slot + 2 * at + 2 * i] == Encode(id)[i] {
      HoldsAt(text, at, Encode(id), i);
      assert Lows(data, slot, |text|)[at + i] == text[at + i];
    }
    DecodesEncoding(data, slot + 2 * at, length, ARRAY_SIZE, id);
  }

  lemma SimpleNext(data: seq<byte>, slot: nat, size: u16, id: seq<byte>, slot': nat, size': u16)
    requires slot <= slot' <= |data| + 1 && size' == size - (slot' - slot)
    requires SimpleTurn(data, slot, size) == Ok(Next(id, slot' - slot))
    ensures SimplePass(data, slot, size) == Followed(id, SimplePass(data, slot', size'))
  {
    hide SimpleTurn, Followed;
  }

  lemma SimpleFallsNext(data: seq<byte>, slot: nat, size: u16, id: seq<byte>, slot': nat, size': u16)
    requires slot <= slot' <= |data| + 1 && size' == size - (slot' - slot)
    requires SimpleTurn(data, slot, size) == Ok(Next(id, slot' - slot))
    requires SimpleFalls(data, slot', size')
    ensures SimpleFalls(data, slot, size)
  {
    hide SimpleTurn;
  }

  lemma AttributeFallsNext(data: seq<byte>, slot: nat, size: u16, id: seq<byte>, slot': nat, size': u16)
    requires slot <= slot' <= |data| + 1 && size' == size - (slot' - slot)
    requires AttributeTurn(data, slot, size) == Ok(Next(id, slot' - slot))
    requires AttributeFalls(data, slot', size')
    ensures AttributeFalls(data, slot, size)
  {
    hide AttributeTurn;
  }

  lemma AttributeNext(data: seq<byte>, slot: nat, size: u16, id: seq<byte>, slot': nat, size': u16)
    requires slot <= slot' <= |data| + 1 && size' == size - (slot' - slot)
    requires AttributeTurn(data, slot, size) == Ok(Next(id, slot' - slot))
    ensures AttributePass(data, slot, size) == Followed(id, AttributePass(data, slot', size'))
  {
    hide AttributeTurn, Followed;
  }

  lemma SimpleFinds(data: seq<byte>, slot: nat, size: u16, begin: nat, end: nat, id: seq<byte>)
    requires begin + 10 + end < size
    requires Find(data, slot, size, KID_TAG) == Ok(begin)
    requires Find(data, slot + begin + 10, size - begin - 10, KID_CLOSE) == Ok(end)
    requires Decode(data, slot + begin + 10, U8(end), ARRAY_SIZE) == Ok(id)
    ensures slot + begin + 10 + end + 10 < |data|
    ensures SimpleTurn(data, slot, size) == Ok(Next(id, begin + 10 + end + 12))
  {
    hide Decode, Find, Encode;
    FoundReadable(data, slot + begin + 10, size - begin - 10, KID_CLOSE);
  }

  /** Where the search for the end tag stops behind a text without `<`. */
  lemma CloseAt(text: seq<byte>, from: nat, k: nat)
    requires from <= k && Holds(text, k, KID_CLOSE) && forall j :: from <= j < k ==> text[j] != 60
    ensures FirstAt(text, KID_CLOSE, from, k)
  {
    forall j | from <= j < k ensures !At(text, KID_CLOSE, j) {
      NotAt(text, KID_CLOSE, j, 0);
    }
  }

  /** One turn of the first loop: the text before the tag is skipped, the id is decoded, and the loop goes
      on behind the element. */
  lemma SimpleStep(data: seq<byte>, slot: nat, text: seq<byte>, p: nat, i: nat, id: seq<byte>)
    requires |id| == KEY_LENGTH && Reads(data, slot, text) && 2 * |text| <= LAST_OFFSET + 2
    requires i + 35 < |text| && FirstAt(text, KID_TAG, p, i)
    requires Holds(text, i + 5, Encode(id)) && Holds(text, i + 29, KID_CLOSE) && p <= i
    ensures SimpleTurn(data, slot + 2 * p, 2 * (|text| - 1 - p)) == Ok(Next(id, 2 * (i + 35 - p)))
  {
    hide Decode, Find, Encode;
    FindsAt(data, slot, text, p, |text| - 1, KID_TAG, i);
    EncodeLength(id);
    EncodeAlphabet(id);
    forall j | i + 5 <= j < i + 29 ensures text[j] != 60 {
      HoldsAt(text, i + 5, Encode(id), j - (i + 5));
    }
    CloseAt(text, i + 5, i + 29);
    FindsAt(data, slot, text, i + 5, |text| - 1, KID_CLOSE, i + 29);
    DecodesId(data, slot, text, i + 5, id, 48);
    SimpleFinds(data, slot + 2 * p, 2 * (|text| - 1 - p), 2 * (i - p), 48, id);
  }

  lemma HoldsSimple(text: seq<byte>, at: nat, id: seq<byte>)
    requires |id| == KEY_LENGTH && Holds(text, at, ElementText(Simple(id)))
    ensures |ElementText(Simple(id))| == 35
    ensures Holds(text, at, KID_TAG) && Holds(text, at + 5, Encode(id)) && Holds(text, at + 29, KID_CLOSE)
  {
    EncodeLength(id);
    HoldsSplit(text, at, KID_TAG + Encode(id), KID_CLOSE);
    HoldsSplit(text, at, KID_TAG, Encode(id));
  }

  /** The places of the pieces of an attributed element at `at`. */
  lemma HoldsAttributed(text: seq<byte>, at: nat, e: Element)
    requires e.Attributed? && |e.id| == KEY_LENGTH && Holds(text, at, ElementText(e))
    ensures var v := at + 5 + |e.before|;
            var u := v + 5 + |e.between|;
            && |ElementText(e)| == u + 32 + |e.after| - at
            && Holds(text, at, KID_OPEN)
            && Holds(text, at + 5, e.before)
            && Holds(text, v, VALUE)
            && Holds(text, v + 5, e.between)
            && Holds(text, u, QUOTE)
            && Holds(text, u + 1, Encode(e.id))
            && Holds(text, u + 25, QUOTE)
            && Holds(text, u + 26, e.after)
            && Holds(text, u + 26 + |e.after|, KID_CLOSE)
  {
    hide Encode, Holds;
    EncodeLength(e.id);
    var a1 := e.before + VALUE;
    var a2 := a1 + e.between;
    var a3 := a2 + QUOTE;
    var a4 := a3 + Encode(e.id);
    var a5 := a4 + QUOTE;
    HoldsSplit(text, at, KID_OPEN + Inner(e), KID_CLOSE);
    HoldsSplit(text, at, KID_OPEN, Inner(e));
    HoldsSplit(text, at + 5, a5, e.after);
    HoldsSplit(text, at + 5, a4, QUOTE);
    HoldsSplit(text, at + 5, a3, Encode(e.id));
    HoldsSplit(text, at + 5, a2, QUOTE);
    HoldsSplit(text, at + 5, a1, e.between);
    HoldsSplit(text, at + 5, e.before, VALUE);
  }

  lemma HoldsOpen(text: seq<byte>, at: nat, e: Element)
    requires e.Attributed? && Holds(text, at, ElementText(e))
    ensures Holds(text, at, KID_OPEN)
  {
    hide Encode;
    HoldsSplit(text, at, KID_OPEN + Inner(e), KID_CLOSE);
    HoldsSplit(text, at, KID_OPEN, Inner(e));
  }

  /** Between its `<KID ` and its end tag an element holds no `<`. */
  lemma InnerNoAngle(text: seq<byte>, at: nat, e: Element)
    requires e.Attributed? && GoodElement(e) && Holds(text, at, ElementText(e))
    ensures |ElementText(e)| >= 11
    ensures forall j :: at + 5 <= j < at + |ElementText(e)| - 6 ==> text[j] != 60
  {
    hide Encode, ElementText, Holds, Free;
    HoldsFits(text, at, ElementText(e));
    HoldsAttributed(text, at, e);
    EncodeAlphabet(e.id);
    EncodeLength(e.id);
    var v := at + 5 + |e.before|;
    var u := v + 5 + |e.between|;
    forall j | at + 5 <= j < u + 26 + |e.after| ensures text[j] != 60 {
      if j < v { HoldsAt(text, at + 5, e.before, j - at - 5); }
      else if j < v + 5 { HoldsAt(text, v, VALUE, j - v); }
      else if j < u { HoldsAt(text, v + 5, e.between, j - v - 5); }
      else if j == u { HoldsAt(text, u, QUOTE, 0); }
      else if j < u + 25 { HoldsAt(text, u + 1, Encode(e.id), j - u - 1); }
      else if j == u + 25 { HoldsAt(text, u + 25, QUOTE, 0); }
      else { HoldsAt(text, u + 26, e.after, j - u - 26); }
    }
  }

  /** An attributed element holds no `<KID>`. */
  lemma ElementFree(e: Element)
    requires e.Attributed? && GoodElement(e)
    ensures Free(ElementText(e), KID_TAG)
  {
    hide Encode, ElementText;
    var text := ElementText(e);
    InnerNoAngle(text, 0, e);
    HoldsAttributed(text, 0, e);
    var n := |text| - 6;
    HoldsAt(text, 0, KID_OPEN, 4);
    HoldsAt(text, n, KID_CLOSE, 1);
    forall k: nat ensures !At(text, KID_TAG, k) {
      if k == 0 || (0 < k < 5) {
        HoldsAt(text, 0, KID_OPEN, k);
        NotAt(text, KID_TAG, k, if k == 0 then 4 else 0);
      } else if k == n {
        NotAt(text, KID_TAG, k, 1);
      } else if k < n {
        NotAt(text, KID_TAG, k, 0);
      }
    }
  }

  /** How many characters lie before the parts that the first loop leaves. */
  function Consumed(parts: seq<Part>): int
  {
    |PartsText(parts)| - |PartsText(AfterSimple(parts))|
  }

  /** The result of the first loop on a text of `n` characters, from `p`, when the parts start at `q`. */
  function Expected(slot: int, n: int, p: int, q: int, parts: seq<Part>): Outcome<Pass>
  {
    var r := if AllAttributed(parts) then p else q + Consumed(parts);
    if slot + 2 * r < 0 || !(0 <= 2 * (n - 1 - r) < 0x1_0000) then Wild
    else Ok(Pass(slot + 2 * r, 2 * (n - 1 - r), SimpleIds(parts)))
  }

  lemma ConsumedStep(parts: seq<Part>)
    requires !AllAttributed(parts)
    ensures Consumed(parts) == |PartText(parts[0])| + Consumed(parts[1..])
  {
    hide PartText;
  }

  lemma AllAttributedStep(parts: seq<Part>)
    requires parts != []
    ensures AllAttributed(parts) <==> parts[0].element.Attributed? && AllAttributed(parts[1..])
  {
    if parts[0].element.Attributed? && AllAttributed(parts[1..]) {
      forall i | 0 <= i < |parts| ensures parts[i].element.Attributed? {
        if 0 < i { assert parts[1..][i - 1].element.Attributed?; }
      }
    }
  }

  lemma ExpectedStep(slot: nat, n: nat, p: nat, q: nat, parts: seq<Part>)
    requires parts != []
    ensures var e, q' := parts[0].element, q + |PartText(parts[0])|;
            Expected(slot, n, p, q, parts)
            == if e.Attributed? then Expected(slot, n, p, q', parts[1..])
               else ExpectedFollowed(e.id, Expected(slot, n, q', q', parts[1..]))
  {
    hide PartText, PartsText;
    AllAttributedStep(parts);
    if !AllAttributed(parts) {
      ConsumedStep(parts);
    }
    Seqs.Nil(SimpleIds(parts[1..]));
  }

  lemma ExpectedEnd(slot: nat, text: seq<byte>, p: nat, q: nat)
    requires p < |text| && 2 * |text| <= LAST_OFFSET + 2
    ensures Expected(slot, |text|, p, q, []) == Ok(Pass(slot + 2 * p, 2 * (|text| - 1 - p), []))
  {
  }

  function ExpectedFollowed(id: seq<byte>, rest: Outcome<Pass>): Outcome<Pass>
  {
    var pass :- rest;
    Ok(pass.(found := [id] + pass.found))
  }

  /** The first loop, with the characters from `p` to `q` already known to hold no `<KID>`. */
  lemma {:induction false} SimpleRound(data: seq<byte>, slot: nat, text: seq<byte>, p: nat, q: nat,
                                       parts: seq<Part>, tail: seq<byte>, b: byte)
    requires GoodParts(parts) && GoodTail(tail)
    requires Reads(data, slot, text) && 2 * |text| <= LAST_OFFSET + 2
    requires p <= q && Ends(text, q, Rest(parts, tail, b))
    requires Free(text[p..q], KID_TAG) && (p < q ==> text[q - 1] == 62)
    ensures p < |text|
    ensures slot + 2 * p <= |data| + 1 && SimpleFalls(data, slot + 2 * p, 2 * (|text| - 1 - p))
    ensures SimplePass(data, slot + 2 * p, 2 * (|text| - 1 - p)) == Expected(slot, |text|, p, q, parts)
    decreases |parts|
  {
    hide Decode, Find, Encode, SimpleTurn, ElementText, PartsText, Reads, Expected, SimplePass, SimpleFalls;
    if parts == [] {
      SimpleEnd(data, slot, text, p, q, tail, b);
      ExpectedEnd(slot, text, p, q);
    } else {
      var q' := q + |PartText(parts[0])|;
      ExpectedStep(slot, |text|, p, q, parts);
      GoodPartsRest(parts);
      RestSplit(text, q, parts, tail, b);
      if parts[0].element.Attributed? {
        AttributedCase(text, p, q, parts[0]);
        SimpleRound(data, slot, text, p, q', parts[1..], tail, b);
      } else {
        SimpleCase(data, slot, text, p, q, parts[0]);
        SimpleRound(data, slot, text, q', q', parts[1..], tail, b);
        SimpleFallsNext(data, slot + 2 * p, 2 * (|text| - 1 - p), parts[0].element.id,
                        slot + 2 * q', 2 * (|text| - 1 - q'));
      }
    }
  }

  lemma GoodPartsRest(parts: seq<Part>)
    requires GoodParts(parts) && parts != []
    ensures GoodPart(parts[0]) && GoodParts(parts[1..])
  {
    hide GoodPart;
    assert GoodPart(parts[0]);
  }

  lemma AttributedCase(text: seq<byte>, p: nat, q: nat, part: Part)
    requires p <= q && GoodPart(part) && part.element.Attributed?
    requires Holds(text, q, part.text) && Holds(text, q + |part.text|, ElementText(part.element))
    requires Free(text[p..q], KID_TAG) && (p < q ==> text[q - 1] == 62)
    ensures q + |PartText(part)| <= |text|
    ensures Free(text[p..q + |PartText(part)|], KID_TAG) && 0 < |PartText(part)|
    ensures text[q + |PartText(part)| - 1] == 62
  {
    hide Encode, ElementText;
    var i := q + |part.text|;
    TextFree(text, p, q, i, part.text);
    ElementFreeHere(text, p, i, q + |PartText(part)|, part.element);
  }

  lemma SimpleCase(data: seq<byte>, slot: nat, text: seq<byte>, p: nat, q: nat, part: Part)
    requires p <= q && GoodPart(part) && part.element.Simple?
    requires Reads(data, slot, text) && 2 * |text| <= LAST_OFFSET + 2 && q + |PartText(part)| < |text|
    requires Holds(text, q, part.text) && Holds(text, q + |part.text|, ElementText(part.element))
    requires Free(text[p..q], KID_TAG) && (p < q ==> text[q - 1] == 62)
    ensures var q' := q + |PartText(part)|;
            && Free(text[q'..q'], KID_TAG)
            && slot + 2 * q' <= |data| + 1
            && SimpleTurn(data, slot + 2 * p, 2 * (|text| - 1 - p)) == Ok(Next(part.element.id, 2 * (q' - p)))
            && SimplePass(data, slot + 2 * p, 2 * (|text| - 1 - p))
               == ExpectedFollowed(part.element.id, SimplePass(data, slot + 2 * q', 2 * (|text| - 1 - q')))
  {
    hide Encode, Decode, Find, SimpleTurn, Reads, SimplePass, ElementText, Followed, ExpectedFollowed, At, Holds;
    var i, q' := q + |part.text|, q + |PartText(part)|;
    TextFree(text, p, q, i, part.text);
    HoldsSimple(text, i, part.element.id);
    FirstBehind(text, KID_TAG, p, i);
    SimpleStep(data, slot, text, p, i, part.element.id);
    ReadsBound(data, slot, text);
    assert q' == i + 35;
    SimpleNext(data, slot + 2 * p, 2 * (|text| - 1 - p), part.element.id, slot + 2 * q', 2 * (|text| - 1 - q'));
    FollowedIs(part.element.id, SimplePass(data, slot + 2 * q', 2 * (|text| - 1 - q')));
    assert text[q'..q'] == [];
    FreeWithout([], KID_TAG);
  }

  lemma FollowedIs(id: seq<byte>, rest: Outcome<Pass>)
    requires |id| == KEY_LENGTH
    ensures Followed(id, rest) == ExpectedFollowed(id, rest)
  {
  }

  lemma ReadsBound(data: seq<byte>, slot: nat, text: seq<byte>)
    requires Reads(data, slot, text)
    ensures slot + 2 * |text| <= |data| + 1
  {
  }

  lemma TextFree(text: seq<byte>, p: nat, q: nat, i: nat, here: seq<byte>)
    requires p <= q && i == q + |here| && Holds(text, q, here)
    requires Free(text[p..q], KID_TAG) && Free(here, KID_TAG) && (p < q ==> text[q - 1] == 62)
    ensures Free(text[p..i], KID_TAG)
  {
    Seqs.Slices(text, p, q, i);
    FreeJoin(text[p..q], here, KID_TAG);
  }

  lemma ElementFreeHere(text: seq<byte>, p: nat, i: nat, q: nat, e: Element)
    requires p <= i && q == i + |ElementText(e)| && Holds(text, i, ElementText(e))
    requires e.Attributed? && GoodElement(e) && Free(text[p..i], KID_TAG)
    ensures Free(text[p..q], KID_TAG) && i < q && text[q - 1] == 62
  {
    ElementFree(e);
    HoldsAttributed(text, i, e);
    HoldsAt(text, q - 6, KID_CLOSE, 5);
    HoldsAt(text, i, ElementText(e), 0);
    HoldsAt(text, i, KID_OPEN, 0);
    Seqs.Slices(text, p, i, q);
    FreeJoin(text[p..i], ElementText(e), KID_TAG);
  }

  lemma SimpleEnd(data: seq<byte>, slot: nat, text: seq<byte>, p: nat, q: nat, tail: seq<byte>, b: byte)
    requires GoodTail(tail) && Reads(data, slot, text) && 2 * |text| <= LAST_OFFSET + 2
    requires p <= q && Ends(text, q, Rest([], tail, b))
    requires Free(text[p..q], KID_TAG) && (p < q ==> text[q - 1] == 62)
    ensures p < |text| && slot + 2 * p <= |data| + 1
    ensures SimpleFalls(data, slot + 2 * p, 2 * (|text| - 1 - p))
    ensures SimplePass(data, slot + 2 * p, 2 * (|text| - 1 - p))
         == Ok(Pass(slot + 2 * p, 2 * (|text| - 1 - p), []))
  {
    Seqs.Nil(tail + [b]);
    Seqs.Slices(text, p, q, |text|);
    assert text[p..|text|] == text[p..] && text[q..|text|] == tail + [b];
    assert Free(tail + [b], KID_TAG);
    FreeJoin(text[p..q], tail + [b], KID_TAG);
    MissesFrom(data, slot, text, p, KID_TAG);
  }

  // ----- the second loop

  lemma SpanFound(data: seq<byte>, at: nat, end: u16, keyValue: nat, quote: nat, unquote: nat)
    requires keyValue + 10 + quote + 2 + unquote + 2 <= end
    requires Find(data, at, end, VALUE) == Ok(keyValue)
    requires Find(data, at + keyValue + 10, end - keyValue - 10, QUOTE) == Ok(quote)
    requires Find(data, at + keyValue + 10 + (quote + 2), end - keyValue - 10 - (quote + 2) - 2, QUOTE) == Ok(unquote)
    ensures ValueSpan(data, at, end) == Ok(Span(at + keyValue + 10 + (quote + 2), U8(unquote - 2)))
  {
    hide Find;
  }

  lemma AttributeFinds(data: seq<byte>, slot: nat, size: u16, begin: nat, end: nat, span: Span, id: seq<byte>)
    requires begin + 10 + end < size
    requires Find(data, slot, size, KID_OPEN) == Ok(begin)
    requires Find(data, slot + begin + 10, size - begin - 10, KID_CLOSE) == Ok(end)
    requires ValueSpan(data, slot + begin + 10, end) == Ok(span)
    requires Decode(data, span.key, span.length, ARRAY_SIZE) == Ok(id)
    ensures AttributeTurn(data, slot, size) == Ok(Next(id, begin + 10 + end + 12))
  {
    hide Decode, Find, ValueSpan, Encode;
  }

  lemma PlacesTurn(data: seq<byte>, slot: nat, text: seq<byte>, p: nat, i: nat, v: nat, u: nat, c: nat,
                   id: seq<byte>)
    requires Reads(data, slot, text) && 2 * |text| <= LAST_OFFSET + 2 && |id| == KEY_LENGTH
    requires p <= i && i + 5 <= v && v + 5 <= u && u + 26 <= c && c + 6 < |text|
    requires FirstAt(text, KID_OPEN, p, i) && FirstAt(text, KID_CLOSE, i + 5, c) && FirstAt(text, VALUE, i + 5, v)
    requires FirstAt(text, QUOTE, v + 5, u) && FirstAt(text, QUOTE, u + 1, u + 25)
    requires Holds(text, u + 1, Encode(id)) && |Encode(id)| == 24
    ensures AttributeTurn(data, slot + 2 * p, 2 * (|text| - 1 - p)) == Ok(Next(id, 2 * (c + 6 - p)))
  {
    hide Encode, Decode, Find, ValueSpan, Reads, FirstAt;
    FindsAt(data, slot, text, p, |text| - 1, KID_OPEN, i);
    FindsAt(data, slot, text, i + 5, |text| - 1, KID_CLOSE, c);
    FindsAt(data, slot, text, i + 5, c, VALUE, v);
    FindsAt(data, slot, text, v + 5, c, QUOTE, u);
    FindsAt(data, slot, text, u + 1, c - 1, QUOTE, u + 25);
    DecodesId(data, slot, text, u + 1, id, 46);
    SpanFound(data, slot + 2 * (i + 5), 2 * (c - i - 5), 2 * (v - i - 5), 2 * (u - v - 5), 48);
    AttributeFinds(data, slot + 2 * p, 2 * (|text| - 1 - p), 2 * (i - p), 2 * (c - i - 5),
                   Span(slot + 2 * (u + 1), 46), id);
  }

  /** One turn of the second loop. */
  lemma AttributeStep(data: seq<byte>, slot: nat, text: seq<byte>, p: nat, i: nat, e: Element)
    requires e.Attributed? && GoodElement(e) && Reads(data, slot, text) && 2 * |text| <= LAST_OFFSET + 2
    requires p <= i && FirstAt(text, KID_OPEN, p, i)
    requires Holds(text, i, ElementText(e)) && i + |ElementText(e)| < |text|
    ensures AttributeTurn(data, slot + 2 * p, 2 * (|text| - 1 - p))
         == Ok(Next(e.id, 2 * (i + |ElementText(e)| - p)))
  {
    hide Encode, Decode, Find, Reads, AttributeTurn, ElementText;
    HoldsAttributed(text, i, e);
    InnerNoAngle(text, i, e);
    EncodeAlphabet(e.id);
    EncodeLength(e.id);
    var v := i + 5 + |e.before|;
    var u := v + 5 + |e.between|;
    var c := u + 26 + |e.after|;
    CloseAt(text, i + 5, c);
    ValueAt(text, i + 5, v, e.before);
    QuoteAt(text, v + 5, u, e.between);
    QuoteAt(text, u + 1, u + 25, Encode(e.id));
    PlacesTurn(data, slot, text, p, i, v, u, c, e.id);
  }

  lemma ValueAt(text: seq<byte>, from: nat, k: nat, here: seq<byte>)
    requires k == from + |here| && Holds(text, from, here) && Holds(text, k, VALUE) && Free(here, VALUE)
    ensures FirstAt(text, VALUE, from, k)
  {
    FirstBehind(text, VALUE, from, k);
  }

  lemma QuoteAt(text: seq<byte>, from: nat, k: nat, here: seq<byte>)
    requires k == from + |here| && Holds(text, from, here) && Holds(text, k, QUOTE) && 34 !in here
    ensures FirstAt(text, QUOTE, from, k)
  {
    forall j | from <= j < k ensures !At(text, QUOTE, j) {
      HoldsAt(text, from, here, j - from);
      NotAt(text, QUOTE, j, 0);
    }
  }

  lemma {:induction false} AttributeRound(data: seq<byte>, slot: nat, text: seq<byte>, p: nat,
                                          parts: seq<Part>, tail: seq<byte>, b: byte)
    requires GoodParts(parts) && AllAttributed(parts) && GoodTail(tail)
    requires Reads(data, slot, text) && 2 * |text| <= LAST_OFFSET + 2
    requires Ends(text, p, Rest(parts, tail, b))
    ensures p < |text|
    ensures slot + 2 * p <= |data| + 1 && AttributeFalls(data, slot + 2 * p, 2 * (|text| - 1 - p))
    ensures var end := AttributePass(data, slot + 2 * p, 2 * (|text| - 1 - p));
            end.Ok? && end.value.found == Ids(parts)
    decreases |parts|
  {
    hide Decode, Find, Encode, AttributeTurn, ElementText, PartsText, Reads, AttributePass, AttributeFalls;
    if parts == [] {
      AttributeEnd(data, slot, text, p, tail, b);
    } else {
      var q := p + |PartText(parts[0])|;
      GoodPartsRest(parts);
      RestSplit(text, p, parts, tail, b);
      AttributeRound(data, slot, text, q, parts[1..], tail, b);
      AttributeCase(data, slot, text, p, parts[0]);
      AttributeFallsNext(data, slot + 2 * p, 2 * (|text| - 1 - p), parts[0].element.id,
                         slot + 2 * q, 2 * (|text| - 1 - q));
      IdsStep(parts);
    }
  }

  lemma AttributeCase(data: seq<byte>, slot: nat, text: seq<byte>, p: nat, part: Part)
    requires GoodPart(part) && part.element.Attributed?
    requires Reads(data, slot, text) && 2 * |text| <= LAST_OFFSET + 2 && p + |PartText(part)| < |text|
    requires Holds(text, p, part.text) && Holds(text, p + |part.text|, ElementText(part.element))
    ensures var q := p + |PartText(part)|;
            && slot + 2 * q <= |data| + 1
            && AttributeTurn(data, slot + 2 * p, 2 * (|text| - 1 - p)) == Ok(Next(part.element.id, 2 * (q - p)))
            && AttributePass(data, slot + 2 * p, 2 * (|text| - 1 - p))
               == ExpectedFollowed(part.element.id, AttributePass(data, slot + 2 * q, 2 * (|text| - 1 - q)))
  {
    hide Encode, Decode, Find, AttributeTurn, Reads, AttributePass, ElementText;
    var i, q := p + |part.text|, p + |PartText(part)|;
    HoldsOpen(text, i, part.element);
    FirstBehind(text, KID_OPEN, p, i);
    AttributeStep(data, slot, text, p, i, part.element);
    ReadsBound(data, slot, text);
    AttributeNext(data, slot + 2 * p, 2 * (|text| - 1 - p), part.element.id, slot + 2 * q, 2 * (|text| - 1 - q));
    FollowedIs(part.element.id, AttributePass(data, slot + 2 * q, 2 * (|text| - 1 - q)));
  }

  lemma AttributeEnd(data: seq<byte>, slot: nat, text: seq<byte>, p: nat, tail: seq<byte>, b: byte)
    requires GoodTail(tail) && Reads(data, slot, text) && 2 * |text| <= LAST_OFFSET + 2
    requires Ends(text, p, Rest([], tail, b))
    ensures p < |text| && slot + 2 * p <= |data| + 1
    ensures AttributeFalls(data, slot + 2 * p, 2 * (|text| - 1 - p))
    ensures AttributePass(data, slot + 2 * p, 2 * (|text| - 1 - p))
         == Ok(Pass(slot + 2 * p, 2 * (|text| - 1 - p), []))
  {
    hide Decode, Find;
    Seqs.Nil(tail + [b]);
    assert Free(tail + [b], KID_OPEN);
    MissesFrom(data, slot, text, p, KID_OPEN);
  }

  lemma IdsStep(parts: seq<Part>)
    requires parts != []
    ensures Ids(parts) == [parts[0].element.id] + Ids(parts[1..])
  {
  }

  // ----- both loops

  lemma {:induction false} AfterRest(text: seq<byte>, q: nat, parts: seq<Part>, tail: seq<byte>, b: byte)
    requires GoodParts(parts) && Ends(text, q, Rest(parts, tail, b))
    ensures q + Consumed(parts) >= 0 && GoodParts(AfterSimple(parts))
    ensures Ends(text, q + Consumed(parts), Rest(AfterSimple(parts), tail, b))
    decreases |parts|
  {
    if !AllAttributed(parts) {
      RestSplit(text, q, parts, tail, b);
      AfterRest(text, q + |PartText(parts[0])|, parts[1..], tail, b);
    }
  }

  /** The UTF-16LE bytes with the given low and high bytes. */
  function Utf16(low: seq<byte>, high: seq<byte>): seq<byte>
    requires |low| == |high|
  {
    seq(2 * |low|, i requires 0 <= i < 2 * |low| => if i % 2 == 0 then low[i / 2] else high[i / 2])
  }

  lemma ReadsUtf16(data: seq<byte>, slot: nat, low: seq<byte>, high: seq<byte>)
    requires |low| == |high| && Holds(data, slot, Utf16(low, high)) && slot + 2 * |low| < |data|
    ensures Reads(data, slot, low + [data[slot + 2 * |low|]])
  {
    var text := low + [data[slot + 2 * |low|]];
    forall i | 0 <= i < |text| ensures Lows(data, slot, |text|)[i] == text[i] {
      if i < |low| {
        HoldsAt(data, slot, Utf16(low, high), 2 * i);
      }
    }
  }

  /** On every UTF-16LE header whose markers stand only at its elements, ParseXMLBox finds the ids of all
      `<KID>` elements in order, then those of the `<KID ...>` elements behind the last `<KID>` element, and
      the remaining size falls in every turn. */
  lemma XmlRoundTrip(data: seq<byte>, slot: nat, parts: seq<Part>, tail: seq<byte>, high: seq<byte>)
    requires GoodParts(parts) && GoodTail(tail) && |high| == |PartsText(parts) + tail|
    requires Holds(data, slot, Utf16(PartsText(parts) + tail, high))
    requires 2 * |high| <= LAST_OFFSET && slot + 2 * |high| < |data|
    ensures XmlIds(data, slot, 2 * |high|) == Ok(DocumentIds(parts))
    ensures AllFalls(data, slot, 2 * |high|)
  {
    hide Decode, Find, Encode, PartsText, Reads, SimplePass, AttributePass, SimpleIds, AfterSimple;
    hide SimpleFalls, AttributeFalls;
    var low := PartsText(parts) + tail;
    var b := data[slot + 2 * |low|];
    var text := low + [b];
    ReadsUtf16(data, slot, low, high);
    Seqs.Assoc(PartsText(parts), tail, [b]);
    assert text[0..] == text && text[0..0] == [];
    FreeWithout([], KID_TAG);
    SimpleRound(data, slot, text, 0, 0, parts, tail, b);
    AfterRest(text, 0, parts, tail, b);
    AttributeRound(data, slot, text, Consumed(parts), AfterSimple(parts), tail, b);
  }

  /** A `<KID ...>` element stands before a `<KID>` element. */
  predicate Misplaced(parts: seq<Part>)
  {
    exists i, j :: 0 <= i < j < |parts| && parts[i].element.Attributed? && parts[j].element.Simple?
  }

  /** All ids are found, in document order, exactly when no `<KID ...>` element stands before a `<KID>`
      element: the ids of such elements are passed over. */
  lemma {:induction false} AllIdsIff(parts: seq<Part>)
    ensures |DocumentIds(parts)| <= |parts|
    ensures DocumentIds(parts) == Ids(parts) <==> !Misplaced(parts)
    ensures DocumentIds(parts) == Ids(parts) <==> |DocumentIds(parts)| == |parts|
  {
    hide DocumentIds, Misplaced;
    if AllAttributed(parts) {
      NoSimple(parts);
    } else {
      AllIdsIff(parts[1..]);
      IdsStep(parts);
      DocumentStep(parts);
      MisplacedStep(parts);
    }
  }

  lemma DocumentStep(parts: seq<Part>)
    requires !AllAttributed(parts)
    ensures DocumentIds(parts)
         == (if parts[0].element.Simple? then [parts[0].element.id] else []) + DocumentIds(parts[1..])
  {
    var head := if parts[0].element.Simple? then [parts[0].element.id] else [];
    Seqs.Assoc(head, SimpleIds(parts[1..]), Ids(AfterSimple(parts)));
  }

  lemma MisplacedStep(parts: seq<Part>)
    requires !AllAttributed(parts)
    ensures Misplaced(parts) <==> parts[0].element.Attributed? || Misplaced(parts[1..])
  {
    var rest := parts[1..];
    if parts[0].element.Attributed? {
      var j :| 0 <= j < |parts| && !parts[j].element.Attributed?;
      assert 0 < j && parts[j].element.Simple?;
    }
    if Misplaced(rest) {
      var i, j :| 0 <= i < j < |rest| && rest[i].element.Attributed? && rest[j].element.Simple?;
      assert parts[i + 1].element.Attributed? && parts[j + 1].element.Simple?;
    }
    if Misplaced(parts) && parts[0].element.Simple? {
      var i, j :| 0 <= i < j < |parts| && parts[i].element.Attributed? && parts[j].element.Simple?;
      assert rest[i - 1].element.Attributed? && rest[j - 1].element.Simple?;
    }
  }

  lemma {:induction false} NoSimple(parts: seq<Part>)
    requires AllAttributed(parts)
    ensures SimpleIds(parts) == [] && DocumentIds(parts) == Ids(parts) && !Misplaced(parts)
  {
    if parts != [] {
      NoSimple(parts[1..]);
    }
  }

  /** A header in which the id of the first element is lost. */
  lemma MisplacedLost(id: seq<byte>) returns (parts: seq<Part>)
    requires |id| == KEY_LENGTH
    ensures GoodParts(parts) && Misplaced(parts) && Ids(parts) == [id, id] && DocumentIds(parts) == [id]
  {
    var first, second := Part([], Attributed([], [], id, [])), Part([], Simple(id));
    parts := [first, second];
    FreeWithout([], KID_TAG);
    FreeWithout([], KID_OPEN);
    FreeWithout([], VALUE);
    assert parts[0].element.Attributed? && parts[1].element.Simple?;
    assert parts[1..] == [second] && parts[1..][1..] == [];
    assert AllAttributed(parts[1..][1..]) && SimpleIds([]) == [] && SimpleIds([second]) == [id];
    assert AfterSimple(parts) == AfterSimple([second]) == [];
  }

  // ----- an empty VALUE

  /** `<KID VALUE=""></KID>`, of 40 bytes in UTF-16. */
  const EMPTY_VALUE: seq<byte> := KID_OPEN + VALUE + [61, 34, 34, 62] + KID_CLOSE

  /** The length of its key wraps to 254, but nothing behind the quote is inspected: the loop goes on behind it. */
  lemma EmptyValueGoesOn(data: seq<byte>, slot: nat)
    requires Reads(data, slot, EMPTY_VALUE + [0])
    ensures AttributeTurn(data, slot, 40) == Ok(Next([], 40))
  {
    hide Find, ValueSpan, Decode, Reads;
    var text := EMPTY_VALUE + [0];
    assert text[0..5] == KID_OPEN && text[5..10] == VALUE && text[14..20] == KID_CLOSE;
    assert text[11..12] == QUOTE && text[12..13] == QUOTE;
    NotAt(text, QUOTE, 10, 0);
    CloseAt(text, 5, 14);
    FindsAt(data, slot, text, 0, 20, KID_OPEN, 0);
    FindsAt(data, slot, text, 5, 20, KID_CLOSE, 14);
    FindsAt(data, slot, text, 5, 14, VALUE, 5);
    FindsAt(data, slot, text, 10, 14, QUOTE, 11);
    FindsAt(data, slot, text, 12, 13, QUOTE, 12);
    SpanFound(data, slot + 10, 18, 0, 2, 0);
    ReadsAt(data, slot, text, 12);
    QuoteDecoded(data, slot + 24, 254);
    AttributeFinds(data, slot, 40, 0, 18, Span(slot + 24, 254), []);
  }

  lemma ReadsAt(data: seq<byte>, slot: nat, text: seq<byte>, i: nat)
    requires Reads(data, slot, text) && i < |text|
    ensures slot + 2 * i < |data| && data[slot + 2 * i] == text[i]
  {
    assert Lows(data, slot, |text|)[i] == text[i];
  }

  /** Nothing is decoded from a quote on. */
  lemma QuoteDecoded(data: seq<byte>, pos: nat, length: byte)
    requires pos < |data| && data[pos] == 34
    ensures Decode(data, pos, length, ARRAY_SIZE) == Ok([])
  {
    GroupsStay(data, pos, 0, ARRAY_SIZE, (length + 1) / 2);
  }

  // ----- a size that wraps

  /** `<KID></KID>`, of 22 bytes in UTF-16. */
  const EMPTY_ELEMENT: seq<byte> := KID_TAG + KID_CLOSE

  /** A header of 20 bytes that holds an empty element but for its last character: the size wraps to 65534, and
      where no other tag follows in the next 64 KiB the search for it never ends. */
  lemma WrapNeverEnds(data: seq<byte>, slot: nat)
    requires Reads(data, slot, EMPTY_ELEMENT) && slot + 22 + WRAP - 2 < |data|
    requires Nowhere(data, slot + 22, 65534, KID_TAG)
    ensures SimpleTurn(data, slot, 20) == Ok(Next([], 22)) && U16(20 - 22) == 65534
    ensures XmlIds(data, slot, 20) == Endless
  {
    hide Find, Reads, Nowhere, Encode;
    assert EMPTY_ELEMENT[0..5] == KID_TAG && EMPTY_ELEMENT[5..11] == KID_CLOSE;
    FindsAt(data, slot, EMPTY_ELEMENT, 0, 10, KID_TAG, 0);
    FindsAt(data, slot, EMPTY_ELEMENT, 5, 10, KID_CLOSE, 5);
    NothingDecoded(data, slot + 10);
    SimpleFinds(data, slot, 20, 0, 0, []);
    FindEndlessIff(data, slot + 22, 65534, KID_TAG);
    assert SimplePass(data, slot + 22, 65534) == Endless;
    assert SimplePass(data, slot, 20) == Endless by {
      hide SimpleTurn;
    }
  }

  lemma NothingDecoded(data: seq<byte>, pos: nat)
    ensures Decode(data, pos, 0, ARRAY_SIZE) == Ok([])
  {
  }

  /** Such a buffer. */
  function Trap(): (data: seq<byte>)
    ensures |data| == 22 + WRAP
  {
    seq(22 + WRAP, i requires 0 <= i < 22 + WRAP => if i < 22 && i % 2 == 0 then EMPTY_ELEMENT[i / 2] else 0)
  }

  lemma TrapNeverEnds()
    ensures XmlIds(Trap(), 0, 20) == Endless
  {
    hide XmlIds;
    var data := Trap();
    assert Reads(data, 0, EMPTY_ELEMENT);
    forall t: nat ensures !Occurs(data, 22, 65534, KID_TAG, t) {
      if t < WRAP {
        NotSpelled(data, 22, KID_TAG, t, 0);
      }
    }
    WrapNeverEnds(data, 0);
  }
}
