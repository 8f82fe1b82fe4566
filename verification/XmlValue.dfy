/** Where the searches for the quoted key of a `<KID ...>` element look (plugin/CENCParser.h, ParseXMLBox). Their
    windows are computed without a look at what the searches before them found. */
module XmlValue {
  import opened Bytes
  import opened Outcomes
  import opened XmlSearch
  import opened PlayReadyXml

  /** The `<` of the end tag stands `end` bytes behind `<KID `. */
  predicate Tagged(data: seq<byte>, at: nat, end: u16)
  {
    end % 2 == 0 && end <= LAST_OFFSET && at + end < |data| && data[at + end] == 60
  }

  /** A quote stands in the element behind a VALUE, and is not its last character. */
  predicate Marked(data: seq<byte>, at: nat, end: u16)
  {
    exists v: nat, q: nat | v < end && q < end ::
      v % 2 == 0 && Spelled(data, at, VALUE, v) && QuoteBehind(data, at, end, v, q)
  }

  predicate QuoteBehind(data: seq<byte>, at: nat, end: u16, v: nat, q: nat)
  {
    q % 2 == 0 && v + 10 <= q && q + 4 <= end && IsQuote(data, at, q)
  }

  predicate IsQuote(data: seq<byte>, at: nat, q: nat) { at + q < |data| && data[at + q] == 34 }

  /** What decides whether a search for a quote ends inside the readable bytes: a quote is met, or the end of a
      window that does not wrap can be read. */
  predicate Met(data: seq<byte>, from: nat, length: u16)
  {
    || (exists r | 0 <= r < WRAP :: Occurs(data, from, length, QUOTE, r))
    || (length <= LAST_OFFSET && from + length - length % 2 < |data|)
  }

  lemma MetIff(data: seq<byte>, from: nat, length: u16)
    ensures Find(data, from, length, QUOTE).Ok? <==> Met(data, from, length)
  {
    hide Find, Occurs;
    FindOkIff(data, from, length, QUOTE);
    if r: nat :| Occurs(data, from, length, QUOTE, r) {
      OccursBelow(data, from, length, r);
    }
  }

  lemma OccursBelow(data: seq<byte>, from: nat, length: u16, r: nat)
    requires Occurs(data, from, length, QUOTE, r)
    ensures r < WRAP
  {
  }

  lemma QuoteIs(data: seq<byte>, from: nat, length: u16, r: nat)
    requires length <= LAST_OFFSET
    ensures Occurs(data, from, length, QUOTE, r)
       <==> r % 2 == 0 && r <= length && from + r < |data| && data[from + r] == 34
  {
    if r < WRAP && from + r < |data| && data[from + r] == 34 {
      assert Cursor(r + 2 * 0) == r;
    }
  }

  /** An occurrence of VALUE ends in front of the end tag. */
  lemma ValueInside(data: seq<byte>, at: nat, end: u16, v: nat)
    requires Tagged(data, at, end)
    ensures Occurs(data, at, end, VALUE, v) <==> v % 2 == 0 && v + 10 <= end && Spelled(data, at, VALUE, v)
  {
    if v + 8 == end {
      NotSpelled(data, at, VALUE, v, 4);
    }
  }

  /** The quote in front of the key: the first one behind the VALUE, or none. */
  lemma FirstQuote(data: seq<byte>, at: nat, end: u16, v: nat)
    requires Tagged(data, at, end) && v % 2 == 0 && v + 10 <= end
    ensures var found := Find(data, at + v + 10, end - v - 10, QUOTE);
            && found.Ok?
            && var r := found.value;
            && (r == end - v - 8 || (r % 2 == 0 && v + 10 + r + 2 <= end && data[at + v + 10 + r] == 34))
            && forall q: nat :: v + 10 <= q < v + 10 + r && q < end && q % 2 == 0 ==> !IsQuote(data, at, q)
  {
    hide Find, Occurs;
    var from, window := at + v + 10, end - v - 10;
    MetIff(data, from, window);
    FindAnswers(data, from, window, QUOTE);
    var r := Find(data, from, window, QUOTE).value;
    QuoteIs(data, from, window, r);
    forall q: nat | v + 10 <= q < v + 10 + r && q < end && q % 2 == 0 ensures !IsQuote(data, at, q) {
      QuoteIs(data, from, window, q - v - 10);
    }
  }

  /** Behind a VALUE, all that is left depends on the first quote. */
  lemma SpanBehind(data: seq<byte>, at: nat, end: u16, v: nat)
    requires Tagged(data, at, end) && Find(data, at, end, VALUE) == Ok(v) && v % 2 == 0 && v + 10 <= end
    ensures Find(data, at + v + 10, end - v - 10, QUOTE).Ok?
    ensures var r := Find(data, at + v + 10, end - v - 10, QUOTE).value;
            if v + 10 + r + 4 <= end then
              ValueSpan(data, at, end).Ok? && ValueSpan(data, at, end).value.key == at + v + 10 + r + 2
            else if v + 10 + r + 2 == end then ValueSpan(data, at, end).Ok? <==> Met(data, at + end, 65534)
            else ValueSpan(data, at, end).Ok? <==> Met(data, at + end + 4, 65530)
    ensures ValueSpan(data, at, end).Ok? ==>
              var r := Find(data, at + v + 10, end - v - 10, QUOTE).value;
              (ValueSpan(data, at, end).value.key < at + end <==> v + 10 + r + 4 <= end)
  {
    hide Find, Met;
    FirstQuote(data, at, end, v);
    var r := Find(data, at + v + 10, end - v - 10, QUOTE).value;
    var key := at + v + 10 + r + 2;
    if v + 10 + r + 4 <= end {
      MetIff(data, key, end - v - 10 - (r + 2) - 2);
      assert Met(data, key, end - v - 10 - (r + 2) - 2) by { WindowMet(data, at, end, key); }
    } else if v + 10 + r + 2 == end {
      MetIff(data, at + end, 65534);
    } else {
      MetIff(data, at + end + 4, 65530);
    }
  }

  lemma WindowMet(data: seq<byte>, at: nat, end: u16, key: nat)
    requires Tagged(data, at, end) && at <= key && key + 2 <= at + end
    ensures Met(data, key, at + end - 2 - key)
  {
    hide Occurs;
  }

  /** Without a VALUE, the first quote is looked for behind the element. */
  lemma SpanNowhere(data: seq<byte>, at: nat, end: u16)
    requires Tagged(data, at, end) && Find(data, at, end, VALUE) == Ok(end + 2)
    ensures ValueSpan(data, at, end).Ok? <==> BothMet(data, at + end + 12)
    ensures ValueSpan(data, at, end).Ok? ==> at + end <= ValueSpan(data, at, end).value.key
  {
    hide Find, Met;
    MetIff(data, at + end + 12, 65524);
    if Find(data, at + end + 12, 65524, QUOTE).Ok? {
      var first := U16(Find(data, at + end + 12, 65524, QUOTE).value + 2);
      MetIff(data, at + end + 12 + first, U16(65522 - first as int));
    }
  }

  /** The two searches for quotes whose windows wrap, behind an element without a VALUE. */
  predicate BothMet(data: seq<byte>, from: nat)
  {
    && Met(data, from, 65524)
    && var quote := Find(data, from, 65524, QUOTE);
    quote.Ok? && var first := U16(quote.value + 2); Met(data, from + first, U16(65522 - first as int))
  }

  lemma ValueFound(data: seq<byte>, at: nat, end: u16)
    requires Tagged(data, at, end)
    ensures Find(data, at, end, VALUE).Ok?
    ensures var v := Find(data, at, end, VALUE).value;
            if v > end then v == end + 2 && Nowhere(data, at, end, VALUE)
            else
              && v % 2 == 0 && v + 10 <= end && Spelled(data, at, VALUE, v) && !Nowhere(data, at, end, VALUE)
              && forall t: nat :: t < v ==> !Occurs(data, at, end, VALUE, t)
  {
    hide Find, Occurs, Spelled;
    FindOkIff(data, at, end, VALUE);
    FindAnswers(data, at, end, VALUE);
    var v := Find(data, at, end, VALUE).value;
    ValueInside(data, at, end, v);
  }

  lemma NotMarked(data: seq<byte>, at: nat, end: u16)
    requires Tagged(data, at, end) && Nowhere(data, at, end, VALUE)
    ensures !Marked(data, at, end)
  {
    hide Occurs, Spelled;
    forall v: nat, q: nat | v < end && q < end
      ensures v % 2 != 0 || !Spelled(data, at, VALUE, v) || !QuoteBehind(data, at, end, v, q)
    {
      ValueInside(data, at, end, v);
    }
  }

  /** The first VALUE has a quote behind it if any has. */
  lemma MarkedIff(data: seq<byte>, at: nat, end: u16, v: nat)
    requires Tagged(data, at, end) && v % 2 == 0 && v + 10 <= end && Spelled(data, at, VALUE, v)
    requires forall t: nat :: t < v ==> !Occurs(data, at, end, VALUE, t)
    ensures Find(data, at + v + 10, end - v - 10, QUOTE).Ok?
    ensures var r := Find(data, at + v + 10, end - v - 10, QUOTE).value;
            && r % 2 == 0 && (Marked(data, at, end) <==> v + 10 + r + 4 <= end)
            && (v + 10 + r + 2 == end ==> data[at + end - 2] == 34)
            && (v + 10 + r + 2 > end ==> data[at + end - 2] != 34)
  {
    hide Find, Occurs, Spelled;
    FirstQuote(data, at, end, v);
    var r := Find(data, at + v + 10, end - v - 10, QUOTE).value;
    if v + 10 + r + 4 <= end {
      assert QuoteBehind(data, at, end, v, v + 10 + r);
    } else {
      forall v': nat, q: nat | v' < end && q < end
        ensures v' % 2 != 0 || !Spelled(data, at, VALUE, v') || !QuoteBehind(data, at, end, v', q)
      {
        ValueInside(data, at, end, v');
      }
      LastOfValue(data, at, end, v);
      var last: nat := end - 2;
      assert v + 10 + r + 2 > end && v + 10 <= last ==> !IsQuote(data, at, last);
    }
  }

  lemma LastOfValue(data: seq<byte>, at: nat, end: u16, v: nat)
    requires Tagged(data, at, end) && v + 10 <= end && Spelled(data, at, VALUE, v)
    ensures v + 10 == end ==> data[at + end - 2] != 34
  {
    if v + 10 == end {
      assert Cursor(v + 2 * 4) == end - 2 && data[at + Cursor(v + 2 * 4)] == VALUE[4];
    }
  }

  /** The searches for the key stay inside the element, and so inside the readable bytes, exactly when a quote
      stands in it behind a VALUE and is not its last character. Else a window wraps and reaches up to 64 KiB
      behind the element, and they stay inside the readable bytes exactly when the quotes are met there, or no
      byte of the window is missing: without a VALUE from 12 bytes behind the `<` of the end tag on, without a
      quote from four bytes behind it on, and with a quote in front of it from itself on. */
  lemma SpanOkIff(data: seq<byte>, at: nat, end: u16)
    requires Tagged(data, at, end)
    ensures ValueSpan(data, at, end).Ok? <==>
              if Marked(data, at, end) then true
              else if Nowhere(data, at, end, VALUE) then BothMet(data, at + end + 12)
              else if data[at + end - 2] == 34 then Met(data, at + end, 65534)
              else Met(data, at + end + 4, 65530)
    ensures ValueSpan(data, at, end).Ok? ==>
              (ValueSpan(data, at, end).value.key < at + end <==> Marked(data, at, end))
  {
    hide Find, Met, Occurs, BothMet, ValueSpan, Marked, QuoteBehind;
    ValueFound(data, at, end);
    var v := Find(data, at, end, VALUE).value;
    if v > end {
      NotMarked(data, at, end);
      SpanNowhere(data, at, end);
    } else {
      SpanBehind(data, at, end, v);
      MarkedIff(data, at, end, v);
    }
  }

  /** So it is in every turn that finds its two tags. */
  lemma TagStands(data: seq<byte>, at: nat, window: u16, end: nat)
    requires window <= LAST_OFFSET && Find(data, at, window, KID_CLOSE) == Ok(end) && end < window
    ensures end < 0x1_0000 && Tagged(data, at, end)
  {
    hide Find;
    FindAnswers(data, at, window, KID_CLOSE);
    assert at + Cursor(end + 2 * 0) < |data| && data[at + Cursor(end + 2 * 0)] == KID_CLOSE[0];
  }

  /** `<KID ></KID>`, of 24 bytes in UTF-16. */
  const NO_VALUE: seq<byte> := KID_OPEN + [62] + KID_CLOSE

  /** Where it is the last that can be read, but for one character, the search for a quote leaves the readable
      bytes. */
  function LastElement(): (data: seq<byte>)
    ensures |data| == 26
  {
    seq(26, i requires 0 <= i < 26 => if i < 24 && i % 2 == 0 then NO_VALUE[i / 2] else 0)
  }

  lemma LastReads()
    ensures Reads(LastElement(), 0, NO_VALUE + [0])
  {
    assert Lows(LastElement(), 0, 13) == NO_VALUE + [0];
  }

  lemma NoSimpleTag()
    ensures Free(NO_VALUE + [0], KID_TAG)
  {
    var text := NO_VALUE + [0];
    forall k: nat ensures !At(text, KID_TAG, k) {
      NotAt(text, KID_TAG, k, if k == 0 then 4 else if k == 6 then 1 else 0);
    }
  }

  /** Without a VALUE, the window in which the quote is looked for is one of 65524 bytes. */
  lemma SpanLeaves(data: seq<byte>)
    requires Tagged(data, 10, 2) && |data| == 26 && data[24] != 34
    ensures ValueSpan(data, 10, 2) == Wild
  {
    hide Find, Occurs;
    ValueFound(data, 10, 2);
    MetIff(data, 24, 65524);
    FindEndlessIff(data, 24, 65524, QUOTE);
    forall r | 0 <= r < WRAP ensures !Occurs(data, 24, 65524, QUOTE, r) {
      QuoteIs(data, 24, 65524, r);
    }
  }

  /** The header whose only element holds no VALUE: the first loop finds nothing, and the second one leaves the
      readable bytes. */
  lemma NoValueLeaves()
    ensures XmlIds(LastElement(), 0, 24) == Wild
  {
    hide Find, ValueSpan, Reads;
    var data, text := LastElement(), NO_VALUE + [0];
    LastReads();
    assert text[0..5] == KID_OPEN && text[6..12] == KID_CLOSE && text[0..] == text;
    NoSimpleTag();
    MissesFrom(data, 0, text, 0, KID_TAG);
    CloseAt(text, 5, 6);
    FindsAt(data, 0, text, 0, 12, KID_OPEN, 0);
    FindsAt(data, 0, text, 5, 12, KID_CLOSE, 6);
    SpanLeaves(data);
    assert SimplePass(data, 0, 24) == Ok(Pass(0, 24, []));
  }
}
