/** The search for an ASCII key in UTF-16LE text (plugin/CENCParser.h, FindInXML).

    Only the bytes at even offsets are compared, and the byte at offset `length` itself is inspected. The
    cursor has 16 bits: when `length` is 65534 or 65535 it wraps, and the search goes round and round. */
module XmlSearch {
  import opened Bytes
  import opened Outcomes

  /** The cursor wraps only in searches that are longer. */
  const LAST_OFFSET := 65533
  const WRAP := 0x1_0000

  /** An offset as the cursor holds it. */
  function Cursor(n: nat): nat { if n < WRAP then n else n - WRAP }

  /** The run of a search that does not wrap, with candidate start `s` and `i` characters already matched. */
  function Scan(data: seq<byte>, slot: nat, length: u16, key: seq<byte>, s: nat, i: nat): Outcome<nat>
    requires i <= |key|
    decreases length + 2 - s, |key| - i
  {
    if i == |key| then Ok(s)
    else if s + 2 * i > length then Ok(s + 2 * i)
    else if slot + s + 2 * i >= |data| then Wild
    else if data[slot + s + 2 * i] == key[i] then Scan(data, slot, length, key, s, i + 1)
    else Scan(data, slot, length, key, s + 2, 0)
  }

  /** The run of a search that wraps. Once the last candidate has failed, it is where it began. */
  function Around(data: seq<byte>, slot: nat, key: seq<byte>, s: nat, i: nat): Outcome<nat>
    requires i <= |key| && s < WRAP
    decreases WRAP - s, |key| - i
  {
    if i == |key| then Ok(s)
    else if slot + Cursor(s + 2 * i) >= |data| then Wild
    else if data[slot + Cursor(s + 2 * i)] == key[i] then Around(data, slot, key, s, i + 1)
    else if s + 2 < WRAP then Around(data, slot, key, s + 2, 0)
    else Endless
  }

  function Find(data: seq<byte>, slot: nat, length: u16, key: seq<byte>): Outcome<nat>
  {
    if length <= LAST_OFFSET then Scan(data, slot, length, key, 0, 0) else Around(data, slot, key, 0, 0)
  }

  /** `key` is spelled by the low bytes from offset `s` on, going round at the wrap. */
  predicate Spelled(data: seq<byte>, slot: nat, key: seq<byte>, s: nat)
  {
    forall i :: 0 <= i < |key| ==>
      slot + Cursor(s + 2 * i) < |data| && data[slot + Cursor(s + 2 * i)] == key[i]
  }

  /** An occurrence that the search can see: its last inspected byte is at most `length`, or it goes round. */
  predicate Occurs(data: seq<byte>, slot: nat, length: u16, key: seq<byte>, s: nat)
  {
    s % 2 == 0 && s < WRAP && (s + 2 * |key| <= length + 2 || length > LAST_OFFSET) && Spelled(data, slot, key, s)
  }

  ghost predicate Nowhere(data: seq<byte>, slot: nat, length: u16, key: seq<byte>)
  {
    forall t: nat :: !Occurs(data, slot, length, key, t)
  }

  /** `r` answers the search: the least occurrence, or the first even offset past the window. */
  ghost predicate Answers(data: seq<byte>, slot: nat, length: u16, key: seq<byte>, r: nat)
  {
    if r <= length
    then Occurs(data, slot, length, key, r) && forall t: nat :: t < r ==> !Occurs(data, slot, length, key, t)
    else length <= LAST_OFFSET && r == length + 2 - length % 2 && Nowhere(data, slot, length, key)
  }

  /** The first `i` characters match at `s`. */
  predicate Matched(data: seq<byte>, slot: nat, key: seq<byte>, s: nat, i: nat)
    requires i <= |key|
  {
    Spelled(data, slot, key[..i], s)
  }

  lemma MatchedMore(data: seq<byte>, slot: nat, key: seq<byte>, s: nat, i: nat)
    requires i < |key| && Matched(data, slot, key, s, i)
    requires slot + Cursor(s + 2 * i) < |data| && data[slot + Cursor(s + 2 * i)] == key[i]
    ensures Matched(data, slot, key, s, i + 1)
  {
  }

  lemma MatchedAll(data: seq<byte>, slot: nat, key: seq<byte>, s: nat)
    ensures Matched(data, slot, key, s, 0)
    ensures Matched(data, slot, key, s, |key|) <==> Spelled(data, slot, key, s)
  {
    assert key[..|key|] == key;
  }

  lemma {:induction false} ScanAnswers(data: seq<byte>, slot: nat, length: u16, key: seq<byte>, s: nat, i: nat)
    requires 0 < |key| && i <= |key| && s % 2 == 0 && s <= length + 2 && length <= LAST_OFFSET
    requires Matched(data, slot, key, s, i) && (0 < i ==> s + 2 * i <= length + 2)
    requires forall t: nat :: t < s ==> !Occurs(data, slot, length, key, t)
    requires Scan(data, slot, length, key, s, i).Ok?
    ensures Answers(data, slot, length, key, Scan(data, slot, length, key, s, i).value)
    decreases length + 2 - s, |key| - i
  {
    hide Spelled, Matched;
    if i == |key| {
      MatchedAll(data, slot, key, s);
    } else if s + 2 * i > length {
      forall t: nat ensures !Occurs(data, slot, length, key, t) {
        assert t < s || t + 2 * |key| > length + 2 || t == s;
      }
    } else if data[slot + s + 2 * i] == key[i] {
      MatchedMore(data, slot, key, s, i);
      ScanAnswers(data, slot, length, key, s, i + 1);
    } else {
      NotSpelled(data, slot, key, s, i);
      forall t: nat | t < s + 2 ensures !Occurs(data, slot, length, key, t) {
        assert t < s || t == s || t % 2 == 1;
      }
      MatchedAll(data, slot, key, s + 2);
      ScanAnswers(data, slot, length, key, s + 2, 0);
    }
  }

  lemma NotSpelled(data: seq<byte>, slot: nat, key: seq<byte>, s: nat, i: nat)
    requires i < |key|
    requires slot + Cursor(s + 2 * i) < |data| ==> data[slot + Cursor(s + 2 * i)] != key[i]
    ensures !Spelled(data, slot, key, s)
  {
  }

  /** A search that goes round ends at its first occurrence, and never if there is none. */
  lemma {:induction false} AroundAnswers(data: seq<byte>, slot: nat, length: u16, key: seq<byte>, s: nat, i: nat)
    requires 0 < |key| < 0x100 && i <= |key| && s % 2 == 0 && s < WRAP && length > LAST_OFFSET
    requires Matched(data, slot, key, s, i)
    requires forall t: nat :: t < s ==> !Occurs(data, slot, length, key, t)
    ensures var r := Around(data, slot, key, s, i);
            && (r.Ok? ==> Answers(data, slot, length, key, r.value))
            && (r.Endless? ==> Nowhere(data, slot, length, key))
    decreases WRAP - s, |key| - i
  {
    hide Spelled, Matched;
    if i == |key| {
      MatchedAll(data, slot, key, s);
    } else if slot + Cursor(s + 2 * i) < |data| {
      if data[slot + Cursor(s + 2 * i)] == key[i] {
        MatchedMore(data, slot, key, s, i);
        AroundAnswers(data, slot, length, key, s, i + 1);
      } else {
        NotSpelled(data, slot, key, s, i);
        forall t: nat | t < s + 2 ensures !Occurs(data, slot, length, key, t) {
          assert t < s || t == s || t % 2 == 1;
        }
        if s + 2 < WRAP {
          MatchedAll(data, slot, key, s + 2);
          AroundAnswers(data, slot, length, key, s + 2, 0);
        }
      }
    }
  }

  /** The search returns the least even offset at which the key occurs, or the first even offset past the
      window when it occurs nowhere, in spite of restarting inside a partial match. */
  lemma FindAnswers(data: seq<byte>, slot: nat, length: u16, key: seq<byte>)
    requires 0 < |key| < 0x100
    requires Find(data, slot, length, key).Ok?
    ensures Answers(data, slot, length, key, Find(data, slot, length, key).value)
  {
    hide Scan, Around;
    MatchedAll(data, slot, key, 0);
    if length <= LAST_OFFSET {
      ScanAnswers(data, slot, length, key, 0, 0);
    } else {
      AroundAnswers(data, slot, length, key, 0, 0);
    }
  }

  /** An occurrence in a search that does not wrap lies in the buffer up to its last low byte. */
  lemma FoundReadable(data: seq<byte>, slot: nat, length: u16, key: seq<byte>)
    requires 0 < |key| < 0x100 && length <= LAST_OFFSET
    requires Find(data, slot, length, key).Ok? && Find(data, slot, length, key).value <= length
    ensures slot + Find(data, slot, length, key).value + 2 * (|key| - 1) < |data|
  {
    hide Find;
    FindAnswers(data, slot, length, key);
    var r := Find(data, slot, length, key).value;
    assert Spelled(data, slot, key, r);
    assert slot + Cursor(r + 2 * (|key| - 1)) < |data|;
  }

  /** The search stays inside the buffer as long as an occurrence lies ahead, or the window is readable. */
  lemma {:induction false} ScanOk(data: seq<byte>, slot: nat, length: u16, key: seq<byte>, s: nat, i: nat, r: nat)
    requires i <= |key| && s % 2 == 0 && length <= LAST_OFFSET
    requires (s <= r && Occurs(data, slot, length, key, r)) || slot + length - length % 2 < |data|
    ensures Scan(data, slot, length, key, s, i).Ok?
    decreases length + 2 - s, |key| - i
  {
    if i == |key| || s + 2 * i > length {
    } else {
      if s <= r && Occurs(data, slot, length, key, r) {
        assert slot + Cursor(r + 2 * (|key| - 1)) < |data|;
      }
      if data[slot + s + 2 * i] == key[i] {
        ScanOk(data, slot, length, key, s, i + 1, r);
      } else {
        NotSpelled(data, slot, key, s, i);
        ScanOk(data, slot, length, key, s + 2, 0, r);
      }
    }
  }

  /** A search that goes round finds an occurrence that lies ahead; it ends nowhere else but outside of the
      buffer. */
  lemma {:induction false} AroundOk(data: seq<byte>, slot: nat, length: u16, key: seq<byte>, s: nat, i: nat, r: nat)
    requires 0 < |key| < 0x100 && i <= |key| && s % 2 == 0 && s <= r && length > LAST_OFFSET
    requires Occurs(data, slot, length, key, r)
    ensures Around(data, slot, key, s, i).Ok?
    decreases WRAP - s, |key| - i
  {
    if i < |key| {
      ReadsUpTo(data, slot, key, s, i, r);
      if data[slot + Cursor(s + 2 * i)] == key[i] {
        AroundOk(data, slot, length, key, s, i + 1, r);
      } else {
        NotSpelled(data, slot, key, s, i);
        AroundOk(data, slot, length, key, s + 2, 0, r);
      }
    }
  }

  /** What is compared before an occurrence is readable, as the occurrence is. */
  lemma ReadsUpTo(data: seq<byte>, slot: nat, key: seq<byte>, s: nat, i: nat, r: nat)
    requires i < |key| < 0x100 && s <= r < WRAP && s % 2 == 0 && r % 2 == 0 && Spelled(data, slot, key, r)
    ensures slot + Cursor(s + 2 * i) < |data|
  {
    var last := |key| - 1;
    if r + 2 * last < WRAP {
      assert slot + Cursor(r + 2 * last) < |data|;
    } else {
      var j := (WRAP - 2 - r) / 2;
      assert r + 2 * j == WRAP - 2 && j <= last;
      assert slot + Cursor(r + 2 * j) < |data|;
    }
  }

  /** Without an occurrence, and with all bytes readable, a search that goes round does so forever. */
  lemma {:induction false} AroundReadable(data: seq<byte>, slot: nat, key: seq<byte>, s: nat, i: nat)
    requires |key| < 0x100 && i <= |key| && s % 2 == 0 && s < WRAP && slot + WRAP - 2 < |data|
    ensures !Around(data, slot, key, s, i).Wild?
    decreases WRAP - s, |key| - i
  {
    if i < |key| {
      if data[slot + Cursor(s + 2 * i)] == key[i] {
        AroundReadable(data, slot, key, s, i + 1);
      } else if s + 2 < WRAP {
        AroundReadable(data, slot, key, s + 2, 0);
      }
    }
  }

  /** An endless search has compared the byte at the last even offset. */
  lemma {:induction false} EndlessReads(data: seq<byte>, slot: nat, key: seq<byte>, s: nat, i: nat)
    requires i < |key| < 0x100 && s % 2 == 0 && s < WRAP && Around(data, slot, key, s, i).Endless?
    requires s + 2 * i <= WRAP - 2 || slot + WRAP - 2 < |data|
    ensures slot + WRAP - 2 < |data|
    decreases WRAP - s, |key| - i
  {
    if slot + WRAP - 2 >= |data| {
      if data[slot + Cursor(s + 2 * i)] == key[i] {
        EndlessReads(data, slot, key, s, i + 1);
      } else if s + 2 < WRAP {
        EndlessReads(data, slot, key, s + 2, 0);
      }
    }
  }

  /** Exactly when the search ends: an occurrence is reached, or there is none and the whole window can be
      read without a wrap. */
  lemma FindOkIff(data: seq<byte>, slot: nat, length: u16, key: seq<byte>)
    requires 0 < |key| < 0x100
    ensures Find(data, slot, length, key).Ok? <==>
            || (exists r: nat :: Occurs(data, slot, length, key, r))
            || (length <= LAST_OFFSET && slot + length - length % 2 < |data|)
  {
    hide Scan, Around, Spelled;
    if r: nat :| Occurs(data, slot, length, key, r) {
      if length <= LAST_OFFSET {
        ScanOk(data, slot, length, key, 0, 0, r);
      } else {
        AroundOk(data, slot, length, key, 0, 0, r);
      }
    } else if length <= LAST_OFFSET && slot + length - length % 2 < |data| {
      ScanOk(data, slot, length, key, 0, 0, 0);
    } else if Find(data, slot, length, key).Ok? {
      FindAnswers(data, slot, length, key);
      if length <= LAST_OFFSET {
        ScanReads(data, slot, length, key, 0, 0);
      }
    }
  }

  /** Exactly when the search never ends: it goes round over readable bytes in which the key does not occur. */
  lemma FindEndlessIff(data: seq<byte>, slot: nat, length: u16, key: seq<byte>)
    requires 0 < |key| < 0x100
    ensures Find(data, slot, length, key).Endless? <==>
            length > LAST_OFFSET && slot + WRAP - 2 < |data| && Nowhere(data, slot, length, key)
  {
    hide Scan, Around, Spelled;
    MatchedAll(data, slot, key, 0);
    if length <= LAST_OFFSET {
      NotEndless(data, slot, length, key, 0, 0);
    } else {
      AroundAnswers(data, slot, length, key, 0, 0);
      if Find(data, slot, length, key).Endless? {
        EndlessReads(data, slot, key, 0, 0);
      } else if slot + WRAP - 2 < |data| {
        AroundReadable(data, slot, key, 0, 0);
      }
    }
  }

  lemma {:induction false} NotEndless(data: seq<byte>, slot: nat, length: u16, key: seq<byte>, s: nat, i: nat)
    requires i <= |key|
    ensures !Scan(data, slot, length, key, s, i).Endless?
    decreases length + 2 - s, |key| - i
  {
    if i < |key| && s + 2 * i <= length && slot + s + 2 * i < |data| {
      if data[slot + s + 2 * i] == key[i] {
        NotEndless(data, slot, length, key, s, i + 1);
      } else {
        NotEndless(data, slot, length, key, s + 2, 0);
      }
    }
  }

  /** What a completed run has read. */
  lemma {:induction false} ScanReads(data: seq<byte>, slot: nat, length: u16, key: seq<byte>, s: nat, i: nat)
    requires 0 < |key| && i <= |key| && s % 2 == 0 && length <= LAST_OFFSET
    requires 0 < s || 0 < i ==> s + 2 * i <= length + 2 && slot + s + 2 * i < |data| + 2
    requires Scan(data, slot, length, key, s, i).Ok?
    ensures var r := Scan(data, slot, length, key, s, i).value;
            r > length ==> slot + length - length % 2 < |data|
    decreases length + 2 - s, |key| - i
  {
    if i == |key| || s + 2 * i > length {
    } else if data[slot + s + 2 * i] == key[i] {
      ScanReads(data, slot, length, key, s, i + 1);
    } else {
      ScanReads(data, slot, length, key, s + 2, 0);
    }
  }

  /** The result fits the 16-bit cursor. */
  lemma FindFits(data: seq<byte>, slot: nat, length: u16, key: seq<byte>)
    requires 0 < |key| < 0x100 && Find(data, slot, length, key).Ok?
    ensures Find(data, slot, length, key).value < WRAP
  {
    hide Find;
    FindAnswers(data, slot, length, key);
  }

  // ----- the loop, turn by turn

  /** The two variables of the loop. */
  datatype Place = Place(index: nat, result: u16)

  predicate Going(length: u16, key: seq<byte>, p: Place) { p.result <= length && p.index < |key| }

  function SearchTurn(data: seq<byte>, slot: nat, key: seq<byte>, p: Place): Place
    requires p.index < |key| && slot + p.result < |data|
  {
    if key[p.index] == data[slot + p.result] then Place(p.index + 1, U16(p.result + 2))
    else if p.index > 0 then Place(0, U16(p.result - (p.index - 1) * 2))
    else Place(0, U16(p.result + 2))
  }

  function SearchAfter(data: seq<byte>, slot: nat, length: u16, key: seq<byte>, p: Place, turns: nat): Outcome<Place>
    decreases turns
  {
    if turns == 0 || !Going(length, key, p) then Ok(p)
    else if slot + p.result >= |data| then Wild
    else SearchAfter(data, slot, length, key, SearchTurn(data, slot, key, p), turns - 1)
  }

  /** The loop with candidate start `s` and `i` characters matched. */
  function PlaceOf(s: nat, i: nat): Place
    requires s + 2 * i < 2 * WRAP
  {
    Place(i, Cursor(s + 2 * i))
  }

  /** One turn goes on with the candidate, or to the next one; the last one is followed by the first. */
  lemma TurnPlaces(data: seq<byte>, slot: nat, key: seq<byte>, s: nat, i: nat)
    requires i < |key| < 0x100 && s % 2 == 0 && s < WRAP && slot + Cursor(s + 2 * i) < |data|
    ensures SearchTurn(data, slot, key, PlaceOf(s, i))
         == if data[slot + Cursor(s + 2 * i)] == key[i] then PlaceOf(s, i + 1)
            else PlaceOf(if s + 2 < WRAP then s + 2 else 0, 0)
  {
  }

  /** The loop ends, or leaves the buffer, when the search does. */
  lemma {:induction false} AroundTurns(data: seq<byte>, slot: nat, length: u16, key: seq<byte>, s: nat, i: nat)
    returns (turns: nat)
    requires i <= |key| < 0x100 && s % 2 == 0 && s < WRAP && length > LAST_OFFSET
    requires !Around(data, slot, key, s, i).Endless?
    ensures var c := SearchAfter(data, slot, length, key, PlaceOf(s, i), turns);
            c.Wild? || (c.Ok? && !Going(length, key, c.value))
    decreases WRAP - s, |key| - i
  {
    hide SearchTurn;
    turns := 0;
    if i < |key| {
      turns := 1;
      if slot + Cursor(s + 2 * i) < |data| {
        TurnPlaces(data, slot, key, s, i);
        var rest;
        if data[slot + Cursor(s + 2 * i)] == key[i] {
          rest := AroundTurns(data, slot, length, key, s, i + 1);
        } else {
          rest := AroundTurns(data, slot, length, key, s + 2, 0);
        }
        turns := rest + 1;
      }
    }
  }

  lemma {:induction false} AroundGoes(data: seq<byte>, slot: nat, length: u16, key: seq<byte>, s: nat, i: nat,
                                      turns: nat)
    requires i <= |key| < 0x100 && s % 2 == 0 && s < WRAP && length > LAST_OFFSET
    requires Around(data, slot, key, s, i).Endless? && Around(data, slot, key, 0, 0).Endless?
    ensures var c := SearchAfter(data, slot, length, key, PlaceOf(s, i), turns);
            c.Ok? && Going(length, key, c.value)
    decreases turns
  {
    hide SearchTurn;
    EvenCursor(s, i);
    if turns > 0 {
      TurnPlaces(data, slot, key, s, i);
      if data[slot + Cursor(s + 2 * i)] == key[i] {
        AroundGoes(data, slot, length, key, s, i + 1, turns - 1);
      } else {
        AroundGoes(data, slot, length, key, if s + 2 < WRAP then s + 2 else 0, 0, turns - 1);
      }
    }
  }

  lemma EvenCursor(s: nat, i: nat)
    requires s % 2 == 0 && s + 2 * i < 2 * WRAP
    ensures Cursor(s + 2 * i) <= WRAP - 2
  {
  }

  lemma {:induction false} ScanTurns(data: seq<byte>, slot: nat, length: u16, key: seq<byte>, s: nat, i: nat)
    returns (turns: nat)
    requires i <= |key| < 0x100 && s % 2 == 0 && length <= LAST_OFFSET && s <= length + 2
    requires 0 < i ==> s + 2 * i <= length + 2
    ensures var c := SearchAfter(data, slot, length, key, PlaceOf(s, i), turns);
            c.Wild? || (c.Ok? && !Going(length, key, c.value))
    decreases length + 2 - s, |key| - i
  {
    hide SearchTurn;
    turns := 0;
    if i < |key| && s + 2 * i <= length {
      turns := 1;
      if slot + s + 2 * i < |data| {
        TurnPlaces(data, slot, key, s, i);
        var rest;
        if data[slot + s + 2 * i] == key[i] {
          rest := ScanTurns(data, slot, length, key, s, i + 1);
        } else {
          rest := ScanTurns(data, slot, length, key, s + 2, 0);
        }
        turns := rest + 1;
      }
    }
  }

  ghost predicate NeverEnds(data: seq<byte>, slot: nat, length: u16, key: seq<byte>)
  {
    forall turns: nat ::
      var c := SearchAfter(data, slot, length, key, Place(0, 0), turns);
      c.Ok? && Going(length, key, c.value)
  }

  /** The loop goes on after any number of turns exactly when its cursor wraps, over readable bytes in which
      the key does not occur. */
  lemma NeverEndsIff(data: seq<byte>, slot: nat, length: u16, key: seq<byte>)
    requires 0 < |key| < 0x100
    ensures NeverEnds(data, slot, length, key)
       <==> length > LAST_OFFSET && slot + WRAP - 2 < |data| && Nowhere(data, slot, length, key)
    ensures NeverEnds(data, slot, length, key) <==> Find(data, slot, length, key).Endless?
  {
    hide Scan, Around, SearchAfter, Nowhere;
    FindEndlessIff(data, slot, length, key);
    if Find(data, slot, length, key).Endless? {
      forall turns: nat
        ensures var c := SearchAfter(data, slot, length, key, Place(0, 0), turns); c.Ok? && Going(length, key, c.value)
      {
        AroundGoes(data, slot, length, key, 0, 0, turns);
      }
    } else {
      var turns;
      if length <= LAST_OFFSET {
        turns := ScanTurns(data, slot, length, key, 0, 0);
      } else {
        turns := AroundTurns(data, slot, length, key, 0, 0);
      }
      var c := SearchAfter(data, slot, length, key, Place(0, 0), turns);
      assert c.Wild? || !Going(length, key, c.value);
    }
  }

  /** What is left of the search. */
  function Rest(data: seq<byte>, slot: nat, length: u16, key: seq<byte>, s: nat, i: nat): Outcome<nat>
    requires i <= |key|
  {
    if length <= LAST_OFFSET then Scan(data, slot, length, key, s, i)
    else if s < WRAP then Around(data, slot, key, s, i)
    else Endless
  }

  predicate Inside(length: u16, s: nat, i: nat)
  {
    s % 2 == 0 && i < 0x100 && if length <= LAST_OFFSET then s + 2 * i <= length + 2 else s < WRAP
  }

  lemma RestUnfold(data: seq<byte>, slot: nat, length: u16, key: seq<byte>, s: nat, i: nat)
    requires i < |key| < 0x100 && Inside(length, s, i) && Rest(data, slot, length, key, s, i).Ok?
    requires Cursor(s + 2 * i) <= length
    ensures slot + Cursor(s + 2 * i) < |data|
    ensures if data[slot + Cursor(s + 2 * i)] == key[i]
            then Inside(length, s, i + 1)
                 && Rest(data, slot, length, key, s, i + 1) == Rest(data, slot, length, key, s, i)
            else Inside(length, s + 2, 0)
                 && Rest(data, slot, length, key, s + 2, 0) == Rest(data, slot, length, key, s, i)
  {
  }

  lemma RestDone(data: seq<byte>, slot: nat, length: u16, key: seq<byte>, s: nat, i: nat)
    requires i <= |key| < 0x100 && Inside(length, s, i)
    requires i == |key| || length < Cursor(s + 2 * i)
    ensures Rest(data, slot, length, key, s, i) == Ok(if i == |key| then s else Cursor(s + 2 * i))
  {
    EvenCursor(s, i);
  }

  /** The steps of the cursor, modulo 2^16. */
  lemma CursorSteps(length: u16, s: nat, i: nat)
    requires Inside(length, s, i)
    ensures Cursor(s + 2 * i) < WRAP
    ensures U16(Cursor(s + 2 * i) + 2) == Cursor(s + 2 * (i + 1))
    ensures 0 < i ==> U16(Cursor(s + 2 * i) - (i - 1) * 2) == Cursor(s + 2)
    ensures s < WRAP ==> U16(Cursor(s + 2 * i) - i * 2) == s
  {
  }

  lemma SearchStarts(data: seq<byte>, slot: nat, length: u16, key: seq<byte>)
    ensures Cursor(0) == 0 && Rest(data, slot, length, key, 0, 0) == Find(data, slot, length, key)
  {
  }

  /** FindInXML, where it ends. */
  method FindInXML(data: seq<byte>, slot: nat, length: u16, key: seq<byte>) returns (found: u16)
    requires 0 < |key| < 0x100
    requires Find(data, slot, length, key).Ok?
    ensures found == Find(data, slot, length, key).value
    ensures Answers(data, slot, length, key, found)
  {
    hide Answers, Cursor, U16, Rest;
    var index: nat, result: u16 := 0, 0;
    ghost var s := 0;
    SearchStarts(data, slot, length, key);
    while result <= length && index < |key|
      invariant 0 <= index <= |key| && 0 <= s && Inside(length, s, index) && result == Cursor(s + 2 * index)
      invariant Rest(data, slot, length, key, s, index) == Find(data, slot, length, key)
      decreases WRAP - s, |key| - index
    {
      CursorSteps(length, s, index);
      RestUnfold(data, slot, length, key, s, index);
      if key[index] == data[slot + result] {
        index := index + 1;
        result := U16(result as int + 2);
      } else if index > 0 {
        result := U16(result as int - (index - 1) * 2);
        index := 0;
        s := s + 2;
      } else {
        result := U16(result as int + 2);
        s := s + 2;
      }
    }
    FindAnswers(data, slot, length, key);
    CursorSteps(length, s, index);
    RestDone(data, slot, length, key, s, index);
    found := if index == |key| then U16(result as int - |key| * 2) else result;
  }

  // ----- the search on strings of characters

  /** The characters that a search over `n` code units compares. */
  function Lows(data: seq<byte>, slot: nat, n: nat): (low: seq<byte>)
    requires slot + 2 * n <= |data| + 1
    ensures |low| == n
  {
    seq(n, i requires 0 <= i < n => data[slot + 2 * i])
  }

  predicate At(text: seq<byte>, key: seq<byte>, k: nat)
  {
    k + |key| <= |text| && text[k..k + |key|] == key
  }

  ghost predicate Free(text: seq<byte>, key: seq<byte>)
  {
    forall k: nat :: !At(text, key, k)
  }

  lemma NotAt(text: seq<byte>, key: seq<byte>, k: nat, i: nat)
    requires i < |key|
    requires k + |key| <= |text| ==> text[k + i] != key[i]
    ensures !At(text, key, k)
  {
    if k + |key| <= |text| {
      assert text[k..k + |key|][i] == text[k + i];
    }
  }

  lemma SameAt(text: seq<byte>, part: seq<byte>, key: seq<byte>, k: nat, at: nat)
    requires at <= k && k - at + |key| <= |part| && Holds(text, at, part)
    ensures At(text, key, k) <==> At(part, key, k - at)
  {
    var here, there := text[k..k + |key|], part[k - at..k - at + |key|];
    forall i | 0 <= i < |key| ensures here[i] == there[i] {
      HoldsAt(text, at, part, k - at + i);
    }
    assert here == there;
  }

  lemma OccursAt(data: seq<byte>, slot: nat, length: u16, key: seq<byte>, k: nat)
    requires slot + 2 * (length / 2) < |data| && length <= LAST_OFFSET
    ensures Occurs(data, slot, length, key, 2 * k) <==> At(Lows(data, slot, length / 2 + 1), key, k)
  {
    var low := Lows(data, slot, length / 2 + 1);
    if At(low, key, k) {
      forall i | 0 <= i < |key| ensures slot + 2 * k + 2 * i < |data| && data[slot + 2 * k + 2 * i] == key[i] {
        assert low[k..k + |key|][i] == key[i];
      }
      assert Spelled(data, slot, key, 2 * k);
    }
    if Occurs(data, slot, length, key, 2 * k) {
      forall i | 0 <= i < |key| ensures low[k..k + |key|][i] == key[i] {
        assert data[slot + 2 * k + 2 * i] == key[i];
      }
      assert low[k..k + |key|] == key;
    }
  }

  /** The first place of `key` in the compared characters is the answer of the search. */
  lemma FindsFirst(data: seq<byte>, slot: nat, length: u16, key: seq<byte>, k: nat)
    requires 0 < |key| < 0x100 && length <= LAST_OFFSET && slot + 2 * (length / 2) < |data|
    requires At(Lows(data, slot, length / 2 + 1), key, k)
    requires var low := Lows(data, slot, length / 2 + 1); forall j: nat :: j < k ==> !At(low, key, j)
    ensures Find(data, slot, length, key) == Ok(2 * k)
  {
    hide Find, At, Lows;
    FindOkIff(data, slot, length, key);
    FindAnswers(data, slot, length, key);
    OccursAt(data, slot, length, key, k);
    var r := Find(data, slot, length, key).value;
    if r < 2 * k {
      OccursAt(data, slot, length, key, r / 2);
    }
  }

  lemma FindsNone(data: seq<byte>, slot: nat, length: u16, key: seq<byte>)
    requires 0 < |key| < 0x100 && length <= LAST_OFFSET && slot + 2 * (length / 2) < |data|
    requires Free(Lows(data, slot, length / 2 + 1), key)
    ensures Find(data, slot, length, key) == Ok(length + 2 - length % 2)
  {
    FindOkIff(data, slot, length, key);
    FindAnswers(data, slot, length, key);
    var r := Find(data, slot, length, key).value;
    if r <= length {
      OccursAt(data, slot, length, key, r / 2);
    }
  }

  /** A key whose first character does not come back later in it. */
  predicate Headed(key: seq<byte>)
  {
    0 < |key| && forall i :: 1 <= i < |key| ==> key[i] != key[0]
  }

  /** The place of a key behind a text that is free of it is its first place. */
  predicate FirstAt(text: seq<byte>, key: seq<byte>, from: nat, k: nat)
  {
    from <= k && At(text, key, k) && forall j :: from <= j < k ==> !At(text, key, j)
  }

  /** No occurrence reaches from a text into a string that starts with the key's first character. */
  lemma FirstBehind(text: seq<byte>, key: seq<byte>, from: nat, k: nat)
    requires Headed(key) && from <= k && Holds(text, k, key) && Free(text[from..k], key)
    ensures FirstAt(text, key, from, k)
  {
    HoldsAt(text, k, key, 0);
    forall j | from <= j < k ensures !At(text, key, j) {
      if j + |key| <= k {
        SameAt(text, text[from..k], key, j, from);
      } else {
        NotAt(text, key, j, k - j);
      }
    }
  }

  /** The code units from `slot` on have the low bytes `text`. */
  predicate Reads(data: seq<byte>, slot: nat, text: seq<byte>)
  {
    slot + 2 * |text| <= |data| + 1 && Lows(data, slot, |text|) == text
  }

  lemma ReadsPart(data: seq<byte>, slot: nat, text: seq<byte>, i: nat, j: nat)
    requires Reads(data, slot, text) && i <= j <= |text|
    ensures Reads(data, slot + 2 * i, text[i..j])
  {
    var part := Lows(data, slot + 2 * i, j - i);
    forall k | 0 <= k < j - i ensures part[k] == text[i..j][k] {
      assert Lows(data, slot, |text|)[i + k] == data[slot + 2 * (i + k)];
    }
  }

  /** The search from character `from`, inspecting characters up to `to`. */
  lemma FindsAt(data: seq<byte>, slot: nat, text: seq<byte>, from: nat, to: nat, key: seq<byte>, k: nat)
    requires 0 < |key| < 0x100 && Reads(data, slot, text) && to < |text| && 2 * |text| <= LAST_OFFSET + 2
    requires FirstAt(text, key, from, k) && k + |key| <= to + 1
    ensures Find(data, slot + 2 * from, 2 * (to - from), key) == Ok(2 * (k - from))
  {
    var window := text[from..to + 1];
    ReadsPart(data, slot, text, from, to + 1);
    SameAt(text, window, key, k, from);
    forall j: nat | j < k - from ensures !At(window, key, j) {
      if j + |key| <= |window| {
        SameAt(text, window, key, from + j, from);
      }
    }
    FindsFirst(data, slot + 2 * from, 2 * (to - from), key, k - from);
  }

  lemma MissesFrom(data: seq<byte>, slot: nat, text: seq<byte>, from: nat, key: seq<byte>)
    requires 0 < |key| < 0x100 && Reads(data, slot, text) && from < |text| && 2 * |text| <= LAST_OFFSET + 2
    requires Free(text[from..], key)
    ensures Find(data, slot + 2 * from, 2 * (|text| - 1 - from), key) == Ok(2 * (|text| - from))
  {
    ReadsPart(data, slot, text, from, |text|);
    assert text[from..|text|] == text[from..];
    FindsNone(data, slot + 2 * from, 2 * (|text| - 1 - from), key);
  }

  /** No occurrence straddles the seam of two strings. */
  ghost predicate Seamless(left: seq<byte>, right: seq<byte>, key: seq<byte>)
  {
    || left == [] || right == []
    || (Headed(key) && right[0] == key[0])
    || (forall i :: 0 <= i < |key| - 1 ==> key[i] != left[|left| - 1])
  }

  lemma FreeJoin(left: seq<byte>, right: seq<byte>, key: seq<byte>)
    requires 0 < |key| && Free(left, key) && Free(right, key) && Seamless(left, right, key)
    ensures Free(left + right, key)
  {
    var whole := left + right;
    assert Holds(whole, 0, left) && Holds(whole, |left|, right);
    forall k: nat ensures !At(whole, key, k) {
      if k + |key| <= |left| {
        SameAt(whole, left, key, k, 0);
      } else if |whole| < k + |key| {
      } else if |left| <= k {
        SameAt(whole, right, key, k, |left|);
      } else if Headed(key) && right[0] == key[0] {
        NotAt(whole, key, k, |left| - k);
      } else {
        NotAt(whole, key, k, |left| - k - 1);
      }
    }
  }

  /** A string without the key's first character is free of the key. */
  lemma FreeWithout(text: seq<byte>, key: seq<byte>)
    requires 0 < |key| && key[0] !in text
    ensures Free(text, key)
  {
    forall k: nat ensures !At(text, key, k) {
      NotAt(text, key, k, 0);
    }
  }
}
