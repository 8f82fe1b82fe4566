/** Base64 in the low bytes of UTF-16LE text (plugin/CENCParser.h, Base64), against RFC 4648 section 4. */
module Base64 {
  import opened Bytes
  import opened Outcomes
  import Seqs

  /** The value of a character of the alphabet, or -1. */
  function Sextet(c: byte): (v: int)
    ensures -1 <= v < 64
  {
    if 65 <= c <= 90 then c - 65
    else if 97 <= c <= 122 then c - 97 + 26
    else if 48 <= c <= 57 then c - 48 + 52
    else if c == 43 then 62
    else if c == 47 then 63
    else -1
  }

  /** Strings of 6-bit groups. */
  predicate Sextets(s: seq<nat>)
  {
    forall i :: 0 <= i < |s| ==> s[i] < 64
  }

  /** Byte `m` of a quantum, from the two groups that carry its bits. */
  function Join(m: nat, g: nat, h: nat): byte
    requires m < 3 && g < 64 && h < 64
  {
    if m == 0 then g * 4 + h / 16
    else if m == 1 then g % 16 * 16 + h / 4
    else g % 4 * 64 + h
  }

  /** Byte `m` of quantum `t` of the byte string whose 6-bit groups are `s`. */
  function Octet(s: seq<nat>, t: nat, m: nat): byte
    requires Sextets(s) && m < 3 && 4 * t + m + 1 < |s|
  {
    Join(m, s[4 * t + m], s[4 * t + m + 1])
  }

  /** The number of whole bytes in `n` groups. */
  function Whole(n: nat): nat { 3 * n / 4 }

  lemma WholeIs(n: nat, j: nat)
    ensures j < Whole(n) <==> 4 * (j / 3) + j % 3 + 1 < n
  {
  }

  /** All whole bytes of a string of 6-bit groups. */
  function Octets(s: seq<nat>): (o: seq<byte>)
    requires Sextets(s)
    ensures |o| == Whole(|s|)
  {
    seq(Whole(|s|), j requires 0 <= j < Whole(|s|) => WholeIs(|s|, j); Octet(s, j / 3, j % 3))
  }

  /** The code unit `i` is outside of the readable bytes, or its character outside of the alphabet. */
  predicate Ends(data: seq<byte>, pos: nat, i: nat)
  {
    pos + 2 * i >= |data| || Sextet(data[pos + 2 * i]) < 0
  }

  /** The 6-bit groups read from `count` code units at `pos`, up to the first that ends them, and no more than
      fill `limit` bytes. */
  function Groups(data: seq<byte>, pos: nat, count: nat, limit: nat): (s: seq<nat>)
    ensures |s| <= count && Sextets(s)
    decreases count
  {
    if count == 0 then []
    else
      var s := Groups(data, pos, count - 1, limit);
      if |s| < count - 1 || limit <= Whole(|s|) || Ends(data, pos, count - 1) then s
      else s + [Sextet(data[pos + 2 * (count - 1)])]
  }

  /** What Base64 stores in its output. It is Wild exactly when a character that is inspected is not readable:
      the characters of the groups are, and the next one is inspected if there is one and room for it. */
  function Decode(data: seq<byte>, pos: nat, sourceLength: byte, limit: byte): (o: Outcome<seq<byte>>)
    ensures o.Ok? ==> |o.value| <= limit
    ensures !o.Endless?
  {
    var s := Groups(data, pos, (sourceLength + 1) / 2, limit);
    GroupsBounded(data, pos, (sourceLength + 1) / 2, limit);
    if 2 * |s| < sourceLength && Whole(|s|) < limit && pos + 2 * |s| >= |data| then Wild else Ok(Octets(s))
  }

  lemma {:induction false} GroupsBounded(data: seq<byte>, pos: nat, count: nat, limit: nat)
    ensures Whole(|Groups(data, pos, count, limit)|) <= limit
  {
    if count > 0 {
      GroupsBounded(data, pos, count - 1, limit);
    }
  }

  /** Once the reader has stopped, later characters change nothing. */
  lemma {:induction false} GroupsStay(data: seq<byte>, pos: nat, count: nat, limit: nat, more: nat)
    requires count <= more
    requires var s := Groups(data, pos, count, limit);
             count < more ==> |s| < count || limit <= Whole(|s|) || Ends(data, pos, count)
    ensures Groups(data, pos, more, limit) == Groups(data, pos, count, limit)
    decreases more - count
  {
    if count < more {
      assert Groups(data, pos, count + 1, limit) == Groups(data, pos, count, limit);
      GroupsStay(data, pos, count + 1, limit, more);
    }
  }

  lemma GroupsGrow(data: seq<byte>, pos: nat, count: nat, limit: nat)
    requires var s := Groups(data, pos, count, limit);
             |s| == count && Whole(|s|) < limit && !Ends(data, pos, count)
    ensures Groups(data, pos, count + 1, limit) == Groups(data, pos, count, limit) + [Sextet(data[pos + 2 * count])]
  {
  }

  /** The branches on `state` in the loop of Base64, after the groups `s`. */
  method Take(target: array<byte>, filler: nat, state: nat, lastStuff: byte, converted: nat,
              ghost s: seq<nat>)
    returns (filler': nat, state': nat, lastStuff': byte)
    requires Sextets(s) && converted < 64
    requires filler == Whole(|s|) < target.Length && target[..filler] == Octets(s)
    requires state == |s| % 4 && (state != 0 ==> lastStuff == Left(s))
    modifies target
    ensures filler' == Whole(|s| + 1) <= target.Length && target[..filler'] == Octets(s + [converted])
    ensures forall i :: filler' <= i < target.Length ==> target[i] == old(target[i])
    ensures state' == (|s| + 1) % 4 && (state' != 0 ==> lastStuff' == Left(s + [converted]))
  {
    filler', lastStuff' := filler, lastStuff;
    OctetsGrow(s, converted);
    LeftGrow(s, converted);
    ghost var next := Next(s, converted);
    if state == 0 {
      lastStuff' := converted * 4;
      state' := 1;
    } else if state == 1 {
      target[filler'] := converted / 16 + lastStuff;
      assert target[..filler' + 1] == Octets(s) + next;
      filler' := filler' + 1;
      lastStuff' := converted % 16 * 16;
      state' := 2;
    } else if state == 2 {
      target[filler'] := converted / 4 + lastStuff;
      assert target[..filler' + 1] == Octets(s) + next;
      filler' := filler' + 1;
      lastStuff' := converted % 4 * 64;
      state' := 3;
    } else {
      target[filler'] := converted + lastStuff;
      assert target[..filler' + 1] == Octets(s) + next;
      filler' := filler' + 1;
      state' := 0;
    }
  }

  /** Base64: the 8-bit `index` never wraps, `filler` is floor(3n/4) and `state` is n mod 4 after n
      characters. */
  method Base64(data: seq<byte>, pos: nat, sourceLength: byte, target: array<byte>) returns (filler: byte)
    requires target.Length <= 255 && Decode(data, pos, sourceLength, target.Length).Ok?
    requires target.Length <= 95 || sourceLength < 255
    modifies target
    ensures filler <= target.Length
    ensures Decode(data, pos, sourceLength, target.Length) == Ok(target[..filler])
    ensures forall i :: filler <= i < target.Length ==> target[i] == old(target[i])
  {
    hide Octets, Groups, Decode, Left, Sextet;
    var state, index, lastStuff := 0, 0, 0;
    filler := 0;
    var length := target.Length;
    ghost var s: seq<nat> := [];
    while index < sourceLength && filler < length
      invariant index == 2 * |s| && index <= sourceLength + 1 && index < 0x100 && filler <= length
      invariant Sextets(s) && s == Groups(data, pos, |s|, length)
      invariant filler == Whole(|s|) && state == |s| % 4
      invariant state != 0 ==> lastStuff == Left(s)
      invariant target[..filler] == Octets(s)
      invariant forall i :: filler <= i < length ==> target[i] == old(target[i])
      decreases sourceLength - index
    {
      Readable(data, pos, sourceLength, length, s);
      var converted := Sextet(data[pos + index]);
      if converted < 0 {
        break;
      }
      GroupsGrow(data, pos, |s|, length);
      filler, state, lastStuff := Take(target, filler, state, lastStuff, converted, s);
      s := s + [converted];
      index := index + 2;
    }
    Stopped(data, pos, sourceLength, length, s);
  }

  lemma Stopped(data: seq<byte>, pos: nat, sourceLength: byte, limit: byte, s: seq<nat>)
    requires Decode(data, pos, sourceLength, limit).Ok? && 2 * |s| <= sourceLength + 1
    requires s == Groups(data, pos, |s|, limit)
    requires 2 * |s| < sourceLength ==> limit <= Whole(|s|) || Ends(data, pos, |s|)
    ensures Decode(data, pos, sourceLength, limit) == Ok(Octets(s))
  {
    GroupsStay(data, pos, |s|, limit, (sourceLength + 1) / 2);
  }

  /** The next character that is inspected is readable. */
  lemma Readable(data: seq<byte>, pos: nat, sourceLength: byte, limit: byte, s: seq<nat>)
    requires Decode(data, pos, sourceLength, limit).Ok? && 2 * |s| < sourceLength && Whole(|s|) < limit
    requires s == Groups(data, pos, |s|, limit)
    ensures pos + 2 * |s| < |data|
  {
    if pos + 2 * |s| >= |data| {
      GroupsStay(data, pos, |s|, limit, (sourceLength + 1) / 2);
    }
  }

  lemma LeftGrow(s: seq<nat>, g: nat)
    requires g < 64 && Sextets(s)
    ensures |s| % 4 == 0 ==> Left(s + [g]) == g * 4 && (|s| + 1) % 4 == 1
    ensures |s| % 4 == 1 ==> Left(s + [g]) == g % 16 * 16 && (|s| + 1) % 4 == 2
    ensures |s| % 4 == 2 ==> Left(s + [g]) == g % 4 * 64 && (|s| + 1) % 4 == 3
    ensures |s| % 4 == 3 ==> (|s| + 1) % 4 == 0
  {
  }

  /** The bits of the groups that are not yet part of a whole byte, moved to the top of a byte. */
  function Left(s: seq<nat>): byte
    requires Sextets(s)
  {
    if |s| % 4 == 0 then 0
    else if |s| % 4 == 1 then s[|s| - 1] * 4
    else if |s| % 4 == 2 then s[|s| - 1] % 16 * 16
    else s[|s| - 1] % 4 * 64
  }

  /** The byte that group `g` completes, if any. */
  function Next(s: seq<nat>, g: nat): seq<byte>
    requires g < 64 && Sextets(s)
  {
    if |s| % 4 == 0 then []
    else if |s| % 4 == 1 then [g / 16 + Left(s)]
    else if |s| % 4 == 2 then [g / 4 + Left(s)]
    else [g + Left(s)]
  }

  lemma OctetsGrow(s: seq<nat>, g: nat)
    requires g < 64 && Sextets(s)
    ensures Octets(s + [g]) == Octets(s) + Next(s, g)
  {
    var t := s + [g];
    var o := Octets(t);
    forall j | 0 <= j < Whole(|s|) ensures o[j] == Octets(s)[j] {
      WholeIs(|s|, j);
    }
    if |s| % 4 != 0 {
      OctetLast(s, g);
    }
    assert |o| == Whole(|s|) + |Next(s, g)|;
  }

  lemma OctetLast(s: seq<nat>, g: nat)
    requires g < 64 && Sextets(s) && |s| % 4 != 0
    ensures Whole(|s| + 1) == Whole(|s|) + 1
    ensures Next(s, g) == [Octets(s + [g])[Whole(|s|)]]
  {
    var t, m := |s| / 4, |s| % 4;
    assert Whole(|s|) == 3 * t + m - 1;
    assert (3 * t + m - 1) / 3 == t && (3 * t + m - 1) % 3 == m - 1;
  }

  // ----- the encoder of RFC 4648 section 4

  function Character(v: nat): byte
    requires v < 64
    ensures Sextet(Character(v)) == v
  {
    if v < 26 then 65 + v
    else if v < 52 then 97 + v - 26
    else if v < 62 then 48 + v - 52
    else if v == 62 then 43
    else 47
  }

  /** The alphabet of RFC 4648, table 1: the encoder uses these characters, and the decoder takes no others. */
  lemma AlphabetIs(v: nat, c: byte)
    requires v < 64
    ensures Character(v) == if v < 26 then 'A' as int + v
                            else if v < 52 then 'a' as int + (v - 26)
                            else if v < 62 then '0' as int + (v - 52)
                            else if v == 62 then '+' as int else '/' as int
    ensures 0 <= Sextet(c) <==> exists w: nat | w < 64 :: Character(w) == c
    ensures 0 <= Sextet(c) ==> Character(Sextet(c)) == c
  {
    if 0 <= Sextet(c) {
      assert Character(Sextet(c)) == c;
    }
  }

  /** Byte `i` of `b`, filled up with zeros. */
  function Padded(b: seq<byte>, i: nat): byte { if i < |b| then b[i] else 0 }

  /** Group `m` of the quantum of three bytes. */
  function Split(m: nat, x: byte, y: byte, z: byte): (g: nat)
    requires m < 4
    ensures g < 64
  {
    if m == 0 then x / 4
    else if m == 1 then x % 4 * 16 + y / 16
    else if m == 2 then y % 16 * 4 + z / 64
    else z % 64
  }

  lemma Rejoin(m: nat, x: byte, y: byte, z: byte)
    requires m < 3
    ensures Join(m, Split(m, x, y, z), Split(m + 1, x, y, z)) == if m == 0 then x else if m == 1 then y else z
  {
    if m == 0 {
      assert (x % 4 * 16 + y / 16) / 16 == x % 4;
    } else if m == 1 {
      assert (x % 4 * 16 + y / 16) % 16 == y / 16;
      assert (y % 16 * 4 + z / 64) / 4 == y % 16;
    } else {
      assert (y % 16 * 4 + z / 64) % 4 == z / 64;
    }
  }

  function Group(b: seq<byte>, t: nat, m: nat): (g: nat)
    requires m < 4
    ensures g < 64
  {
    Split(m, Padded(b, 3 * t), Padded(b, 3 * t + 1), Padded(b, 3 * t + 2))
  }

  /** The number of groups that carry bits of `n` bytes. */
  function Carriers(n: nat): nat { (4 * n + 2) / 3 }

  function GroupsOf(b: seq<byte>): (s: seq<nat>)
    ensures |s| == Carriers(|b|) && Sextets(s)
  {
    seq(Carriers(|b|), i requires 0 <= i < Carriers(|b|) => Group(b, i / 4, i % 4))
  }

  /** Four characters for the first three bytes, with padding for the bytes that are missing. */
  function Quantum(b: seq<byte>): (q: seq<byte>)
    ensures |q| == 4
  {
    var x, y, z := Padded(b, 0), Padded(b, 1), Padded(b, 2);
    [Character(Split(0, x, y, z)), Character(Split(1, x, y, z)),
     if |b| < 2 then 61 else Character(Split(2, x, y, z)),
     if |b| < 3 then 61 else Character(Split(3, x, y, z))]
  }

  function Encode(b: seq<byte>): (e: seq<byte>)
    decreases |b|
  {
    if b == [] then [] else Quantum(b) + Encode(if |b| <= 3 then [] else b[3..])
  }

  lemma {:induction false} EncodeLength(b: seq<byte>)
    ensures |Encode(b)| == (|b| + 2) / 3 * 4
    decreases |b|
  {
    hide Quantum;
    if b != [] {
      EncodeLength(if |b| <= 3 then [] else b[3..]);
    }
  }

  lemma {:induction false} EncodeAt(b: seq<byte>, t: nat, m: nat)
    requires m < 4 && 4 * t + m < |Encode(b)|
    ensures 4 * t + m < Carriers(|b|) ==> Encode(b)[4 * t + m] == Character(Group(b, t, m))
    ensures Carriers(|b|) <= 4 * t + m ==> Encode(b)[4 * t + m] == 61
    decreases |b|
  {
    hide Split, Character;
    if t > 0 {
      var rest := if |b| <= 3 then [] else b[3..];
      assert Encode(b)[4 * t + m] == Encode(rest)[4 * (t - 1) + m];
      EncodeAt(rest, t - 1, m);
      assert 3 < |b|;
      assert Carriers(|b|) == Carriers(|rest|) + 4;
      forall j: nat ensures Padded(rest, j) == Padded(b, j + 3) {}
      assert Group(rest, t - 1, m) == Group(b, t, m);
    }
  }

  /** The encoding is the characters of the groups, then padding. */
  lemma EncodeChars(b: seq<byte>, i: nat)
    requires i < |Encode(b)|
    ensures i < |GroupsOf(b)| ==> Encode(b)[i] == Character(GroupsOf(b)[i])
    ensures |GroupsOf(b)| <= i ==> Encode(b)[i] == 61
  {
    EncodeAt(b, i / 4, i % 4);
  }

  /** The whole bytes of the groups of a byte string are the byte string. */
  lemma OctetsOfGroups(b: seq<byte>)
    ensures Octets(GroupsOf(b)) == b
  {
    var s := GroupsOf(b);
    WholeOfCarriers(|b|);
    forall j | 0 <= j < |b| ensures Octets(s)[j] == b[j] {
      WholeIs(|s|, j);
      OctetOfGroups(b, j / 3, j % 3);
    }
  }

  lemma WholeOfCarriers(n: nat)
    ensures Whole(Carriers(n)) == n
  {
  }

  lemma OctetOfGroups(b: seq<byte>, t: nat, m: nat)
    requires m < 3 && 3 * t + m < |b| && 4 * t + m + 1 < Carriers(|b|)
    ensures Octet(GroupsOf(b), t, m) == b[3 * t + m]
  {
    GroupsAt(b, t, m);
    GroupsAt(b, t, m + 1);
    Rejoin(m, Padded(b, 3 * t), Padded(b, 3 * t + 1), Padded(b, 3 * t + 2));
  }

  lemma GroupsAt(b: seq<byte>, t: nat, m: nat)
    requires m < 4 && 4 * t + m < Carriers(|b|)
    ensures GroupsOf(b)[4 * t + m] == Group(b, t, m)
  {
    assert (4 * t + m) / 4 == t && (4 * t + m) % 4 == m;
  }

  lemma CharacterRead(g: nat)
    requires g < 64
    ensures Sextet(Character(g)) == g && Sextet(61) < 0
  {
  }

  /** Before all groups are read, not all whole bytes are complete. */
  lemma CarriersFit(n: nat, i: nat)
    requires i < Carriers(n)
    ensures Whole(i) < n && i < (n + 2) / 3 * 4
  {
  }

  /** The characters at `pos` begin with the encoding, in the low bytes of the code units. */
  predicate Encoded(data: seq<byte>, pos: nat, count: nat, b: seq<byte>)
  {
    pos + 2 * count <= |data| + 1 && forall i :: 0 <= i < count && i < |Encode(b)| ==> data[pos + 2 * i] == Encode(b)[i]
  }

  lemma {:induction false} ReadsGroups(data: seq<byte>, pos: nat, count: nat, limit: nat, b: seq<byte>)
    requires Encoded(data, pos, count, b)
    requires count <= |GroupsOf(b)| && |b| <= limit
    ensures Groups(data, pos, count, limit) == GroupsOf(b)[..count]
  {
    hide Encode, GroupsOf, Carriers, Character, Sextet, Whole;
    if count > 0 {
      ReadsGroups(data, pos, count - 1, limit, b);
      EncodeLength(b);
      CarriersFit(|b|, count - 1);
      EncodeChars(b, count - 1);
      CharacterRead(GroupsOf(b)[count - 1]);
      Seqs.Grow(GroupsOf(b), count - 1);
      GroupsGrow(data, pos, count - 1, limit);
    }
  }

  /** On the encoding of a byte string that fits the output, given whole or cut inside its padding, the
      decoder returns exactly that byte string. */
  lemma DecodesEncoding(data: seq<byte>, pos: nat, sourceLength: byte, limit: byte, b: seq<byte>)
    requires |b| <= limit
    requires |GroupsOf(b)| <= (sourceLength + 1) / 2 <= |Encode(b)|
    requires Encoded(data, pos, (sourceLength + 1) / 2, b)
    ensures Decode(data, pos, sourceLength, limit) == Ok(b)
  {
    hide Encode, Groups, GroupsOf, Octets, Character, Sextet;
    var n, count := |GroupsOf(b)|, (sourceLength + 1) / 2;
    ReadsGroups(data, pos, n, limit, b);
    assert GroupsOf(b)[..n] == GroupsOf(b);
    if n < count {
      EncodeChars(b, n);
      CharacterRead(0);
      assert data[pos + 2 * n] == Encode(b)[n];
    }
    GroupsStay(data, pos, n, limit, count);
    OctetsOfGroups(b);
  }

  /** Test vectors of RFC 4648, section 10. */
  lemma Vectors()
    ensures Encode(Ascii("f")) == Ascii("Zg==") && Encode(Ascii("fo")) == Ascii("Zm8=")
    ensures Encode(Ascii("foobar")) == Ascii("Zm9vYmFy")
  {
    hide Quantum;
    var b := Ascii("foobar");
    assert b[3..] == Ascii("bar");
    FirstVectors();
    LastVectors();
  }

  lemma FirstVectors()
    ensures Quantum(Ascii("foobar")) == Ascii("Zm9v") && Quantum(Ascii("bar")) == Ascii("YmFy")
  {
    hide Ascii;
    FirstTexts();
  }

  lemma FirstTexts()
    ensures Ascii("foobar") == [102, 111, 111, 98, 97, 114] && Ascii("bar") == [98, 97, 114]
    ensures Ascii("Zm9v") == [90, 109, 57, 118] && Ascii("YmFy") == [89, 109, 70, 121]
  {
  }

  lemma LastVectors()
    ensures Quantum(Ascii("f")) == Ascii("Zg==") && Quantum(Ascii("fo")) == Ascii("Zm8=")
  {
    hide Ascii;
    LastTexts();
  }

  lemma LastTexts()
    ensures Ascii("f") == [102] && Ascii("fo") == [102, 111]
    ensures Ascii("Zg==") == [90, 103, 61, 61] && Ascii("Zm8=") == [90, 109, 56, 61]
  {
  }
}
