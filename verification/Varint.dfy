/** Base 128 varints (plugin/Protobuf.h, VarintType::ReadVarint), of at most eight bytes. */
module Varint {
  import opened Bytes
  import Seqs

  const MAX_BYTES := 8

  /** 128 to the power of `n`: `value << 7n` is a multiplication by it. */
  function Pow128(n: nat): nat { if n == 0 then 1 else 128 * Pow128(n - 1) }

  /** The number of bytes of the varint that `data` starts with, or 0: the first byte without the high bit,
      if it is among the first eight. */
  function Size(data: seq<byte>): (k: nat)
    ensures k <= |data| && k <= MAX_BYTES
  {
    SizeFrom(data, 0)
  }

  function SizeFrom(data: seq<byte>, i: nat): (k: nat)
    requires i <= |data| && i <= MAX_BYTES
    ensures k <= |data| && k <= MAX_BYTES
    decreases MAX_BYTES - i
  {
    if i == MAX_BYTES || i == |data| then 0
    else if data[i] < 128 then i + 1
    else SizeFrom(data, i + 1)
  }

  /** The sum of the 7-bit groups of the first `k` bytes, the first group being the least. */
  function Groups(data: seq<byte>, k: nat): nat
    requires k <= |data|
  {
    if k == 0 then 0 else Groups(data, k - 1) + (data[k - 1] % 128) as int * Pow128(k - 1)
  }

  datatype Read = Read(size: nat, value: nat)

  /** The bytes consumed and the value, both 0 when there is no varint. */
  function VarintOf(data: seq<byte>): (r: Read)
    ensures r.size <= |data| && r.size <= MAX_BYTES
  {
    var k := Size(data);
    Read(k, Groups(data, k))
  }

  /** How many bytes are inspected. */
  function Reach(data: seq<byte>): (n: nat)
    ensures Size(data) <= n <= |data|
  {
    if Size(data) > 0 then Size(data) else if |data| < MAX_BYTES then |data| else MAX_BYTES
  }

  lemma {:induction false} SizeFromIff(data: seq<byte>, i: nat, k: nat)
    requires i <= |data| && i <= MAX_BYTES
    requires forall j :: 0 <= j < i ==> 128 <= data[j]
    ensures 0 < k == SizeFrom(data, i)
       <==> 0 < k <= |data| && k <= MAX_BYTES && data[k - 1] < 128 && forall j :: 0 <= j < k - 1 ==> 128 <= data[j]
    decreases MAX_BYTES - i
  {
    if i < MAX_BYTES && i < |data| && 128 <= data[i] {
      SizeFromIff(data, i + 1, k);
    }
  }

  /** The reader consumes k > 0 bytes exactly when byte k is the first without the high bit and k is at most
      eight and at most the length. */
  lemma SizeIff(data: seq<byte>, k: nat)
    ensures 0 < k == Size(data)
       <==> 0 < k <= |data| && k <= MAX_BYTES && data[k - 1] < 128 && forall j :: 0 <= j < k - 1 ==> 128 <= data[j]
  {
    SizeFromIff(data, 0, k);
  }

  lemma {:induction false} GroupsBounded(data: seq<byte>, k: nat)
    requires k <= |data|
    ensures Groups(data, k) < Pow128(k)
  {
    if k > 0 {
      GroupsBounded(data, k - 1);
      Scale(data[k - 1] % 128, Pow128(k - 1));
    }
  }

  lemma Scale(g: nat, p: nat)
    requires g <= 127
    ensures g * p <= 127 * p
  {
    assert (127 - g) * p >= 0;
  }

  /** A value stays below 2^56, so the 64-bit accumulator never overflows. */
  lemma ValueBounded(data: seq<byte>)
    ensures VarintOf(data).value < 0x100_0000_0000_0000
  {
    GroupsBounded(data, Size(data));
    PowMonotone(Size(data), MAX_BYTES);
    assert Pow128(8) == 0x100_0000_0000_0000 by { PowEight(); }
  }

  lemma PowEight()
    ensures Pow128(8) == 0x100_0000_0000_0000
  {
    assert Pow128(2) == 16384;
    assert Pow128(4) == 128 * (128 * Pow128(2));
    assert Pow128(6) == 128 * (128 * Pow128(4));
    assert Pow128(8) == 128 * (128 * Pow128(6));
  }

  lemma {:induction false} PowMonotone(m: nat, n: nat)
    requires m <= n
    ensures Pow128(m) <= Pow128(n)
    decreases n - m
  {
    if m < n {
      PowMonotone(m, n - 1);
    }
  }

  /** ReadVarint, from `at` on. `factor` is the power of two that `shift` stands for. */
  method ReadVarint(data: seq<byte>, at: nat, length: nat) returns (result: nat, out: nat)
    requires InReach(data, at, Reach(Window(data, at, length)))
    ensures result == VarintOf(Window(data, at, length)).size
    ensures result > 0 ==> out == VarintOf(Window(data, at, length)).value
  {
    hide Window;
    ghost var window := Window(data, at, length);
    result, out := 0, 0;
    var ptr: nat, factor: nat, value: nat := 0, 1, 0;
    var size := MAX_BYTES;
    while size > 0 && ptr < length
      invariant ptr <= length && 0 <= size == MAX_BYTES - ptr && factor == Pow128(ptr)
      invariant value == Groups(window, ptr)
      invariant SizeFrom(window, ptr) == Size(window)
      decreases size
    {
      Next(data, at, length, ptr);
      size := size - 1;
      value := value + (data[at + ptr] % 128) as int * factor;
      ptr := ptr + 1;
      if data[at + ptr - 1] < 128 {
        out := value;
        result := ptr;
        return;
      }
      factor := factor * 128;
    }
  }

  /** The next byte that is inspected is readable. */
  lemma Next(data: seq<byte>, at: nat, length: nat, ptr: nat)
    requires ptr < length && ptr < MAX_BYTES && InReach(data, at, Reach(Window(data, at, length)))
    requires SizeFrom(Window(data, at, length), ptr) == Size(Window(data, at, length))
    ensures at + ptr < |data| && Window(data, at, length)[ptr] == data[at + ptr]
  {
    hide SizeFrom;
    SizeBehind(Window(data, at, length), ptr);
  }

  lemma {:induction false} SizeBehind(data: seq<byte>, i: nat)
    requires i <= |data| && i <= MAX_BYTES
    ensures SizeFrom(data, i) == 0 || i < SizeFrom(data, i)
    decreases MAX_BYTES - i
  {
    if i < MAX_BYTES && i < |data| && 128 <= data[i] {
      SizeBehind(data, i + 1);
    }
  }

  lemma {:induction false} GroupsPrefix(data: seq<byte>, other: seq<byte>, k: nat)
    requires k <= |data| && k <= |other| && data[..k] == other[..k]
    ensures Groups(data, k) == Groups(other, k)
  {
    if k > 0 {
      assert data[..k][k - 1] == other[..k][k - 1];
      assert data[..k][..k - 1] == data[..k - 1] && other[..k][..k - 1] == other[..k - 1];
      GroupsPrefix(data, other, k - 1);
    }
  }

  /** Bytes that are not inspected make no difference. */
  lemma Local(data: seq<byte>, other: seq<byte>, n: nat)
    requires |data| == |other| && Reach(data) <= n <= |data| && data[..n] == other[..n]
    ensures VarintOf(other) == VarintOf(data) && Reach(other) == Reach(data)
  {
    var k, l := Size(data), Size(other);
    SizeIff(data, k);
    SizeIff(other, l);
    forall j | 0 <= j < n ensures data[j] == other[j] {
      assert data[..n][j] == other[..n][j];
    }
    SizeIff(other, k);
    SizeIff(data, l);
    assert k == l;
    assert data[..n][..k] == data[..k] && other[..n][..k] == other[..k];
    GroupsPrefix(data, other, k);
  }

  // ----- the encoder of Protocol Buffers Encoding, section "Base 128 Varints"

  function Encode(v: nat): (e: seq<byte>)
    ensures 0 < |e|
  {
    if v < 128 then [v] else [128 + v % 128] + Encode(v / 128)
  }

  lemma {:induction false} EncodeShape(v: nat)
    ensures var e := Encode(v);
            e[|e| - 1] < 128 && forall j :: 0 <= j < |e| - 1 ==> 128 <= e[j]
  {
    if v >= 128 {
      EncodeShape(v / 128);
      var e, rest := Encode(v), Encode(v / 128);
      assert forall j :: 1 <= j < |e| ==> e[j] == rest[j - 1];
    }
  }

  lemma {:induction false} EncodeSize(v: nat, n: nat)
    requires v < Pow128(n) && 0 < n
    ensures |Encode(v)| <= n
  {
    if v >= 128 {
      assert v / 128 < Pow128(n - 1);
      assert 1 < n;
      EncodeSize(v / 128, n - 1);
    }
  }

  lemma {:induction false} GroupsCons(b: byte, data: seq<byte>, k: nat)
    requires k <= |data|
    ensures Groups([b] + data, k + 1) == b % 128 + 128 * Groups(data, k)
  {
    if k == 0 {
      assert ([b] + data)[0] == b;
    } else {
      GroupsCons(b, data, k - 1);
      var g: int, p: int := data[k - 1] % 128, Pow128(k - 1);
      assert ([b] + data)[k] == data[k - 1];
      assert g * (128 * p) == 128 * (g * p);
    }
  }

  lemma GroupsOne(v: byte, rest: seq<byte>)
    requires v < 128
    ensures Groups([v] + rest, 1) == v
  {
    assert Groups([v] + rest, 0) == 0 && ([v] + rest)[0] == v && Pow128(0) == 1;
  }

  lemma Digit(v: nat)
    ensures (128 + v % 128) % 128 + 128 * (v / 128) == v
  {
  }

  lemma {:induction false} GroupsEncode(v: nat, rest: seq<byte>)
    ensures Groups(Encode(v) + rest, |Encode(v)|) == v
  {
    hide Groups, Pow128;
    if v < 128 {
      GroupsOne(v, rest);
    } else {
      var tail := Encode(v / 128);
      GroupsEncode(v / 128, rest);
      Seqs.Assoc([128 + v % 128], tail, rest);
      GroupsCons(128 + v % 128, tail + rest, |tail|);
      Digit(v);
    }
  }

  /** Reading undoes encoding, for every value below 2^56 and whatever follows. */
  lemma ReadEncoded(v: nat, rest: seq<byte>)
    requires v < Pow128(MAX_BYTES)
    ensures VarintOf(Encode(v) + rest) == Read(|Encode(v)|, v)
  {
    var e := Encode(v);
    EncodeShape(v);
    EncodeSize(v, MAX_BYTES);
    SizeIff(e + rest, |e|);
    GroupsEncode(v, rest);
  }

  /** The example of section "Base 128 Varints". */
  lemma Example(rest: seq<byte>)
    ensures Encode(150) == [0x96, 0x01] && VarintOf([0x96, 0x01] + rest) == Read(2, 150)
  {
    assert Encode(150) == [0x96] + Encode(1) == [0x96, 0x01];
    PowEight();
    ReadEncoded(150, rest);
  }
}
