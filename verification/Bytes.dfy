/** Bytes, the fixed-width unsigned integers of the parsers, and the byte orders in which they are read.

    Shifts and masks are written as the multiplications, divisions and remainders they compute; every
    `|` of the source that is modelled by a sum joins operands without a common bit. */
module Bytes {

  type byte = b: int | 0 <= b < 0x100
  type u16 = n: int | 0 <= n < 0x1_0000
  type u32 = n: int | 0 <= n < 0x1_0000_0000

  /** The length of a key id. */
  const KEY_LENGTH := 16

  /** The conversions to a narrower unsigned type, which keep the low bits. */
  function U8(n: int): byte { n % 0x100 }
  function U16(n: int): u16 { n % 0x1_0000 }
  function U32(n: int): u32 { n % 0x1_0000_0000 }

  function Read16LE(data: seq<byte>, pos: nat): u16
    requires pos + 2 <= |data|
  {
    data[pos] as int + 0x100 * data[pos + 1] as int
  }

  function Read32LE(data: seq<byte>, pos: nat): u32
    requires pos + 4 <= |data|
  {
    data[pos] as int + 0x100 * data[pos + 1] as int
    + 0x1_0000 * data[pos + 2] as int + 0x100_0000 * data[pos + 3] as int
  }

  function Read32BE(data: seq<byte>, pos: nat): u32
    requires pos + 4 <= |data|
  {
    0x100_0000 * data[pos] as int + 0x1_0000 * data[pos + 1] as int
    + 0x100 * data[pos + 2] as int + data[pos + 3] as int
  }

  function Write16LE(n: u16): (w: seq<byte>)
    ensures |w| == 2
  {
    [n % 0x100, n / 0x100]
  }

  function Write32LE(n: u32): (w: seq<byte>)
    ensures |w| == 4
  {
    var a := n / 0x100;
    var b := a / 0x100;
    [n % 0x100, a % 0x100, b % 0x100, b / 0x100]
  }

  function Write32BE(n: u32): (w: seq<byte>)
    ensures |w| == 4
  {
    var a := n / 0x100;
    var b := a / 0x100;
    [b / 0x100, b % 0x100, a % 0x100, n % 0x100]
  }

  /** `part` lies in `data` at `pos`. */
  predicate Holds(data: seq<byte>, pos: nat, part: seq<byte>)
  {
    pos + |part| <= |data| && data[pos..pos + |part|] == part
  }

  lemma HoldsSplit(data: seq<byte>, pos: nat, left: seq<byte>, right: seq<byte>)
    requires Holds(data, pos, left + right)
    ensures Holds(data, pos, left) && Holds(data, pos + |left|, right)
  {
    var whole := left + right;
    assert data[pos..pos + |left|] == whole[..|left|] == left;
    assert data[pos + |left|..pos + |left| + |right|] == whole[|left|..] == right;
  }

  lemma HoldsFits(data: seq<byte>, pos: nat, part: seq<byte>)
    requires Holds(data, pos, part)
    ensures pos + |part| <= |data|
  {
  }

  lemma HoldsAt(data: seq<byte>, pos: nat, part: seq<byte>, i: nat)
    requires Holds(data, pos, part) && i < |part|
    ensures data[pos + i] == part[i]
  {
    assert data[pos..pos + |part|][i] == part[i];
  }

  /** The bytes of an ASCII text. */
  function Ascii(text: string): (b: seq<byte>)
    ensures |b| == |text|
  {
    seq(|text|, i requires 0 <= i < |text| => U8(text[i] as int))
  }

  /** In which order the bytes stand. */
  lemma ByteOrders()
    ensures Write16LE(0x1234) == [0x34, 0x12] && Read16LE([0x34, 0x12], 0) == 0x1234
    ensures Write32LE(0x1234_5678) == [0x78, 0x56, 0x34, 0x12] && Read32LE([0x78, 0x56, 0x34, 0x12], 0) == 0x1234_5678
    ensures Write32BE(0x1234_5678) == [0x12, 0x34, 0x56, 0x78] && Read32BE([0x12, 0x34, 0x56, 0x78], 0) == 0x1234_5678
  {
  }

  /** The `length` bytes from `at` on, of which those that are not readable count as 0. */
  function Window(data: seq<byte>, at: nat, length: nat): (w: seq<byte>)
    ensures |w| == length
  {
    seq(length, i requires 0 <= i < length => if at + i < |data| then data[at + i] else 0)
  }

  lemma WindowIs(data: seq<byte>, at: nat, length: nat)
    requires at + length <= |data|
    ensures Window(data, at, length) == data[at..at + length]
  {
  }

  lemma WindowDrop(data: seq<byte>, at: nat, length: nat, n: nat)
    requires n <= length
    ensures Window(data, at, length)[n..] == Window(data, at + n, length - n)
  {
  }

  /** The first `n` bytes from `at` on are readable. */
  predicate InReach(data: seq<byte>, at: nat, n: nat) { n == 0 || at + n <= |data| }

  lemma Reads16LE(data: seq<byte>, pos: nat, n: u16)
    requires Holds(data, pos, Write16LE(n))
    ensures Read16LE(data, pos) == n
  {
    var w := Write16LE(n);
    HoldsAt(data, pos, w, 0);
    HoldsAt(data, pos, w, 1);
  }

  lemma Reads32LE(data: seq<byte>, pos: nat, n: u32)
    requires Holds(data, pos, Write32LE(n))
    ensures Read32LE(data, pos) == n
  {
    var w := Write32LE(n);
    HoldsAt(data, pos, w, 0);
    HoldsAt(data, pos, w, 1);
    HoldsAt(data, pos, w, 2);
    HoldsAt(data, pos, w, 3);
  }

  lemma Reads32BE(data: seq<byte>, pos: nat, n: u32)
    requires Holds(data, pos, Write32BE(n))
    ensures Read32BE(data, pos) == n
  {
    var w := Write32BE(n);
    HoldsAt(data, pos, w, 0);
    HoldsAt(data, pos, w, 1);
    HoldsAt(data, pos, w, 2);
    HoldsAt(data, pos, w, 3);
  }
}

/** Facts about concatenation, kept apart so that proofs use them one at a time. */
module Seqs {

  lemma Assoc<T>(a: seq<T>, b: seq<T>, c: seq<T>)
    ensures (a + b) + c == a + (b + c)
  {
  }

  lemma Tail<T>(a: seq<T>, b: seq<T>)
    requires a != []
    ensures (a + b)[0] == a[0] && (a + b)[1..] == a[1..] + b
  {
  }

  lemma Nil<T>(a: seq<T>)
    ensures [] + a == a && a + [] == a
  {
  }

  lemma Init<T>(a: seq<T>, b: seq<T>)
    requires b != []
    ensures (a + b)[..|a + b| - 1] == a + b[..|b| - 1] && (a + b)[|a + b| - 1] == b[|b| - 1]
  {
  }

  lemma Grow<T>(a: seq<T>, n: nat)
    requires n < |a|
    ensures a[..n + 1] == a[..n] + [a[n]]
  {
  }

  lemma Slices<T>(a: seq<T>, i: nat, j: nat, k: nat)
    requires i <= j <= k <= |a|
    ensures a[i..k] == a[i..j] + a[j..k]
  {
  }

  lemma Drop<T>(a: seq<T>, i: nat, j: nat, k: nat)
    requires i <= |a| && j <= k <= |a| - i
    ensures a[i..][j..k] == a[i + j..i + k] && a[i..][k..] == a[i + k..]
  {
  }

  lemma Suffix<T>(a: seq<T>, b: seq<T>)
    ensures (a + b)[|a|..] == b && (a + b)[|a|..|a| + |b|] == b && (a + b)[..|a|] == a
  {
  }
}

module Options {

  datatype Option<+T> = None | Some(value: T)
}

/** What a read of a caller's buffer comes to. */
module Outcomes {

  /** `Ok` is a run that stays inside the readable bytes and ends; `Wild` is one that leaves them, and nothing
      is said about the source's behaviour then; `Endless` is one that stays inside them and never ends. */
  datatype Outcome<+T> = Ok(value: T) | Wild | Endless {

    predicate IsFailure() { !Ok? }

    function PropagateFailure<U>(): Outcome<U>
      requires !Ok?
    {
      if Wild? then Wild else Endless
    }

    function Extract(): T
      requires Ok?
    {
      value
    }
  }
}
