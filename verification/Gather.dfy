/** Taking the encrypted ranges out of a frame, and putting the decrypted bytes back
    (client/adapter/gstreamer/open_cdm_adapter.cpp, opencdm_gstreamer_session_decrypt). */
module Gather {
  import opened Bytes
  import opened SubSamples
  import Seqs

  function Read16BE(data: seq<byte>, pos: nat): u16
    requires pos + 2 <= |data|
  {
    0x100 * data[pos] as int + data[pos + 1] as int
  }

  // ----- the subsample buffer

  /** The position of a reader, and the two variables that it fills. */
  datatype Reader = Reader(pos: nat, current: SubSample)

  /** Reads one entry. A read that does not fit leaves the position and its variable as they were. */
  function Next(table: seq<byte>, r: Reader): Reader
  {
    var one := if r.pos + 2 <= |table| then Reader(r.pos + 2, SubSample(Read16BE(table, r.pos), r.current.encrypted))
               else r;
    if one.pos + 4 <= |table|
    then Reader(one.pos + 4, SubSample(one.current.clear, Read32BE(table, one.pos)))
    else one
  }

  function After(table: seq<byte>, count: nat, r: Reader): Reader
  {
    if count == 0 then r else After(table, count - 1, Next(table, r))
  }

  /** The entries that a pass over the buffer sees. */
  function Entries(table: seq<byte>, count: nat, r: Reader): (es: seq<SubSample>)
    ensures |es| == count
  {
    if count == 0 then [] else [Next(table, r).current] + Entries(table, count - 1, Next(table, r))
  }

  const BLANK := SubSample(0, 0)

  function Map(table: seq<byte>, count: nat): (es: seq<SubSample>)
    ensures |es| == count
  {
    Entries(table, count, Reader(0, BLANK))
  }

  /** Every pass sees the same entries, although the variables keep the last values of the pass before, and
      a buffer that is too short leaves some of them unread. */
  lemma PassesAgree(table: seq<byte>, count: nat)
    ensures var again := After(table, count, Reader(0, BLANK)).current;
            && Entries(table, count, Reader(0, again)) == Map(table, count)
            && After(table, count, Reader(0, again)).current == again
  {
    var again := After(table, count, Reader(0, BLANK)).current;
    if count > 0 {
      if |table| >= 2 {
        if |table| < 6 {
          NoEncrypted(table, count, Reader(0, BLANK));
        }
        assert Next(table, Reader(0, again)) == Next(table, Reader(0, BLANK));
      } else {
        NothingRead(table, count, Reader(0, BLANK));
      }
    }
  }

  /** Without room for a whole entry, no encrypted size is ever read. */
  lemma {:induction false} NoEncrypted(table: seq<byte>, count: nat, r: Reader)
    requires |table| < 6 && r.pos % 2 == 0
    requires r.current.encrypted == 0 && (r.pos == 0 || |table| < r.pos + 6)
    ensures After(table, count, r).current.encrypted == 0
    decreases count
  {
    if count > 0 {
      NoEncrypted(table, count - 1, Next(table, r));
    }
  }

  lemma {:induction false} NothingRead(table: seq<byte>, count: nat, r: Reader)
    requires |table| < 2 && r.pos == 0
    ensures After(table, count, r) == r
    decreases count
  {
    if count > 0 {
      NothingRead(table, count - 1, r);
    }
  }

  // ----- the bytes of the subsample buffer

  /** Two bytes of clear size and four of encrypted size, the highest first. */
  function EncodeEntry(e: SubSample): (b: seq<byte>)
    ensures |b| == 6
  {
    [e.clear / 0x100, e.clear % 0x100,
     e.encrypted / 0x100_0000, e.encrypted / 0x1_0000 % 0x100, e.encrypted / 0x100 % 0x100, e.encrypted % 0x100]
  }

  function EncodeTable(es: seq<SubSample>): (b: seq<byte>)
    ensures |b| == 6 * |es|
  {
    if es == [] then [] else EncodeEntry(es[0]) + EncodeTable(es[1..])
  }

  lemma EntryReads(table: seq<byte>, pos: nat, e: SubSample)
    requires Holds(table, pos, EncodeEntry(e))
    ensures pos + 6 <= |table| && SubSample(Read16BE(table, pos), Read32BE(table, pos + 2)) == e
  {
    var b := EncodeEntry(e);
    HoldsFits(table, pos, b);
    HoldsAt(table, pos, b, 0);
    HoldsAt(table, pos, b, 1);
    HoldsAt(table, pos, b, 2);
    HoldsAt(table, pos, b, 3);
    HoldsAt(table, pos, b, 4);
    HoldsAt(table, pos, b, 5);
    FourBytes(e.encrypted);
  }

  lemma FourBytes(n: u32)
    ensures 0x100_0000 * (n / 0x100_0000) + 0x1_0000 * (n / 0x1_0000 % 0x100) + 0x100 * (n / 0x100 % 0x100)
            + n % 0x100 == n
  {
    assert n / 0x1_0000 == n / 0x100 / 0x100 && n / 0x100_0000 == n / 0x100 / 0x100 / 0x100;
  }

  lemma {:induction false} EntriesRead(table: seq<byte>, r: Reader, es: seq<SubSample>, more: nat)
    requires Holds(table, r.pos, EncodeTable(es))
    ensures Entries(table, |es| + more, r)
         == es + Entries(table, more, Reader(r.pos + 6 * |es|, if es == [] then r.current else es[|es| - 1]))
    decreases |es|
  {
    hide Read16BE, Read32BE, EncodeEntry, Holds;
    if es == [] {
      Seqs.Nil(Entries(table, more, r));
    } else {
      HoldsSplit(table, r.pos, EncodeEntry(es[0]), EncodeTable(es[1..]));
      EntryReads(table, r.pos, es[0]);
      var next := Next(table, r);
      assert next == Reader(r.pos + 6, es[0]);
      EntriesRead(table, next, es[1..], more);
      Seqs.Assoc([es[0]], es[1..], Entries(table, more, Reader(r.pos + 6 * |es|, es[|es| - 1])));
      assert [es[0]] + es[1..] == es;
    }
  }

  /** What is seen behind the last whole entry: the encrypted size of that entry, and its clear size until two or
      four of the bytes that are left over are read as others. */
  function Stale(last: SubSample, rest: seq<byte>, n: nat): seq<SubSample>
    requires |rest| < 6
  {
    seq(n, i =>
      if |rest| < 2 then last
      else if |rest| < 4 || i == 0 then SubSample(0x100 * rest[0] as int + rest[1] as int, last.encrypted)
      else SubSample(0x100 * rest[2] as int + rest[3] as int, last.encrypted))
  }

  /** The last entry, or what the variables hold before the first one. */
  function Last(es: seq<SubSample>): SubSample { if es == [] then SubSample(0, 0) else es[|es| - 1] }

  /** A table of entries is read as these entries, and a table that ends too early as they and stale ones. */
  lemma MapReads(es: seq<SubSample>, rest: seq<byte>, more: nat)
    requires |rest| < 6
    ensures Map(EncodeTable(es) + rest, |es| + more) == es + Stale(Last(es), rest, more)
  {
    hide Map, EncodeTable, Stale, Holds;
    Begins(EncodeTable(es), rest);
    MapHeld(EncodeTable(es) + rest, es, rest, more);
  }

  lemma MapOfTable(es: seq<SubSample>)
    ensures Map(EncodeTable(es), |es|) == es
  {
    hide Map, EncodeTable;
    Seqs.Nil(EncodeTable(es));
    MapReads(es, [], 0);
  }

  lemma MapHeld(table: seq<byte>, es: seq<SubSample>, rest: seq<byte>, more: nat)
    requires |rest| < 6 && Holds(table, 0, EncodeTable(es))
    requires |table| == 6 * |es| + |rest| && table[6 * |es|..] == rest
    ensures Map(table, |es| + more) == es + Stale(Last(es), rest, more)
  {
    hide Entries, EncodeTable, Stale, Holds;
    EntriesRead(table, Reader(0, BLANK), es, more);
    StaleRead(table, 6 * |es|, Last(es), rest, more);
  }

  lemma Begins(a: seq<byte>, b: seq<byte>)
    ensures Holds(a + b, 0, a) && (a + b)[|a|..] == b
  {
  }

  lemma StaleRead(table: seq<byte>, pos: nat, last: SubSample, rest: seq<byte>, n: nat)
    requires |rest| < 6 && pos + |rest| == |table| && table[pos..] == rest
    ensures Entries(table, n, Reader(pos, last)) == Stale(last, rest, n)
  {
    assert forall i :: 0 <= i < |rest| ==> table[pos + i] == table[pos..][i];
    if n > 0 {
      if |rest| < 2 {
        SameOnwards(table, n, Reader(pos, last));
      } else {
        var first := SubSample(0x100 * rest[0] as int + rest[1] as int, last.encrypted);
        assert Next(table, Reader(pos, last)) == Reader(pos + 2, first);
        if |rest| < 4 {
          SameOnwards(table, n - 1, Reader(pos + 2, first));
        } else if n > 1 {
          var second := SubSample(0x100 * rest[2] as int + rest[3] as int, last.encrypted);
          assert Next(table, Reader(pos + 2, first)) == Reader(pos + 4, second);
          SameOnwards(table, n - 2, Reader(pos + 4, second));
        }
      }
    }
  }

  /** Where nothing can be read any more, the variables stay as they are. */
  lemma {:induction false} SameOnwards(table: seq<byte>, n: nat, r: Reader)
    requires |table| < r.pos + 2
    ensures Entries(table, n, r) == seq(n, i => r.current)
  {
    if n > 0 {
      SameOnwards(table, n - 1, r);
    }
  }

  // ----- frames

  function Encrypted(es: seq<SubSample>): nat
  {
    if es == [] then 0 else es[0].encrypted + Encrypted(es[1..])
  }

  /** The encrypted ranges, in order. */
  function Gathered(frame: seq<byte>, es: seq<SubSample>): (g: seq<byte>)
    requires Total(es) <= |frame|
    ensures |g| == Encrypted(es)
  {
    if es == [] then []
    else frame[es[0].clear..Size(es[0])] + Gathered(frame[Size(es[0])..], es[1..])
  }

  /** The frame with `plain` in the place of the encrypted ranges. */
  function Scattered(frame: seq<byte>, es: seq<SubSample>, plain: seq<byte>): (s: seq<byte>)
    requires Total(es) <= |frame| && Encrypted(es) <= |plain|
    ensures |s| == |frame|
  {
    if es == [] then frame
    else
      var e := es[0];
      frame[..e.clear] + plain[..e.encrypted] + Scattered(frame[Size(e)..], es[1..], plain[e.encrypted..])
  }

  /** Offset `k` of the frame lies in an encrypted range. */
  predicate InEncrypted(es: seq<SubSample>, k: nat)
  {
    es != [] && if k < Size(es[0]) then es[0].clear <= k else InEncrypted(es[1..], k - Size(es[0]))
  }

  /** These are the offsets behind the clear part of some entry, up to its end. */
  lemma {:induction false} InEncryptedIff(es: seq<SubSample>, k: nat)
    ensures InEncrypted(es, k)
       <==> exists i :: 0 <= i < |es| && Total(es[..i]) + es[i].clear <= k < Total(es[..i]) + Size(es[i])
    decreases |es|
  {
    if es != [] {
      var rest := es[1..];
      forall i | 0 <= i < |es|
        ensures Total(es[..i]) == if i == 0 then 0 else Size(es[0]) + Total(rest[..i - 1])
      {
        assert i > 0 ==> es[..i][1..] == rest[..i - 1];
      }
      if k < Size(es[0]) {
        assert Total(es[..0]) == 0;
      } else {
        InEncryptedIff(rest, k - Size(es[0]));
        if i :| 0 <= i < |rest|
                && Total(rest[..i]) + rest[i].clear <= k - Size(es[0]) < Total(rest[..i]) + Size(rest[i]) {
          assert es[i + 1] == rest[i] && Total(es[..i + 1]) == Size(es[0]) + Total(rest[..i]);
        }
        if i :| 0 <= i < |es| && Total(es[..i]) + es[i].clear <= k < Total(es[..i]) + Size(es[i]) {
          assert i > 0 && rest[i - 1] == es[i] && Total(es[..i]) == Size(es[0]) + Total(rest[..i - 1]);
        }
      }
    }
  }

  /** All clear ranges and the tail of the frame are unchanged. */
  lemma {:induction false} ScatterKeepsClear(frame: seq<byte>, es: seq<SubSample>, plain: seq<byte>, k: nat)
    requires Total(es) <= |frame| && Encrypted(es) <= |plain|
    requires k < |frame| && !InEncrypted(es, k)
    ensures Scattered(frame, es, plain)[k] == frame[k]
  {
    if es != [] && Size(es[0]) <= k {
      ScatterKeepsClear(frame[Size(es[0])..], es[1..], plain[es[0].encrypted..], k - Size(es[0]));
    }
  }

  /** The encrypted ranges spell what was scattered. */
  lemma {:induction false} GatherScattered(frame: seq<byte>, es: seq<SubSample>, plain: seq<byte>)
    requires Total(es) <= |frame| && Encrypted(es) == |plain|
    ensures Gathered(Scattered(frame, es, plain), es) == plain
  {
    hide Gathered, Scattered, Total, Encrypted;
    Sums(es);
    if es != [] {
      var e := es[0];
      var rest := Scattered(frame[Size(e)..], es[1..], plain[e.encrypted..]);
      ScatterStep(frame, es, plain);
      GatherScattered(frame[Size(e)..], es[1..], plain[e.encrypted..]);
      GatherPieces(frame[..e.clear], plain[..e.encrypted], rest, es);
      Halves(plain, e.encrypted);
    }
  }

  lemma Halves(s: seq<byte>, i: nat)
    requires i <= |s|
    ensures s[..i] + s[i..] == s
  {
  }

  lemma GatherPieces(a: seq<byte>, b: seq<byte>, c: seq<byte>, es: seq<SubSample>)
    requires es != [] && |a| == es[0].clear && |b| == es[0].encrypted && Total(es) <= |a + b + c|
    ensures Gathered(a + b + c, es) == b + Gathered(c, es[1..])
  {
    Pieces(a, b, c);
  }

  lemma Pieces(a: seq<byte>, b: seq<byte>, c: seq<byte>)
    ensures (a + b + c)[|a|..|a| + |b|] == b && (a + b + c)[|a| + |b|..] == c
  {
  }

  /** Scattering what was gathered changes nothing. */
  lemma {:induction false} ScatterGathered(frame: seq<byte>, es: seq<SubSample>)
    requires Total(es) <= |frame|
    ensures Scattered(frame, es, Gathered(frame, es)) == frame
  {
    if es != [] {
      var e := es[0];
      var rest := Gathered(frame[Size(e)..], es[1..]);
      ScatterGathered(frame[Size(e)..], es[1..]);
      Seqs.Suffix(frame[e.clear..Size(e)], rest);
      Parts(frame, e.clear, Size(e));
    }
  }

  lemma Parts(s: seq<byte>, i: nat, j: nat)
    requires i <= j <= |s|
    ensures s[..i] + s[i..j] + s[j..] == s
  {
  }

  // ----- in place

  type Decryptor = seq<byte> -> seq<byte>

  /** What a decryption makes of a frame. */
  function Decrypted(frame: seq<byte>, es: seq<SubSample>, decrypt: Decryptor): seq<byte>
    requires Total(es) <= |frame| && Encrypted(es) <= |decrypt(Gathered(frame, es))|
  {
    Scattered(frame, es, decrypt(Gathered(frame, es)))
  }

  /** For every map that fits the frame: the clear bytes are unchanged, the encrypted ranges spell the
      decryptor's output, and a decryptor that changes nothing changes nothing. */
  lemma DecryptedIs(frame: seq<byte>, es: seq<SubSample>, decrypt: Decryptor)
    requires Total(es) <= |frame| && |decrypt(Gathered(frame, es))| == Encrypted(es)
    ensures var after := Decrypted(frame, es, decrypt);
            && |after| == |frame|
            && (forall k :: 0 <= k < |frame| && !InEncrypted(es, k) ==> after[k] == frame[k])
            && Gathered(after, es) == decrypt(Gathered(frame, es))
            && (decrypt(Gathered(frame, es)) == Gathered(frame, es) ==> after == frame)
  {
    var plain := decrypt(Gathered(frame, es));
    forall k | 0 <= k < |frame| && !InEncrypted(es, k) ensures Scattered(frame, es, plain)[k] == frame[k] {
      ScatterKeepsClear(frame, es, plain, k);
    }
    GatherScattered(frame, es, plain);
    ScatterGathered(frame, es);
  }

  /** The subsample branch: a pass to add up the encrypted sizes, a pass to gather, the decryption, and a pass
      to scatter. */
  method SessionDecrypt(data: array<byte>, table: seq<byte>, count: nat, decrypt: Decryptor)
    requires Total(Map(table, count)) <= data.Length < 0x1_0000_0000
    requires |decrypt(Gathered(data[..], Map(table, count)))| == Encrypted(Map(table, count))
    modifies data
    ensures data[..] == Decrypted(old(data[..]), Map(table, count), decrypt)
  {
    hide Gathered, Scattered, Total, Encrypted, Entries, After, Next;
    var totalEncrypted, current := AddUp(table, count);
    PassesAgree(table, count);
    var encryptedData := new byte[totalEncrypted];
    current := Take(data, table, count, current, encryptedData);
    assert encryptedData[..] == Gathered(data[..], Map(table, count));
    var plain := decrypt(encryptedData[..]);
    Fill(encryptedData, plain);
    PutBack(data, table, count, current, encryptedData);
  }

  /** The decryptor works in place. */
  method Fill(target: array<byte>, bytes: seq<byte>)
    requires |bytes| == target.Length
    modifies target
    ensures target[..] == bytes
  {
    forall i | 0 <= i < |bytes| {
      target[i] := bytes[i];
    }
  }

  method AddUp(table: seq<byte>, count: nat) returns (totalEncrypted: u32, current: SubSample)
    requires Total(Map(table, count)) < 0x1_0000_0000
    ensures totalEncrypted == Encrypted(Map(table, count))
    ensures current == After(table, count, Reader(0, BLANK)).current
  {
    hide Next;
    totalEncrypted := 0;
    var r := Reader(0, BLANK);
    var position := 0;
    ghost var left := Map(table, count);
    while position < count
      invariant 0 <= position <= count
      invariant left == Entries(table, count - position, r)
      invariant After(table, count - position, r) == After(table, count, Reader(0, BLANK))
      invariant totalEncrypted + Encrypted(left) == Encrypted(Map(table, count))
    {
      EncryptedBound(left);
      EncryptedBound(Map(table, count));
      r := Next(table, r);
      left := left[1..];
      totalEncrypted := totalEncrypted + r.current.encrypted;
      position := position + 1;
    }
    current := r.current;
  }

  lemma {:induction false} EncryptedBound(es: seq<SubSample>)
    ensures Encrypted(es) <= Total(es)
  {
    if es != [] {
      EncryptedBound(es[1..]);
    }
  }

  method Memcpy(target: array<byte>, at: nat, source: array<byte>, from: nat, n: nat)
    requires target != source && at + n <= target.Length && from + n <= source.Length
    modifies target
    ensures target[..] == old(target[..at]) + source[from..from + n] + old(target[at + n..])
  {
    forall i | 0 <= i < n {
      target[at + i] := source[from + i];
    }
  }

  /** The pass that gathers. */
  method Take(data: array<byte>, table: seq<byte>, count: nat, before: SubSample, target: array<byte>)
    returns (current: SubSample)
    requires Total(Entries(table, count, Reader(0, before))) <= data.Length && data != target
    requires target.Length == Encrypted(Entries(table, count, Reader(0, before)))
    modifies target
    ensures target[..] == Gathered(data[..], Entries(table, count, Reader(0, before)))
    ensures current == After(table, count, Reader(0, before)).current
  {
    hide Next, Gathered, Total, Encrypted;
    var r := Reader(0, before);
    var position, index: nat, iter: nat := 0, 0, 0;
    ghost var all := Entries(table, count, r);
    ghost var left, frame, done := all, data[..], [];
    assert data[0..] == frame;
    while position < count
      invariant 0 <= position <= count && left == Entries(table, count - position, r)
      invariant After(table, count - position, r) == After(table, count, Reader(0, before))
      invariant index + Total(left) == Total(all) && iter + Encrypted(left) == target.Length
      invariant done == target[..iter] && done + Gathered(frame[index..], left) == Gathered(frame, all)
    {
      r := Next(table, r);
      var inClear, inEncrypted := r.current.clear, r.current.encrypted;
      Sums(left);
      TakeStep(frame, index, left, done, Gathered(frame, all));
      done := done + frame[index + inClear..index + inClear + inEncrypted];
      Memcpy(target, iter, data, index + inClear, inEncrypted);
      left := left[1..];
      index := index + inClear + inEncrypted;
      iter := iter + inEncrypted;
      position := position + 1;
      assert target[..iter] == done;
    }
    current := r.current;
    Sums([]);
    assert target[..iter] == target[..] && left == [] && done + [] == done;
  }

  lemma Sums(es: seq<SubSample>)
    ensures Total([]) == 0 && Encrypted([]) == 0 && forall frame :: Gathered(frame, []) == []
    ensures es != [] ==> Total(es) == es[0].clear + es[0].encrypted + Total(es[1..])
    ensures es != [] ==> Encrypted(es) == es[0].encrypted + Encrypted(es[1..])
    ensures forall frame, plain :: Scattered(frame, [], plain) == frame
  {
  }

  lemma TakeStep(frame: seq<byte>, index: nat, es: seq<SubSample>, done: seq<byte>, all: seq<byte>)
    requires es != [] && index + Total(es) <= |frame| && done + Gathered(frame[index..], es) == all
    ensures index + Size(es[0]) + Total(es[1..]) <= |frame|
    ensures var from, to := index + es[0].clear, index + Size(es[0]);
            (done + frame[from..to]) + Gathered(frame[to..], es[1..]) == all
  {
    hide Gathered, Total;
    var e := es[0];
    Sums(es);
    GatherStep(frame[index..], es);
    Seqs.Drop(frame, index, e.clear, Size(e));
    Seqs.Assoc(done, frame[index + e.clear..index + Size(e)], Gathered(frame[index + Size(e)..], es[1..]));
  }

  lemma GatherStep(frame: seq<byte>, es: seq<SubSample>)
    requires es != [] && Total(es) <= |frame|
    ensures Size(es[0]) <= |frame|
    ensures Gathered(frame, es) == frame[es[0].clear..Size(es[0])] + Gathered(frame[Size(es[0])..], es[1..])
  {
  }

  /** The pass that scatters. */
  method PutBack(data: array<byte>, table: seq<byte>, count: nat, before: SubSample, source: array<byte>)
    requires Total(Entries(table, count, Reader(0, before))) <= data.Length && data != source
    requires source.Length == Encrypted(Entries(table, count, Reader(0, before)))
    modifies data
    ensures data[..] == Scattered(old(data[..]), Entries(table, count, Reader(0, before)), source[..])
  {
    hide Next, Scattered, Total, Encrypted, Halfway;
    var r := Reader(0, before);
    var position, index: nat, total: nat := 0, 0, 0;
    ghost var all := Entries(table, count, r);
    ghost var left, frame, plain := all, data[..], source[..];
    HalfwayStarts(frame, all, plain);
    assert plain[0..] == plain;
    while position < count
      invariant 0 <= position <= count && left == Entries(table, count - position, r)
      invariant total + Total(left) == Total(all) && index + Encrypted(left) == |plain|
      invariant source[..] == plain
      invariant Halfway(data[..], frame, total, left, plain[index..], Scattered(frame, all, plain))
    {
      r := Next(table, r);
      var inClear, inEncrypted := r.current.clear, r.current.encrypted;
      Sums(left);
      ghost var now := data[..];
      HalfwayFits(now, frame, total, left, plain[index..], Scattered(frame, all, plain));
      PutStep(now, frame, total, left, plain[index..], Scattered(frame, all, plain));
      Memcpy(data, total + inClear, source, index, inEncrypted);
      assert plain[index..][..inEncrypted] == source[index..index + inEncrypted];
      assert plain[index..][inEncrypted..] == plain[index + inEncrypted..];
      left := left[1..];
      index := index + inEncrypted;
      total := total + inClear + inEncrypted;
      position := position + 1;
    }
    assert left == [];
    HalfwayEnds(data[..], frame, total, plain[index..], Scattered(frame, all, plain));
  }

  /** The frame after a part of the scattering: done up to `total`, untouched behind. */
  predicate Halfway(now: seq<byte>, frame: seq<byte>, total: nat, left: seq<SubSample>, plain: seq<byte>,
                    result: seq<byte>)
  {
    && |now| == |frame| && total + Total(left) <= |frame| && Encrypted(left) <= |plain|
    && now[total..] == frame[total..]
    && now[..total] + Scattered(frame[total..], left, plain) == result
  }

  lemma HalfwayStarts(frame: seq<byte>, es: seq<SubSample>, plain: seq<byte>)
    requires Total(es) <= |frame| && Encrypted(es) == |plain|
    ensures Halfway(frame, frame, 0, es, plain, Scattered(frame, es, plain))
  {
    hide Scattered, Total, Encrypted;
    assert frame[0..] == frame && frame[..0] == [];
    Seqs.Nil(Scattered(frame, es, plain));
  }

  lemma HalfwayFits(now: seq<byte>, frame: seq<byte>, total: nat, left: seq<SubSample>, plain: seq<byte>,
                    result: seq<byte>)
    requires left != [] && Halfway(now, frame, total, left, plain, result)
    ensures total + Size(left[0]) <= |now| == |frame| && left[0].encrypted <= |plain|
  {
    hide Scattered, Total, Encrypted;
    Sums(left);
  }

  lemma HalfwayEnds(now: seq<byte>, frame: seq<byte>, total: nat, plain: seq<byte>, result: seq<byte>)
    requires Halfway(now, frame, total, [], plain, result)
    ensures now == result
  {
    assert now[..total] + now[total..] == now;
  }

  lemma PutStep(now: seq<byte>, frame: seq<byte>, total: nat, left: seq<SubSample>, plain: seq<byte>,
                result: seq<byte>)
    requires left != [] && Halfway(now, frame, total, left, plain, result)
    ensures var e := left[0];
            var next := now[..total + e.clear] + plain[..e.encrypted] + now[total + Size(e)..];
            Halfway(next, frame, total + Size(e), left[1..], plain[e.encrypted..], result)
  {
    hide Scattered, Total, Encrypted;
    var e := left[0];
    Sums(left);
    ScatterStep(frame[total..], left, plain);
    Seqs.Drop(frame, total, e.clear, Size(e));
    Seqs.Drop(now, total, e.clear, Size(e));
    Patched(now, frame, total, e.clear, plain[..e.encrypted],
            Scattered(frame[total + Size(e)..], left[1..], plain[e.encrypted..]));
  }

  lemma ScatterStep(frame: seq<byte>, es: seq<SubSample>, plain: seq<byte>)
    requires es != [] && Total(es) <= |frame| && Encrypted(es) <= |plain|
    ensures Size(es[0]) <= |frame|
    ensures Scattered(frame, es, plain)
         == frame[..es[0].clear] + plain[..es[0].encrypted]
            + Scattered(frame[Size(es[0])..], es[1..], plain[es[0].encrypted..])
  {
  }

  lemma Patched(now: seq<byte>, frame: seq<byte>, total: nat, clear: nat, range: seq<byte>, behind: seq<byte>)
    requires |now| == |frame| && total + clear + |range| <= |now| && now[total..] == frame[total..]
    ensures var next := now[..total + clear] + range + now[total + clear + |range|..];
            && |next| == |now|
            && next[total + clear + |range|..] == now[total + clear + |range|..]
            && next[..total + clear + |range|] + behind == now[..total] + (frame[total..][..clear] + range + behind)
  {
    var next := now[..total + clear] + range + now[total + clear + |range|..];
    Seqs.Suffix(now[..total + clear] + range, now[total + clear + |range|..]);
    assert now[total..][..clear] == frame[total..][..clear];
    assert now[..total] + now[total..][..clear] == now[..total + clear];
    Seqs.Assoc(now[..total], frame[total..][..clear], range);
    Seqs.Assoc(now[..total], frame[total..][..clear] + range, behind);
  }
}
