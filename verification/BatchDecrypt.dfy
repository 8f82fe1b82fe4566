/** Packing many frames into one decrypt call (client/adapter/rdk/open_cdm_adapter.cpp,
    extractProtectionMetaMulti and opencdm_gstreamer_session_decrypt_buffer_multi_once). */
module BatchDecrypt {
  import opened Bytes
  import opened SubSamples
  import opened Gather
  import Seqs

  /** A buffer of the protection metadata. An empty one may be mapped without a data pointer. */
  datatype Source = Missing | Unmappable | NullData | Mapped(data: seq<byte>) {

    predicate IsMapped() { NullData? || Mapped? }

    function Bytes(): seq<byte> { if Mapped? then data else [] }
  }

  datatype Scheme = AesCtrCenc | AesCbcCbcs

  datatype Pattern = Pattern(encryptedBlocks: u32, clearBlocks: u32)

  /** A GstBuffer, without or with protection metadata. */
  datatype Frame =
    | Bare
    | Protected(bytes: seq<byte>, mappable: bool, subSampleCount: u32, subSamples: Source, iv: Source, keyId: Source,
                scheme: Scheme, pattern: Pattern)

  /** The lengths are narrowed to bytes. */
  datatype Sample = Sample(scheme: Scheme, pattern: Pattern, iv: seq<byte>, ivLength: byte, keyId: seq<byte>,
                           keyIdLength: byte, subSampleCount: byte, subSamples: seq<SubSample>)

  const MAX_SUBSAMPLES := 255

  /** What extractProtectionMetaMulti accepts. */
  predicate Extractable(f: Frame)
  {
    f.Bare? || (f.subSampleCount <= MAX_SUBSAMPLES && (f.subSampleCount > 0 ==> f.subSamples.IsMapped())
                && f.iv.IsMapped() && f.mappable && f.keyId.IsMapped())
  }

  method ExtractProtectionMeta(frames: seq<Frame>) returns (ok: bool)
    ensures ok <==> forall i :: 0 <= i < |frames| ==> Extractable(frames[i])
    ensures ok <==> forall i :: 0 <= i < |frames| && frames[i].Protected? ==>
              var f := frames[i];
              && f.mappable && (f.iv.NullData? || f.iv.Mapped?) && (f.keyId.NullData? || f.keyId.Mapped?)
              && f.subSampleCount <= 255
              && (0 < f.subSampleCount ==> f.subSamples.NullData? || f.subSamples.Mapped?)
  {
    var i := 0;
    while i < |frames|
      invariant 0 <= i <= |frames| && forall j :: 0 <= j < i ==> Extractable(frames[j])
    {
      if frames[i].Protected? {
        if frames[i].subSampleCount > 0 {
          if frames[i].subSampleCount > MAX_SUBSAMPLES || !frames[i].subSamples.IsMapped() {
            return false;
          }
        }
        if !frames[i].iv.IsMapped() || !frames[i].mappable || !frames[i].keyId.IsMapped() {
          return false;
        }
      }
      i := i + 1;
    }
    ok := true;
  }

  // ----- one frame

  const ENTRY_SIZE := 6

  /** Entry `i` of the subsample buffer can be read. */
  predicate Readable(table: seq<byte>, i: nat) { ENTRY_SIZE * (i + 1) <= |table| }

  function EntryAt(table: seq<byte>, i: nat): SubSample
    requires Readable(table, i)
  {
    SubSample(Read16BE(table, ENTRY_SIZE * i), Read32BE(table, ENTRY_SIZE * i + 2))
  }

  predicate SeesEncrypted(table: seq<byte>, count: nat)
  {
    exists i :: 0 <= i < count && Readable(table, i) && EntryAt(table, i).encrypted != 0
  }

  predicate Complete(table: seq<byte>, count: nat) { ENTRY_SIZE * count <= |table| }

  function EntriesOf(table: seq<byte>, count: nat): seq<SubSample>
    requires Complete(table, count)
  {
    seq(count, i requires 0 <= i < count => EntryAt(table, i))
  }

  /** What becomes of a frame: it holds nothing to decrypt, it fails the call, or it is taken with a map. */
  datatype Verdict = Skip | Fail | Take(subSamples: seq<SubSample>)

  predicate FrameOk(f: Frame)
  {
    Extractable(f) && (f.Protected? ==> |f.bytes| < 0x1_0000_0000)
  }

  /** The subsample buffer has data to be read. */
  predicate HasTable(f: Frame) { f.Protected? && f.subSampleCount > 0 && f.subSamples.Mapped? }

  /** Without a table the whole frame is encrypted, whatever the count of the subsamples. */
  function VerdictOf(f: Frame): (v: Verdict)
    requires FrameOk(f)
    ensures v.Take? ==> f.Protected? && f.bytes != []
  {
    if f.Bare? then Skip
    else if !HasTable(f) then
      if f.bytes == [] then Skip else Take([SubSample(0, |f.bytes|)])
    else
      var table, count := f.subSamples.data, f.subSampleCount;
      if !SeesEncrypted(table, count) then if Complete(table, count) then Skip else Fail
      else if f.bytes == [] then Skip
      else if !Complete(table, count) then Fail
      else
        var es := EntriesOf(table, count);
        var v := Multi(es, |f.bytes|, U32(Total(es)));
        if v.error == NONE then Take(v.entries) else Fail
  }

  lemma {:induction false} EntryHeld(table: seq<byte>, at: nat, es: seq<SubSample>, i: nat)
    requires Holds(table, at, EncodeTable(es)) && i < |es| && at % ENTRY_SIZE == 0
    ensures at + 6 * i + 6 <= |table|
    ensures Readable(table, at / ENTRY_SIZE + i) && EntryAt(table, at / ENTRY_SIZE + i) == es[i]
    decreases |es|
  {
    hide Holds, EncodeEntry, EncodeTable, Read16BE, Read32BE;
    HeldSplit(table, at, es);
    if i == 0 {
      EntryReads(table, at, es[0]);
    } else {
      EntryHeld(table, at + 6, es[1..], i - 1);
    }
  }

  lemma HeldSplit(table: seq<byte>, at: nat, es: seq<SubSample>)
    requires Holds(table, at, EncodeTable(es)) && es != []
    ensures Holds(table, at, EncodeEntry(es[0])) && Holds(table, at + 6, EncodeTable(es[1..]))
  {
    HoldsSplit(table, at, EncodeEntry(es[0]), EncodeTable(es[1..]));
  }

  /** The entries of a table are read as they are, whatever stands behind them. */
  lemma EntriesOfTable(es: seq<SubSample>, rest: seq<byte>)
    ensures Complete(EncodeTable(es) + rest, |es|) && EntriesOf(EncodeTable(es) + rest, |es|) == es
    ensures forall i :: 0 <= i < |es| ==>
              Readable(EncodeTable(es) + rest, i) && EntryAt(EncodeTable(es) + rest, i) == es[i]
  {
    hide EntryAt, EncodeTable, Holds;
    var table := EncodeTable(es) + rest;
    Begins(EncodeTable(es), rest);
    forall i | 0 <= i < |es| ensures Readable(table, i) && EntryAt(table, i) == es[i] {
      EntryHeld(table, 0, es, i);
    }
  }

  /** Some entry has an encrypted range. */
  predicate AnyEncrypted(es: seq<SubSample>) { exists i :: 0 <= i < |es| && es[i].encrypted != 0 }

  lemma SeesTable(es: seq<SubSample>, rest: seq<byte>, count: nat)
    requires |es| <= count && (|es| < count ==> |rest| < ENTRY_SIZE)
    ensures SeesEncrypted(EncodeTable(es) + rest, count) <==> AnyEncrypted(es)
    ensures Complete(EncodeTable(es) + rest, count) <==> count == |es|
  {
    hide EntryAt, EncodeTable;
    EntriesOfTable(es, rest);
    var table := EncodeTable(es) + rest;
    if i :| 0 <= i < |es| && es[i].encrypted != 0 {
      assert EntryAt(table, i).encrypted != 0;
    }
    if i :| 0 <= i < count && Readable(table, i) && EntryAt(table, i).encrypted != 0 {
      assert i < |es|;
    }
  }

  /** What becomes of a frame, from the entries of its table: without an encrypted range or without bytes there is
      nothing to decrypt; a sum of sizes above the frame, modulo 2^32, is refused; else the entries are taken, with
      clear ones behind them that fill up the frame. A table that ends too early is refused unless it shows an
      encrypted range of an empty frame. */
  lemma VerdictOfTable(f: Frame, es: seq<SubSample>, rest: seq<byte>)
    requires FrameOk(f) && f.Protected? && f.subSamples == Mapped(EncodeTable(es) + rest)
    requires 0 < f.subSampleCount && |es| <= f.subSampleCount
    requires |es| < f.subSampleCount ==> |rest| < ENTRY_SIZE
    ensures var v, size := VerdictOf(f), Total(es) % 0x1_0000_0000;
            if |es| < f.subSampleCount then v == if AnyEncrypted(es) && f.bytes == [] then Skip else Fail
            else if !AnyEncrypted(es) || f.bytes == [] then v == Skip
            else if size > |f.bytes| then v == Fail
            else
              && v.Take? && es <= v.subSamples
              && Total(v.subSamples) == Total(es) + |f.bytes| - size
              && forall i :: |es| <= i < |v.subSamples| ==> v.subSamples[i].encrypted == 0 && 0 < v.subSamples[i].clear
  {
    hide EncodeTable, EntriesOf, SeesEncrypted, Complete, AnyEncrypted, Total, Filler, U32;
    SeesTable(es, rest, f.subSampleCount);
    EntriesOfTable(es, rest);
    SizeIs(Total(es));
    if Total(es) % 0x1_0000_0000 < |f.bytes| {
      ExtendedTotal(es, |f.bytes|, U32(Total(es)));
    }
  }

  /** A frame without protection metadata holds nothing to decrypt; without subsamples, or when there is no data of
      them, all of the frame is encrypted. */
  lemma VerdictWithout(f: Frame)
    requires FrameOk(f) && (f.Bare? || f.subSampleCount == 0 || !f.subSamples.Mapped?)
    ensures VerdictOf(f) == if f.Bare? || f.bytes == [] then Skip else Take([SubSample(0, |f.bytes|)])
  {
    hide SeesEncrypted, EntriesOf;
  }

  lemma SizeIs(n: nat)
    ensures U32(n) == n % 0x1_0000_0000
  {
  }

  /** The map of a taken frame adds up to the frame, modulo 2^32, and exactly when its own sizes do not
      wrap. */
  lemma TakenFits(f: Frame)
    requires FrameOk(f) && VerdictOf(f).Take?
    ensures U32(Total(VerdictOf(f).subSamples)) == |f.bytes|
    ensures Total(VerdictOf(f).subSamples) == |f.bytes|
       <==> !HasTable(f) || Total(EntriesOf(f.subSamples.data, f.subSampleCount)) < 0x1_0000_0000
  {
    hide Total, Extended, U32, SeesEncrypted, EntriesOf;
    if !HasTable(f) {
      OneEntry(|f.bytes|);
      NoWrap(|f.bytes|);
    } else {
      var es := EntriesOf(f.subSamples.data, f.subSampleCount);
      NoWrap(Total(es));
      if U32(Total(es)) < |f.bytes| {
        ExtendedTotal(es, |f.bytes|, U32(Total(es)));
      }
    }
  }

  lemma NoWrap(n: nat)
    ensures U32(n) == n <==> n < 0x1_0000_0000
  {
  }

  lemma OneEntry(n: u32)
    ensures Total([SubSample(0, n)]) == n
  {
    assert Total([SubSample(0, n)]) == n + Total([]);
  }

  lemma ExtendedTotal(es: seq<SubSample>, n: u32, total: u32)
    requires total <= n && total == U32(Total(es))
    ensures Total(Extended(es, n, total)) == Total(es) + n - total
    ensures U32(Total(Extended(es, n, total))) == n
  {
    hide Total, U32, Filler;
    FillerSize(n - total);
    TotalJoin(es, Filler(n - total));
    Cancels(Total(es), n);
  }

  lemma Cancels(a: nat, n: u32)
    ensures U32(a + n - U32(a)) == n
  {
  }

  // ----- the loops over the subsample buffer

  /** The scan for an encrypted range. */
  method Scan(table: seq<byte>, count: nat) returns (ok: bool, encrypted: bool)
    ensures encrypted == SeesEncrypted(table, count)
    ensures !encrypted ==> ok == Complete(table, count)
    ensures encrypted ==> ok
  {
    var index := 0;
    while index < count
      invariant 0 <= index <= count && Complete(table, index)
      invariant forall i :: 0 <= i < index ==> EntryAt(table, i).encrypted == 0
    {
      if !Readable(table, index) {
        return false, false;
      }
      if EntryAt(table, index).encrypted != 0 {
        return true, true;
      }
      index := index + 1;
    }
    ok, encrypted := true, false;
  }

  /** Reading the map and the 32-bit sum of its sizes. */
  method ReadMap(table: seq<byte>, count: nat) returns (ok: bool, es: seq<SubSample>, total: u32)
    ensures ok == Complete(table, count)
    ensures ok ==> es == EntriesOf(table, count) && total == U32(Total(es))
  {
    hide Total, U32;
    es := [];
    total := 0;
    var index := 0;
    NoTotal();
    while index < count
      invariant 0 <= index <= count && Complete(table, index)
      invariant es == EntriesOf(table, index) && total == U32(Total(es))
    {
      if !Readable(table, index) {
        return false, es, total;
      }
      var e := EntryAt(table, index);
      AddEntry(es, e);
      total := U32(total + e.clear + e.encrypted);
      es := es + [e];
      index := index + 1;
      assert es == EntriesOf(table, index);
    }
    ok := true;
  }

  lemma NoTotal()
    ensures U32(Total([])) == 0
  {
  }

  lemma AddEntry(es: seq<SubSample>, e: SubSample)
    ensures U32(Total(es + [e])) == U32(U32(Total(es)) + e.clear + e.encrypted)
  {
    hide Total, U32;
    TotalJoin(es, [e]);
    OneTotal(e);
    Wraps(Total(es), Size(e));
  }

  lemma OneTotal(e: SubSample)
    ensures Total([e]) == Size(e)
  {
    assert [e][1..] == [];
  }

  lemma Wraps(a: nat, b: nat)
    ensures U32(a + b) == U32(U32(a) + b)
  {
  }

  // ----- all frames

  predicate Wanted(frames: seq<Frame>, i: nat)
    requires i < |frames| && FrameOk(frames[i])
  {
    VerdictOf(frames[i]).Take?
  }

  predicate AllWanted(frames: seq<Frame>, s: seq<nat>)
    requires AllOk(frames)
  {
    forall k :: 0 <= k < |s| ==> s[k] < |frames| && Wanted(frames, s[k])
  }

  predicate AllOk(frames: seq<Frame>)
  {
    forall i :: 0 <= i < |frames| ==> FrameOk(frames[i])
  }

  /** The frames to decrypt, in order, among the first `n`. */
  function Selected(frames: seq<Frame>, n: nat): (s: seq<nat>)
    requires AllOk(frames) && n <= |frames|
    ensures forall k :: 0 <= k < |s| ==> s[k] < n && Wanted(frames, s[k])
  {
    if n == 0 then []
    else
      var s := Selected(frames, n - 1);
      if Wanted(frames, n - 1) then s + [n - 1] else s
  }

  /** They are all the frames to decrypt, each once, in order. */
  lemma {:induction false} SelectedIs(frames: seq<Frame>, n: nat)
    requires AllOk(frames) && n <= |frames|
    ensures forall i :: 0 <= i < n && Wanted(frames, i) ==> i in Selected(frames, n)
    ensures forall k, l :: 0 <= k < l < |Selected(frames, n)| ==> Selected(frames, n)[k] < Selected(frames, n)[l]
  {
    hide VerdictOf;
    if n > 0 {
      SelectedIs(frames, n - 1);
    }
  }

  /** keyIdsEqual: a key id without a data pointer is not equal to any, not even to itself. */
  predicate KeyIdsEqual(k: Source, l: Source) { k.Mapped? && l.Mapped? && k.data == l.data }

  /** Both frames can be decrypted in one call. */
  predicate Compatible(f: Frame, g: Frame)
    requires f.Protected? && g.Protected?
  {
    KeyIdsEqual(f.keyId, g.keyId) && f.scheme == g.scheme && f.pattern == g.pattern
  }

  /** Frame `i` does not fail the call: what is taken agrees with the first frame that is taken. */
  predicate Passes(frames: seq<Frame>, i: nat)
    requires AllOk(frames) && i < |frames|
  {
    match VerdictOf(frames[i])
    case Skip => true
    case Fail => false
    case Take(es) =>
      var s := Selected(frames, |frames|);
      s != [] && Compatible(frames[s[0]], frames[i]) && |es| <= MAX_SUBSAMPLES
  }

  predicate AllPass(frames: seq<Frame>)
    requires AllOk(frames)
  {
    forall i :: 0 <= i < |frames| ==> Passes(frames, i)
  }

  function SampleOf(f: Frame): Sample
    requires FrameOk(f) && VerdictOf(f).Take?
  {
    var es := VerdictOf(f).subSamples;
    Sample(f.scheme, f.pattern, f.iv.Bytes(), U8(|f.iv.Bytes()|), f.keyId.Bytes(), U8(|f.keyId.Bytes()|), U8(|es|), es)
  }

  function Samples(frames: seq<Frame>, s: seq<nat>): seq<Sample>
    requires AllOk(frames) && AllWanted(frames, s)
  {
    seq(|s|, k requires 0 <= k < |s| => assert Wanted(frames, s[k]); SampleOf(frames[s[k]]))
  }

  /** The frames one behind the other. */
  function Packed(frames: seq<Frame>, s: seq<nat>): seq<byte>
    requires AllOk(frames) && AllWanted(frames, s)
  {
    if s == [] then []
    else
      assert Wanted(frames, s[|s| - 1]);
      Packed(frames, s[..|s| - 1]) + frames[s[|s| - 1]].bytes
  }

  /** The prefix sums of the sizes that the samples announce. */
  function Offset(samples: seq<Sample>, k: nat): nat
    requires k <= |samples|
  {
    if k == 0 then 0 else Offset(samples, k - 1) + U32(Total(samples[k - 1].subSamples))
  }

  /** The layout of the call: the packed buffer is the concatenation of the selected frames, sample k
      belongs to selected frame k and its subsamples add up to that frame, so that the prefix sums of the
      sample sizes are the places of the frames, and the last one is the size of the buffer. */
  lemma {:induction false} Layout(frames: seq<Frame>, s: seq<nat>, k: nat)
    requires AllOk(frames) && k <= |s| && AllWanted(frames, s)
    ensures var samples, packed := Samples(frames, s), Packed(frames, s);
            && Offset(samples, |s|) == |packed|
            && Offset(samples, k) <= |packed|
            && (k < |s| ==>
                  && Offset(samples, k) <= Offset(samples, k + 1) <= |packed|
                  && frames[s[k]].Protected?
                  && packed[Offset(samples, k)..Offset(samples, k + 1)] == frames[s[k]].bytes)
    decreases |s|
  {
    hide VerdictOf, Total, U32, Packed, Samples, Offset;
    LayoutStep(frames, s, k);
    if s != [] {
      var n := |s| - 1;
      Layout(frames, s[..n], if k <= n then k else n);
      OffsetPart(frames, s, n, n);
      if k < n {
        OffsetPart(frames, s, n, k);
        OffsetPart(frames, s, n, k + 1);
        Inside(Packed(frames, s[..n]), frames[s[n]].bytes,
               Offset(Samples(frames, s), k), Offset(Samples(frames, s), k + 1));
      } else {
        Seqs.Suffix(Packed(frames, s[..n]), frames[s[n]].bytes);
      }
    }
  }

  lemma Inside(a: seq<byte>, b: seq<byte>, i: nat, j: nat)
    requires i <= j <= |a|
    ensures (a + b)[i..j] == a[i..j]
  {
  }

  lemma LayoutStep(frames: seq<Frame>, s: seq<nat>, k: nat)
    requires AllOk(frames) && k <= |s| && AllWanted(frames, s)
    ensures |Samples(frames, s)| == |s| && Offset(Samples(frames, s), 0) == 0
    ensures s == [] ==> Packed(frames, s) == []
    ensures s != [] ==>
              var n := |s| - 1;
              && AllWanted(frames, s[..n]) && s[n] < |frames| && Wanted(frames, s[n]) && frames[s[n]].Protected?
              && Packed(frames, s) == Packed(frames, s[..n]) + frames[s[n]].bytes
              && Offset(Samples(frames, s), n + 1) == Offset(Samples(frames, s), n) + |frames[s[n]].bytes|
  {
    hide VerdictOf, Total, U32;
    if s != [] {
      assert Wanted(frames, s[|s| - 1]);
      TakenFits(frames[s[|s| - 1]]);
    }
  }

  lemma {:induction false} OffsetPart(frames: seq<Frame>, s: seq<nat>, n: nat, k: nat)
    requires AllOk(frames) && k <= n <= |s| && AllWanted(frames, s)
    ensures Offset(Samples(frames, s), k) == Offset(Samples(frames, s[..n]), k)
  {
    hide VerdictOf, SampleOf, Total, U32;
    if k > 0 {
      OffsetPart(frames, s, n, k - 1);
    }
  }

  // ----- the call

  /** What reaches opencdm_session_decrypt_v3. */
  datatype Request = Request(packed: seq<byte>, samples: seq<Sample>)

  /** The scan and the map of one frame. */
  method Judge(f: Frame) returns (verdict: Verdict)
    requires FrameOk(f)
    ensures verdict == VerdictOf(f)
  {
    hide Total, SeesEncrypted, Complete, EntriesOf, Multi;
    if f.Bare? {
      return Skip;
    }
    if f.subSampleCount > 0 && f.subSamples.Mapped? {
      var ok, sees := Scan(f.subSamples.data, f.subSampleCount);
      if !ok {
        return Fail;
      }
      if !sees {
        return Skip;
      }
    }
    if f.bytes == [] {
      return Skip;
    }
    if f.subSampleCount > 0 && f.subSamples.Mapped? {
      var ok, es, total := ReadMap(f.subSamples.data, f.subSampleCount);
      if !ok {
        return Fail;
      }
      var error, repaired := ValidateSubsampleMapMulti(es, |f.bytes|, total);
      verdict := if error == NONE then Take(repaired) else Fail;
    } else {
      verdict := Take([SubSample(0, |f.bytes|)]);
    }
  }

  lemma SelectedNone(frames: seq<Frame>)
    requires AllOk(frames)
    ensures Selected(frames, 0) == [] && Samples(frames, []) == [] && Packed(frames, []) == []
  {
  }

  lemma SelectedTurn(frames: seq<Frame>, i: nat)
    requires AllOk(frames) && i < |frames|
    ensures var s, s' := Selected(frames, i), Selected(frames, i + 1);
            if Wanted(frames, i) then
              && s' == s + [i] && Samples(frames, s') == Samples(frames, s) + [SampleOf(frames[i])]
              && frames[i].Protected? && |Packed(frames, s')| == |Packed(frames, s)| + |frames[i].bytes|
            else s' == s
  {
    hide VerdictOf, SampleOf;
    var s := Selected(frames, i);
    if Wanted(frames, i) {
      Seqs.Init(s, [i]);
      assert (s + [i])[..|s|] == s;
    }
  }

  /** What is selected first stays selected, and packing only grows. */
  lemma {:induction false} SelectedGrows(frames: seq<Frame>, i: nat, n: nat)
    requires AllOk(frames) && i <= n <= |frames|
    ensures Selected(frames, i) <= Selected(frames, n)
    ensures |Packed(frames, Selected(frames, i))| <= |Packed(frames, Selected(frames, n))|
    decreases n - i
  {
    hide VerdictOf, Packed, Selected, Samples, SampleOf;
    if i < n {
      SelectedTurn(frames, i);
      SelectedGrows(frames, i + 1, n);
    }
  }

  lemma SelectedStep(frames: seq<Frame>, i: nat)
    requires AllOk(frames) && i < |frames|
    ensures var s, s', all := Selected(frames, i), Selected(frames, i + 1), Selected(frames, |frames|);
            && |Packed(frames, s')| <= |Packed(frames, all)|
            && (Wanted(frames, i) <==> VerdictOf(frames[i]).Take?)
            && if Wanted(frames, i) then
                 && s' == s + [i] && Samples(frames, s') == Samples(frames, s) + [SampleOf(frames[i])]
                 && frames[i].Protected? && |Packed(frames, s')| == |Packed(frames, s)| + |frames[i].bytes|
                 && all != [] && all[0] < |frames| && frames[all[0]].Protected?
                 && all[0] == (if s == [] then i else s[0])
                 && (Passes(frames, i) <==> Compatible(frames[all[0]], frames[i])
                                            && |VerdictOf(frames[i]).subSamples| <= MAX_SUBSAMPLES)
               else s' == s && (Passes(frames, i) <==> VerdictOf(frames[i]).Skip?)
  {
    hide VerdictOf, Packed, Selected, Samples, SampleOf, Compatible;
    SelectedTurn(frames, i);
    SelectedGrows(frames, i + 1, |frames|);
  }

  lemma WrapsOn(n: nat, more: nat)
    ensures U32(U32(n) + more) == U32(n + more)
  {
  }

  /** The loop that selects the frames and prepares their samples. Their total size is taken modulo 2^32. */
  method Select(frames: seq<Frame>)
    returns (error: Error, samples: seq<Sample>, encrypted: seq<bool>, total: u32)
    requires AllOk(frames)
    ensures error == if AllPass(frames) then NONE else INVALID_DECRYPT_BUFFER
    ensures error == NONE ==>
              && samples == Samples(frames, Selected(frames, |frames|))
              && total == U32(|Packed(frames, Selected(frames, |frames|))|)
              && |encrypted| == |frames|
              && forall i :: 0 <= i < |frames| ==> encrypted[i] == Wanted(frames, i)
  {
    hide VerdictOf, Packed, Samples, Compatible, Selected, Passes, Wanted, U8, U32;
    error, samples, encrypted, total := NONE, [], [], 0;
    var refIdx := -1;
    var i := 0;
    ghost var s: seq<nat> := [];
    SelectedNone(frames);
    NoWrap(0);
    while i < |frames|
      invariant 0 <= i <= |frames| && |encrypted| == i
      invariant s == Selected(frames, i) && samples == Samples(frames, s) && total == U32(|Packed(frames, s)|)
      invariant refIdx == if s == [] then -1 else s[0]
      invariant forall j :: 0 <= j < i ==> encrypted[j] == Wanted(frames, j) && Passes(frames, j)
    {
      var f := frames[i];
      var verdict := Judge(f);
      SelectedStep(frames, i);
      if verdict.Fail? {
        assert !Passes(frames, i);
        error := INVALID_DECRYPT_BUFFER;
        return;
      }
      if verdict.Take? {
        var es := verdict.subSamples;
        if refIdx == -1 {
          refIdx := i;
        }
        assert refIdx == Selected(frames, |frames|)[0];
        if !Compatible(frames[refIdx], f) || |es| > MAX_SUBSAMPLES {
          assert !Passes(frames, i);
          error := INVALID_DECRYPT_BUFFER;
          return;
        }
        samples := samples + [Sample(f.scheme, f.pattern, f.iv.Bytes(), U8(|f.iv.Bytes()|), f.keyId.Bytes(),
                                     U8(|f.keyId.Bytes()|), U8(|es|), es)];
        WrapsOn(|Packed(frames, s)|, |f.bytes|);
        total := U32(total + |f.bytes|);
      }
      encrypted := encrypted + [verdict.Take?];
      s := Selected(frames, i + 1);
      i := i + 1;
    }
  }

  /** The whole call, up to what reaches opencdm_session_decrypt_v3. `granted` tells whether the secure block
      could be allocated; `revoked`, whether its resources were taken away again. */
  method DecryptBuffers(frames: seq<Frame>, granted: bool, revoked: bool)
    returns (error: Error, requests: seq<Request>)
    requires 0 < |frames| < 0x1_0000
    requires forall i :: 0 <= i < |frames| ==> frames[i].Protected? ==> |frames[i].bytes| < 0x1_0000_0000
    requires AllOk(frames) && AllPass(frames) && granted ==>
               var n := |Packed(frames, Selected(frames, |frames|))|; n < 0x1_0000_0000 || U32(n) == 0
    ensures !AllOk(frames) ==> error == INVALID_DECRYPT_BUFFER && requests == []
    ensures AllOk(frames) ==>
              var s := Selected(frames, |frames|);
              if !AllPass(frames) then error == INVALID_DECRYPT_BUFFER && requests == []
              else if U32(|Packed(frames, s)|) == 0 then error == NONE && requests == []
              else if !granted then error == OUT_OF_MEMORY && requests == []
              else if revoked then error == NONE && requests == []
              else requests == [Request(Packed(frames, s), Samples(frames, s))]
  {
    hide VerdictOf, Selected, Samples, Packed, AllPass, U32;
    error, requests := NONE, [];
    var ok := ExtractProtectionMeta(frames);
    if !ok {
      assert !AllOk(frames);
      return INVALID_DECRYPT_BUFFER, [];
    }
    assert AllOk(frames);
    var samples, encrypted, total;
    error, samples, encrypted, total := Select(frames);
    ghost var n := |Packed(frames, Selected(frames, |frames|))|;
    if total > 0 && error == NONE {
      if granted {
        NoWrap(n);
        var encryptedData := new byte[total];
        Pack(frames, encrypted, encryptedData);
        if !revoked {
          requests := [Request(encryptedData[..], samples)];
        }
      } else {
        error := OUT_OF_MEMORY;
      }
    }
  }

  /** The loop that copies the frames. */
  method Pack(frames: seq<Frame>, encrypted: seq<bool>, target: array<byte>)
    requires AllOk(frames) && |encrypted| == |frames|
    requires forall i :: 0 <= i < |frames| ==> encrypted[i] == Wanted(frames, i)
    requires target.Length == |Packed(frames, Selected(frames, |frames|))|
    modifies target
    ensures target[..] == Packed(frames, Selected(frames, |frames|))
  {
    hide VerdictOf, Selected, Packed, Samples;
    var i, iter: nat := 0, 0;
    SelectedNone(frames);
    while i < |frames|
      invariant 0 <= i <= |frames| && iter == |Packed(frames, Selected(frames, i))| <= target.Length
      invariant target[..iter] == Packed(frames, Selected(frames, i))
    {
      SelectedStep(frames, i);
      PackedTurn(frames, i);
      if encrypted[i] {
        ghost var before := target[..iter];
        var bytes := frames[i].bytes;
        forall k | 0 <= k < |bytes| {
          target[iter + k] := bytes[k];
        }
        assert target[..iter + |bytes|] == before + bytes;
        iter := iter + |bytes|;
      }
      i := i + 1;
    }
  }

  lemma PackedTurn(frames: seq<Frame>, i: nat)
    requires AllOk(frames) && i < |frames|
    ensures Packed(frames, Selected(frames, i + 1))
         == if Wanted(frames, i) then Packed(frames, Selected(frames, i)) + frames[i].bytes
            else Packed(frames, Selected(frames, i))
  {
    hide VerdictOf;
    if Wanted(frames, i) {
      Seqs.Init(Selected(frames, i), [i]);
    }
  }

  /** Nothing is packed exactly when no frame is selected, for a taken frame is not empty. */
  lemma NothingSelected(frames: seq<Frame>)
    requires AllOk(frames)
    ensures Packed(frames, Selected(frames, |frames|)) == [] <==> Selected(frames, |frames|) == []
  {
    hide VerdictOf;
    var s := Selected(frames, |frames|);
    if s != [] {
      assert Wanted(frames, s[|s| - 1]);
    }
  }

  /** In a call that is made, no subsample count is cut by the narrowing to a byte, and all samples share
      the key id, the scheme and the pattern. */
  lemma SamplesUniform(frames: seq<Frame>, k: nat, l: nat)
    requires AllOk(frames) && AllPass(frames)
    requires k < |Selected(frames, |frames|)| && l < |Selected(frames, |frames|)|
    ensures var samples := Samples(frames, Selected(frames, |frames|));
            && samples[k].subSampleCount == |samples[k].subSamples|
            && samples[k].keyId == samples[l].keyId
            && samples[k].scheme == samples[l].scheme && samples[k].pattern == samples[l].pattern
  {
    hide VerdictOf, Selected;
    var s := Selected(frames, |frames|);
    assert Wanted(frames, s[k]) && Wanted(frames, s[l]);
    assert Passes(frames, s[k]) && Passes(frames, s[l]);
  }

  /** Sample k announces selected frame k: its scheme and pattern, its initialization vector, its key id and its
      map, with their lengths. A buffer without data is empty. */
  lemma SamplesAre(frames: seq<Frame>, k: nat)
    requires AllOk(frames) && k < |Selected(frames, |frames|)|
    ensures var s := Selected(frames, |frames|);
            var f, sample := frames[s[k]], Samples(frames, s)[k];
            && f.Protected? && VerdictOf(f) == Take(sample.subSamples)
            && sample.scheme == f.scheme && sample.pattern == f.pattern
            && sample.iv == (if f.iv.Mapped? then f.iv.data else [])
            && sample.keyId == (if f.keyId.Mapped? then f.keyId.data else [])
            && (|sample.iv| < 0x100 ==> sample.ivLength == |sample.iv|)
            && (|sample.keyId| < 0x100 ==> sample.keyIdLength == |sample.keyId|)
  {
    hide VerdictOf, Selected;
    assert Wanted(frames, Selected(frames, |frames|)[k]);
  }

  /** In a call that is made, the key id of every sample is the data of the key id of every selected frame. */
  lemma OneKeyId(frames: seq<Frame>, k: nat, l: nat)
    requires AllOk(frames) && AllPass(frames)
    requires k < |Selected(frames, |frames|)| && l < |Selected(frames, |frames|)|
    ensures var s := Selected(frames, |frames|);
            frames[s[l]].Protected? && frames[s[l]].keyId == Mapped(Samples(frames, s)[k].keyId)
  {
    hide VerdictOf, Selected;
    var s := Selected(frames, |frames|);
    assert Wanted(frames, s[k]) && Wanted(frames, s[l]);
    assert Passes(frames, s[k]) && Passes(frames, s[l]);
  }

  /** A call is made exactly when no frame fails, and every frame to decrypt has a key id with data and a map of at
      most 255 entries, and any two of them have the same key id, scheme and pattern. */
  lemma AllPassIff(frames: seq<Frame>)
    requires AllOk(frames)
    ensures AllPass(frames) <==>
              && (forall i :: 0 <= i < |frames| ==> !VerdictOf(frames[i]).Fail?)
              && (forall i :: 0 <= i < |frames| && VerdictOf(frames[i]).Take? ==>
                    frames[i].keyId.Mapped? && |VerdictOf(frames[i]).subSamples| <= 255)
              && (forall i, j :: 0 <= i < |frames| && 0 <= j < |frames|
                                 && VerdictOf(frames[i]).Take? && VerdictOf(frames[j]).Take? ==>
                    && frames[i].keyId == frames[j].keyId && frames[i].scheme == frames[j].scheme
                    && frames[i].pattern == frames[j].pattern)
  {
    hide VerdictOf, Selected;
    var s := Selected(frames, |frames|);
    forall i | 0 <= i < |frames| && VerdictOf(frames[i]).Take?
      ensures s != [] && s[0] < |frames| && Wanted(frames, s[0])
    {
      SelectedAll(frames, i);
    }
    if AllPass(frames) {
      forall i | 0 <= i < |frames|
        ensures !VerdictOf(frames[i]).Fail?
        ensures VerdictOf(frames[i]).Take? ==>
                  Compatible(frames[s[0]], frames[i]) && |VerdictOf(frames[i]).subSamples| <= 255
      {
        assert Passes(frames, i);
      }
    }
  }

  lemma {:induction false} SelectedSome(frames: seq<Frame>, i: nat, n: nat)
    requires AllOk(frames) && i < n <= |frames| && Wanted(frames, i)
    ensures Selected(frames, n) != []
  {
    hide VerdictOf;
    if i < n - 1 {
      SelectedSome(frames, i, n - 1);
    }
  }

  lemma SelectedAll(frames: seq<Frame>, i: nat)
    requires AllOk(frames) && i < |frames| && VerdictOf(frames[i]).Take?
    ensures var s := Selected(frames, |frames|); s != [] && s[0] < |frames| && Wanted(frames, s[0])
  {
    hide VerdictOf, Selected;
    assert Wanted(frames, i);
    SelectedSome(frames, i, |frames|);
  }

  /** A frame to decrypt whose key id has no data fails the call, even if it is the only one. */
  lemma NullKeyIdFails(frames: seq<Frame>, i: nat)
    requires AllOk(frames) && i < |frames| && Wanted(frames, i) && !frames[i].keyId.Mapped?
    ensures !AllPass(frames)
  {
    assert !Passes(frames, i);
  }

  /** One byte, all encrypted, with an empty key id that is mapped to a null pointer. */
  const KEYLESS: Frame := Protected([0], true, 0, Missing, Mapped([]), NullData, AesCtrCenc, Pattern(0, 0))

  lemma KeylessFails()
    ensures AllOk([KEYLESS]) && !AllPass([KEYLESS])
  {
    NullKeyIdFails([KEYLESS], 0);
  }
}
