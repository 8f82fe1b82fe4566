/** Repairing the map of a frame's clear and encrypted ranges (client/adapter/rdk/open_cdm_adapter.cpp,
    extend_subsample_map, validate_subsample_map and their multi-frame versions). */
module SubSamples {
  import opened Bytes
  import Seqs

  datatype SubSample = SubSample(clear: u16, encrypted: u32)

  datatype Error = NONE | OUT_OF_MEMORY | INVALID_DECRYPT_BUFFER

  const MAX_CLEAR := 0xFFFF

  function Size(s: SubSample): nat { s.clear + s.encrypted }

  function Total(entries: seq<SubSample>): nat
  {
    if entries == [] then 0 else Size(entries[0]) + Total(entries[1..])
  }

  lemma {:induction false} TotalJoin(left: seq<SubSample>, right: seq<SubSample>)
    ensures Total(left + right) == Total(left) + Total(right)
  {
    if left == [] {
      Seqs.Nil(right);
    } else {
      Seqs.Tail(left, right);
      TotalJoin(left[1..], right);
    }
  }

  // ----- the entries that are added

  /** Clear-only entries for `n` bytes. */
  function Filler(n: nat): (f: seq<SubSample>)
    ensures forall i :: 0 <= i < |f| ==> 0 < f[i].clear && f[i].encrypted == 0
  {
    if n == 0 then []
    else if n > MAX_CLEAR then [SubSample(MAX_CLEAR, 0)] + Filler(n - MAX_CLEAR)
    else [SubSample(n, 0)]
  }

  /** They are ceil(n / 65535) entries for exactly `n` bytes; all but the last are full. */
  lemma {:induction false} FillerSize(n: nat)
    ensures |Filler(n)| == (n + MAX_CLEAR - 1) / MAX_CLEAR
    ensures Total(Filler(n)) == n
    ensures forall i :: 0 <= i < |Filler(n)| - 1 ==> Filler(n)[i] == SubSample(MAX_CLEAR, 0)
  {
    if n > MAX_CLEAR {
      FillerSize(n - MAX_CLEAR);
      assert Filler(n)[1..] == Filler(n - MAX_CLEAR);
    } else if n > 0 {
      assert Total([SubSample(n, 0)]) == n + Total([]);
    }
  }

  /** No shorter list of clear-only entries would do. */
  lemma {:induction false} FillerShortest(n: nat, entries: seq<SubSample>)
    requires Total(entries) == n && forall i :: 0 <= i < |entries| ==> entries[i].encrypted == 0
    ensures |Filler(n)| <= |entries|
  {
    FillerSize(n);
    ClearBound(entries);
  }

  lemma {:induction false} ClearBound(entries: seq<SubSample>)
    requires forall i :: 0 <= i < |entries| ==> entries[i].encrypted == 0
    ensures Total(entries) <= MAX_CLEAR * |entries|
  {
    if entries != [] {
      ClearBound(entries[1..]);
    }
  }

  /** The map that both repairs arrive at. */
  function Extended(entries: seq<SubSample>, frameSize: u32, totalBytes: u32): seq<SubSample>
    requires totalBytes <= frameSize
  {
    entries + Filler(frameSize - totalBytes)
  }

  /** The repaired map keeps the entries that were there, adds as many clear-only entries as 16-bit sizes
      need, and adds up to the frame exactly when the sum of the old sizes did not wrap. */
  lemma Repairs(entries: seq<SubSample>, frameSize: u32, totalBytes: u32)
    requires totalBytes <= frameSize && totalBytes == U32(Total(entries))
    ensures var r := Extended(entries, frameSize, totalBytes);
            && entries <= r
            && |r| == |entries| + (frameSize - totalBytes + MAX_CLEAR - 1) / MAX_CLEAR
            && (forall i :: |entries| <= i < |r| ==> 0 < r[i].clear && r[i].encrypted == 0)
            && (Total(r) == frameSize <==> Total(entries) < 0x1_0000_0000)
  {
    hide Filler, Total;
    FillerSize(frameSize - totalBytes);
    TotalJoin(entries, Filler(frameSize - totalBytes));
  }

  // ----- the two implementations

  lemma {:induction false} LastFiller(n: nat)
    requires 0 < n
    ensures 0 < |Filler(n)| && 0 < n - MAX_CLEAR * (|Filler(n)| - 1) <= MAX_CLEAR
    ensures Filler(n)[|Filler(n)| - 1] == SubSample(n - MAX_CLEAR * (|Filler(n)| - 1), 0)
  {
    if n > MAX_CLEAR {
      LastFiller(n - MAX_CLEAR);
    }
  }

  lemma FillerStep(n: nat)
    ensures Filler(0) == []
    ensures 0 < n ==> |Filler(n)| == 1 + |Filler(if n > MAX_CLEAR then n - MAX_CLEAR else 0)|
  {
  }

  /** extend_subsample_map, on a map that `realloc` grows in place; `granted` tells whether it could. */
  method ExtendSubsampleMap(entries: array<SubSample>, bufferSize: u32, totalBytes: u32, granted: bool)
    returns (error: Error, extended: array<SubSample>)
    requires totalBytes < bufferSize && entries.Length < 0x8000_0000
    ensures entries[..] == old(entries[..])
    ensures error == if granted then NONE else OUT_OF_MEMORY
    ensures extended[..] == if granted then Extended(entries[..], bufferSize, totalBytes) else entries[..]
  {
    hide Total, Filler;
    var additionalBytes: u32 := bufferSize - totalBytes;
    var extra: nat := 0;
    FillerSize(bufferSize - totalBytes);
    FillerStep(0);
    while additionalBytes > 0
      invariant |Filler(bufferSize - totalBytes)| == extra + |Filler(additionalBytes)|
      decreases additionalBytes
    {
      var clear: u16 := if additionalBytes > MAX_CLEAR then MAX_CLEAR else additionalBytes;
      FillerStep(additionalBytes);
      additionalBytes := additionalBytes - clear;
      extra := extra + 1;
    }
    if !granted {
      return OUT_OF_MEMORY, entries;
    }
    var count, n := entries.Length, entries.Length + extra;
    ghost var target, filler := Extended(entries[..], bufferSize, totalBytes), Filler(bufferSize - totalBytes);
    assert forall i :: count <= i < n ==> target[i] == filler[i - count];
    LastFiller(bufferSize - totalBytes);
    extended := new SubSample[n](i requires 0 <= i < n reads entries =>
      if i < count then entries[i] else SubSample(0, 0));
    var total: nat := totalBytes;
    while extra > 1
      invariant 1 <= extra <= |filler| && total == totalBytes + MAX_CLEAR * (|filler| - extra)
      invariant forall i :: 0 <= i < n - extra ==> extended[i] == target[i]
      decreases extra
    {
      extended[n - extra] := SubSample(MAX_CLEAR, 0);
      extra := extra - 1;
      total := total + MAX_CLEAR;
    }
    extended[n - 1] := SubSample(bufferSize - total, 0);
    error := NONE;
  }

  /** extend_subsample_map_multi, which pushes one entry after the other. */
  method ExtendSubsampleMapMulti(entries: seq<SubSample>, frameSize: u32, totalBytes: u32)
    returns (extended: seq<SubSample>)
    requires totalBytes < frameSize
    ensures extended == Extended(entries, frameSize, totalBytes)
  {
    extended := entries;
    var additionalBytes: u32 := frameSize - totalBytes;
    while additionalBytes > 0
      invariant extended + Filler(additionalBytes) == Extended(entries, frameSize, totalBytes)
      decreases additionalBytes
    {
      var clear: u16 := if additionalBytes > MAX_CLEAR then MAX_CLEAR else additionalBytes;
      Seqs.Assoc(extended, [SubSample(clear, 0)], Filler(additionalBytes - clear));
      extended := extended + [SubSample(clear, 0)];
      additionalBytes := additionalBytes - clear;
    }
  }

  // ----- validation

  datatype Validated = Validated(error: Error, entries: seq<SubSample>)

  /** What validate_subsample_map makes of an empty map or frame: nothing to validate against. */
  function Single(entries: seq<SubSample>, frameSize: u32, totalBytes: u32, granted: bool): Validated
  {
    if frameSize == 0 || entries == [] || frameSize == totalBytes then Validated(NONE, entries)
    else if frameSize < totalBytes then Validated(INVALID_DECRYPT_BUFFER, entries)
    else if granted then Validated(NONE, Extended(entries, frameSize, totalBytes))
    else Validated(OUT_OF_MEMORY, entries)
  }

  function Multi(entries: seq<SubSample>, frameSize: u32, totalBytes: u32): Validated
  {
    if frameSize == totalBytes then Validated(NONE, entries)
    else if frameSize < totalBytes then Validated(INVALID_DECRYPT_BUFFER, entries)
    else Validated(NONE, Extended(entries, frameSize, totalBytes))
  }

  method ValidateSubsampleMap(entries: array<SubSample>, frameSize: u32, totalBytes: u32, granted: bool)
    returns (error: Error, validated: array<SubSample>)
    requires entries.Length < 0x8000_0000
    ensures entries[..] == old(entries[..])
    ensures Validated(error, validated[..]) == Single(entries[..], frameSize, totalBytes, granted)
  {
    error, validated := NONE, entries;
    if frameSize == 0 || entries.Length == 0 || frameSize == totalBytes {
      return;
    }
    if frameSize > totalBytes {
      error, validated := ExtendSubsampleMap(entries, frameSize, totalBytes, granted);
    } else {
      error := INVALID_DECRYPT_BUFFER;
    }
  }

  method ValidateSubsampleMapMulti(entries: seq<SubSample>, frameSize: u32, totalBytes: u32)
    returns (error: Error, validated: seq<SubSample>)
    ensures Validated(error, validated) == Multi(entries, frameSize, totalBytes)
  {
    error, validated := NONE, entries;
    if frameSize > totalBytes {
      validated := ExtendSubsampleMapMulti(entries, frameSize, totalBytes);
    } else if frameSize < totalBytes {
      error := INVALID_DECRYPT_BUFFER;
    }
  }

  /** Given memory, the two validations agree on every map of the given sum, exactly unless the frame is
      empty and the map is not of size 0, or the map is empty and the frame is not. */
  lemma ValidationsAgreeIff(entries: seq<SubSample>, frameSize: u32, totalBytes: u32)
    requires totalBytes == U32(Total(entries))
    ensures Single(entries, frameSize, totalBytes, true) == Multi(entries, frameSize, totalBytes)
       <==> (frameSize == 0 ==> totalBytes == 0) && (entries == [] ==> frameSize == 0)
  {
    if entries == [] && frameSize > 0 {
      FillerSize(frameSize);
      assert Filler(frameSize) != [];
    }
  }

  /** The single-frame validation of a map that is not empty, whose sizes do not wrap, of a frame that is not empty:
      it passes exactly when what comes out adds up to the frame, runs out of memory exactly when the map is too
      small and cannot grow, and refuses it exactly when it is too large. A map that does not pass is left alone. */
  lemma SingleFits(entries: seq<SubSample>, frameSize: u32, granted: bool)
    requires entries != [] && 0 < frameSize && Total(entries) < 0x1_0000_0000
    ensures var v := Single(entries, frameSize, Total(entries), granted);
            && (v.error == NONE <==> Total(v.entries) == frameSize)
            && (v.error == OUT_OF_MEMORY <==> Total(entries) < frameSize && !granted)
            && (v.error == INVALID_DECRYPT_BUFFER <==> Total(entries) > frameSize)
            && entries <= v.entries && (v.error != NONE ==> v.entries == entries)
  {
    hide Total, Filler;
    if Total(entries) <= frameSize {
      WholeSize(Total(entries));
      Repairs(entries, frameSize, Total(entries));
    }
  }

  lemma WholeSize(n: u32)
    ensures n == U32(n)
  {
  }

  /** An empty map of a frame of one byte, and a map of one byte for an empty frame. */
  lemma ValidationsDiffer()
    ensures Single([], 1, 0, true) == Validated(NONE, [])
    ensures Multi([], 1, 0) == Validated(NONE, [SubSample(1, 0)])
    ensures Single([SubSample(1, 0)], 0, 1, true) == Validated(NONE, [SubSample(1, 0)])
    ensures Multi([SubSample(1, 0)], 0, 1).error == INVALID_DECRYPT_BUFFER
  {
    assert Filler(1) == [SubSample(1, 0)];
  }

  /** A map whose sizes do not wrap passes exactly when what comes out adds up to the frame. */
  lemma ValidatedFits(entries: seq<SubSample>, frameSize: u32)
    requires Total(entries) < 0x1_0000_0000
    ensures var v := Multi(entries, frameSize, Total(entries));
            v.error == NONE <==> Total(v.entries) == frameSize
  {
    if Total(entries) <= frameSize {
      Repairs(entries, frameSize, Total(entries));
    }
  }
}
