/** The server's buffer slots and the sessions that hold them (plugin/FrameworkRPC.cpp, BufferAdministrator,
    CreateSessionBuffer, and AccessorOCDM's CreateSession and Remove).

    The bitmap is an integer; `1 << i` is Pow2(i), and a bit is set or cleared by a sum or a difference, for it
    is clear or set before. NumberType prints and reads decimal numbers. */
module Buffers {
  import opened Bytes
  import opened Options
  import Seqs

  const SLOTS := 16

  // ----- the bitmap

  function Pow2(i: nat): nat { if i == 0 then 1 else 2 * Pow2(i - 1) }

  predicate Bit(n: nat, i: nat)
  {
    if i == 0 then n % 2 == 1 else Bit(n / 2, i - 1)
  }

  lemma {:induction false} SetBit(n: nat, i: nat, j: nat)
    requires !Bit(n, i)
    ensures Bit(n + Pow2(i), j) <==> j == i || Bit(n, j)
  {
    if i > 0 {
      assert (n + Pow2(i)) / 2 == n / 2 + Pow2(i - 1) && (n + Pow2(i)) % 2 == n % 2;
      if j > 0 {
        SetBit(n / 2, i - 1, j - 1);
      }
    } else {
      assert (n + 1) / 2 == n / 2;
    }
  }

  lemma {:induction false} ClearBit(n: nat, i: nat, j: nat)
    requires Bit(n, i)
    ensures Pow2(i) <= n && (Bit(n - Pow2(i), j) <==> j != i && Bit(n, j))
  {
    if i > 0 {
      ClearBit(n / 2, i - 1, if j > 0 then j - 1 else 0);
      assert (n - Pow2(i)) / 2 == n / 2 - Pow2(i - 1) && (n - Pow2(i)) % 2 == n % 2;
    } else {
      assert (n - 1) / 2 == n / 2;
    }
  }

  lemma {:induction false} BitBelow(n: nat, i: nat, k: nat)
    requires n < Pow2(k) && i < k && !Bit(n, i)
    ensures n + Pow2(i) < Pow2(k)
  {
    if i > 0 {
      BitBelow(n / 2, i - 1, k - 1);
    }
  }

  lemma {:induction false} NoBitAbove(n: nat, i: nat, k: nat)
    requires n < Pow2(k) && k <= i
    ensures !Bit(n, i)
  {
    if k == 0 {
      ZeroBit(i);
    } else {
      NoBitAbove(n / 2, i - 1, k - 1);
    }
  }

  lemma {:induction false} ZeroBit(i: nat)
    ensures !Bit(0, i)
  {
    if i > 0 {
      ZeroBit(i - 1);
    }
  }

  /** The slots that are in use. */
  function Used(n: nat): set<nat>
  {
    set i: nat | i < SLOTS && Bit(n, i)
  }

  /** The allocator that the bitmap stands for: the lowest slot that is free. */
  predicate LowestFree(used: set<nat>, i: nat)
  {
    i < SLOTS && i !in used && forall j: nat :: j < i ==> j in used
  }

  // ----- locators

  const BUFFER_FILE_NAME: string := "ocdmbuffer."

  function Digit(n: nat): char
    requires n < 10
  {
    '0' + n as char
  }

  function Text(n: nat): (t: string)
    ensures t != [] && forall c <- t :: '0' <= c <= '9'
  {
    if n < 10 then [Digit(n)] else Text(n / 10) + [Digit(n % 10)]
  }

  /** The value of the leading digits. */
  function Number(text: string, value: nat): nat
  {
    if text == [] || !('0' <= text[0] <= '9') then value
    else Number(text[1..], 10 * value + (text[0] as nat - '0' as nat))
  }

  lemma {:induction false} NumberAppend(text: string, c: char, value: nat)
    requires '0' <= c <= '9' && forall d <- text :: '0' <= d <= '9'
    ensures Number(text + [c], value) == 10 * Number(text, value) + (c as nat - '0' as nat)
  {
    if text == [] {
      assert [c][1..] == [];
    } else {
      Seqs.Tail(text, [c]);
      assert text[0] in text && forall d <- text[1..] :: d in text;
      NumberAppend(text[1..], c, 10 * value + (text[0] as nat - '0' as nat));
    }
  }

  /** Reading undoes printing. */
  lemma {:induction false} NumberOfText(n: nat)
    ensures Number(Text(n), 0) == n
  {
    if n < 10 {
      assert Text(n)[1..] == [];
    } else {
      NumberOfText(n / 10);
      NumberAppend(Text(n / 10), Digit(n % 10), 0);
    }
  }

  function Locator(basePath: string, i: nat): string { (basePath + BUFFER_FILE_NAME) + Text(i) }

  /** The number in a locator, as a byte. */
  function NumberOf(basePath: string, locator: string): Option<byte>
  {
    if basePath <= locator then
      var actualFile := locator[|basePath|..];
      if BUFFER_FILE_NAME <= actualFile then Some(U8(Number(actualFile[|BUFFER_FILE_NAME|..], 0))) else None
    else None
  }

  /** Printing and parsing a locator undo each other, for every base path. */
  lemma LocatorRoundTrip(basePath: string, i: nat)
    requires i < 0x100
    ensures NumberOf(basePath, Locator(basePath, i)) == Some(i)
  {
    hide Text, Number;
    Seqs.Assoc(basePath, BUFFER_FILE_NAME, Text(i));
    Seqs.Suffix(basePath, BUFFER_FILE_NAME + Text(i));
    Seqs.Suffix(BUFFER_FILE_NAME, Text(i));
    NumberOfText(i);
  }

  /** A number is cut to a byte. */
  lemma LocatorWraps(basePath: string, n: nat)
    ensures NumberOf(basePath, Locator(basePath, n)) == Some(n % 0x100)
  {
    hide Text, Number;
    Seqs.Assoc(basePath, BUFFER_FILE_NAME, Text(n));
    Seqs.Suffix(basePath, BUFFER_FILE_NAME + Text(n));
    Seqs.Suffix(BUFFER_FILE_NAME, Text(n));
    NumberOfText(n);
  }

  /** What is read as a number: behind the base path and the name, and 0 if there are no digits. */
  lemma NumberIff(basePath: string, locator: string)
    ensures NumberOf(basePath, locator).Some? <==> (basePath + BUFFER_FILE_NAME) <= locator
    ensures NumberOf(basePath, basePath + BUFFER_FILE_NAME) == Some(0)
  {
    Seqs.Suffix(basePath, BUFFER_FILE_NAME);
    if basePath <= locator && BUFFER_FILE_NAME <= locator[|basePath|..] {
      assert locator == locator[..|basePath|] + locator[|basePath|..];
    }
    if (basePath + BUFFER_FILE_NAME) <= locator {
      assert locator[..|basePath|] == basePath;
      assert locator[|basePath|..][..|BUFFER_FILE_NAME|] == BUFFER_FILE_NAME;
    }
  }

  lemma LocatorExample()
    ensures Locator("/tmp/", 12) == "/tmp/ocdmbuffer.12"
  {
    assert Text(12) == [Digit(1)] + [Digit(2)] == "12";
  }

  lemma LocatorsDiffer(basePath: string, i: nat, j: nat)
    requires i < j < 0x100
    ensures Locator(basePath, i) != Locator(basePath, j)
  {
    LocatorRoundTrip(basePath, i);
    LocatorRoundTrip(basePath, j);
  }

  class BufferAdministrator {
    const basePath: string
    var occupation: u16

    constructor (basePath: string)
      ensures this.basePath == basePath && Used(occupation) == {}
    {
      this.basePath, occupation := basePath, 0;
      new;
      forall i: nat ensures !Bit(0, i) {
        ZeroBit(i);
      }
    }

    /** The lowest free slot is taken; without one, nothing changes. */
    method AquireBuffer() returns (locator: string)
      modifies this
      ensures locator == "" <==> forall i: nat :: i < SLOTS ==> i in Used(old(occupation))
      ensures locator == "" ==> occupation == old(occupation)
      ensures locator != "" ==>
                exists i :: LowestFree(Used(old(occupation)), i) && locator == Locator(basePath, i)
                            && Used(occupation) == Used(old(occupation)) + {i}
    {
      hide Text, Bit;
      var index := 0;
      while index < SLOTS && Bit(occupation, index)
        invariant 0 <= index <= SLOTS && forall j: nat :: j < index ==> Bit(occupation, j)
      {
        index := index + 1;
      }
      locator := "";
      if index < SLOTS {
        ghost var before := occupation;
        PowSixteen();
        BitBelow(occupation, index, SLOTS);
        occupation := occupation + Pow2(index);
        locator := Locator(basePath, index);
        forall j: nat ensures Bit(occupation, j) <==> j == index || Bit(before, j) {
          SetBit(before, index, j);
        }
        assert index !in Used(before) && LowestFree(Used(before), index);
        assert Used(occupation) == Used(before) + {index};
      }
    }

    /** A slot that is in use is freed, and nothing else; the number 16 is let through to the bitmap, which has no
        such bit. */
    method ReleaseBuffer(locator: string) returns (released: bool)
      modifies this
      ensures released <==>
                NumberOf(basePath, locator).Some? && NumberOf(basePath, locator).value in Used(old(occupation))
      ensures Used(occupation) == if released then Used(old(occupation)) - {NumberOf(basePath, locator).value}
                                  else Used(old(occupation))
    {
      hide Number, Bit;
      released := false;
      if basePath <= locator {
        var actualFile := locator[|basePath|..];
        if BUFFER_FILE_NAME <= actualFile {
          var number := U8(Number(actualFile[|BUFFER_FILE_NAME|..], 0));
          if number <= SLOTS {
            ghost var before := occupation;
            PowSixteen();
            if number == SLOTS {
              NoBitAbove(occupation, number, SLOTS);
            }
            if Bit(occupation, number) {
              ClearBit(occupation, number, number);
              occupation := occupation - Pow2(number);
              released := true;
              forall j: nat ensures Bit(occupation, j) <==> j != number && Bit(before, j) {
                ClearBit(before, number, j);
              }
              assert Used(occupation) == Used(before) - {number as nat};
            }
          }
        }
      }
    }
  }

  lemma PowSixteen()
    ensures Pow2(SLOTS) == 0x1_0000
  {
    assert Pow2(4) == 16 && Pow2(8) == 16 * Pow2(4) && Pow2(12) == 16 * Pow2(8) && Pow2(16) == 16 * Pow2(12);
  }

  // ----- sessions

  /** A session, with the locator of its buffer, or none. */
  class Session {
    var buffer: string

    constructor ()
      ensures buffer == ""
    {
      buffer := "";
    }
  }

  datatype OCDM_RESULT = SUCCESS | S_FALSE | INVALID_DECRYPT_BUFFER

  /** The slots in use and the buffers that are not empty correspond one to one. */
  predicate OneToOne(basePath: string, buffers: seq<string>, used: set<nat>)
  {
    && (forall i <- used :: i < SLOTS && Locator(basePath, i) in buffers)
    && (forall k :: 0 <= k < |buffers| && buffers[k] != "" ==> OfSlot(basePath, buffers[k], used))
    && (forall k, l :: 0 <= k < l < |buffers| && buffers[k] != "" ==> buffers[k] != buffers[l])
  }

  predicate OfSlot(basePath: string, buffer: string, used: set<nat>)
  {
    var number := NumberOf(basePath, buffer);
    number.Some? && number.value in used && buffer == Locator(basePath, number.value)
  }

  lemma NewSession(basePath: string, buffers: seq<string>, used: set<nat>)
    requires OneToOne(basePath, buffers, used)
    ensures OneToOne(basePath, [""] + buffers, used)
  {
    hide Locator, NumberOf;
    forall i <- used ensures Locator(basePath, i) in [""] + buffers {
      assert Locator(basePath, i) in buffers;
    }
  }

  lemma SlotTaken(basePath: string, buffers: seq<string>, used: set<nat>, k: nat, i: nat)
    requires OneToOne(basePath, buffers, used) && k < |buffers| && buffers[k] == "" && i !in used && i < SLOTS
    ensures OneToOne(basePath, buffers[k := Locator(basePath, i)], used + {i})
  {
    hide Locator, NumberOf;
    LocatorRoundTrip(basePath, i);
    var after := buffers[k := Locator(basePath, i)];
    LocatorNonEmpty(basePath, i);
    forall j <- used ensures Locator(basePath, j) in after {
      LocatorNonEmpty(basePath, j);
      var l :| 0 <= l < |buffers| && buffers[l] == Locator(basePath, j);
      assert after[l] == buffers[l];
    }
    assert after[k] == Locator(basePath, i);
    forall l | 0 <= l < |buffers| && l != k && buffers[l] != "" ensures after[l] != after[k] {
      assert OfSlot(basePath, buffers[l], used);
    }
  }

  lemma LocatorNonEmpty(basePath: string, i: nat)
    ensures Locator(basePath, i) != ""
  {
  }

  lemma SlotReturned(basePath: string, buffers: seq<string>, used: set<nat>, k: nat)
    requires OneToOne(basePath, buffers, used) && k < |buffers|
    ensures var after := buffers[..k] + buffers[k + 1..];
            if buffers[k] == "" then OneToOne(basePath, after, used)
            else
              var number := NumberOf(basePath, buffers[k]);
              number.Some? && number.value in used && OneToOne(basePath, after, used - {number.value as nat})
  {
    hide Locator, NumberOf;
    var after := buffers[..k] + buffers[k + 1..];
    assert forall l :: 0 <= l < |after| ==> after[l] == buffers[if l < k then l else l + 1];
    var number := NumberOf(basePath, buffers[k]);
    var left := if buffers[k] == "" then used else used - {number.value as nat};
    if buffers[k] != "" {
      assert OfSlot(basePath, buffers[k], used);
    }
    forall i <- left ensures Locator(basePath, i) in after {
      LocatorNonEmpty(basePath, i);
      LocatorRoundTrip(basePath, i);
      var l :| 0 <= l < |buffers| && buffers[l] == Locator(basePath, i);
      assert after[if l < k then l else l - 1] == buffers[l];
    }
    forall l | 0 <= l < |after| && after[l] != "" ensures OfSlot(basePath, after[l], left) {
      var at := if l < k then l else l + 1;
      assert OfSlot(basePath, buffers[at], used) && buffers[at] != buffers[k];
    }
  }

  predicate NoDuplicates(sessions: seq<Session>)
  {
    forall k, l :: 0 <= k < l < |sessions| ==> sessions[k] != sessions[l]
  }

  ghost function BuffersOf(sessions: seq<Session>): (ids: seq<string>)
    reads sessions
    ensures |ids| == |sessions| && forall k :: 0 <= k < |sessions| ==> ids[k] == sessions[k].buffer
  {
    seq(|sessions|, k requires 0 <= k < |sessions| reads sessions => sessions[k].buffer)
  }

  lemma Erased(sessions: seq<Session>, k: nat)
    requires k < |sessions|
    ensures var after := sessions[..k] + sessions[k + 1..];
            && (NoDuplicates(sessions) ==> NoDuplicates(after))
            && BuffersOf(after) == BuffersOf(sessions)[..k] + BuffersOf(sessions)[k + 1..]
  {
  }

  class Accessor {
    const administrator: BufferAdministrator
    var sessionList: seq<Session>

    ghost function BufferIds(): seq<string>
      reads this, sessionList
    {
      BuffersOf(sessionList)
    }

    /** The bits that are set and the listed sessions that hold a buffer correspond one to one. */
    ghost predicate Valid()
      reads this, administrator, sessionList
    {
      && NoDuplicates(sessionList)
      && OneToOne(administrator.basePath, BufferIds(), Used(administrator.occupation))
    }

    constructor (basePath: string)
      ensures Valid() && fresh(administrator) && administrator.basePath == basePath && sessionList == []
    {
      administrator := new BufferAdministrator(basePath);
      sessionList := [];
    }

    method CreateSession() returns (session: Session)
      requires Valid()
      modifies this
      ensures Valid() && fresh(session) && session.buffer == "" && sessionList == [session] + old(sessionList)
    {
      hide Used, OneToOne;
      NewSession(administrator.basePath, BufferIds(), Used(administrator.occupation));
      ghost var before := BufferIds();
      session := new Session();
      sessionList := [session] + sessionList;
      assert BufferIds() == [""] + before;
    }

    /** A session without a buffer gets the lowest free slot, if there is one; a session with a buffer keeps
        it. */
    method CreateSessionBuffer(session: Session) returns (result: OCDM_RESULT, bufferID: string)
      requires Valid() && session in sessionList
      modifies administrator, session
      ensures Valid()
      ensures result == S_FALSE <==> old(session.buffer) != ""
      ensures result == SUCCESS ==>
                exists i :: LowestFree(Used(old(administrator.occupation)), i)
                            && bufferID == Locator(administrator.basePath, i)
                            && Used(administrator.occupation) == Used(old(administrator.occupation)) + {i}
      ensures result != SUCCESS ==>
                administrator.occupation == old(administrator.occupation) && session.buffer == old(session.buffer)
      ensures result == INVALID_DECRYPT_BUFFER ==>
                bufferID == "" && forall i: nat :: i < SLOTS ==> i in Used(administrator.occupation)
      ensures result != INVALID_DECRYPT_BUFFER ==> bufferID == session.buffer != ""
    {
      hide Locator, Used, OneToOne, NumberOf;
      if session.buffer == "" {
        bufferID := administrator.AquireBuffer();
        if bufferID != "" {
          ghost var k :| 0 <= k < |sessionList| && sessionList[k] == session;
          ghost var i :| LowestFree(Used(old(administrator.occupation)), i)
                         && bufferID == Locator(administrator.basePath, i)
                         && Used(administrator.occupation) == Used(old(administrator.occupation)) + {i};
          SlotTaken(administrator.basePath, BufferIds(), Used(old(administrator.occupation)), k, i);
          ghost var before := BufferIds();
          session.buffer := bufferID;
          assert BufferIds() == before[k := bufferID];
          result := SUCCESS;
        } else {
          result := INVALID_DECRYPT_BUFFER;
        }
      } else {
        bufferID := session.buffer;
        result := S_FALSE;
      }
    }

    /** The session leaves the list, and the slot of its buffer, if it holds one, is freed. */
    method Remove(session: Session)
      requires Valid() && session in sessionList
      modifies this, administrator
      ensures Valid()
      ensures exists k :: 0 <= k < |old(sessionList)| && old(sessionList)[k] == session
                          && sessionList == old(sessionList)[..k] + old(sessionList)[k + 1..]
      ensures session.buffer == "" ==> administrator.occupation == old(administrator.occupation)
      ensures session.buffer != "" ==>
                exists i :: i in Used(old(administrator.occupation))
                            && session.buffer == Locator(administrator.basePath, i)
                            && Used(administrator.occupation) == Used(old(administrator.occupation)) - {i}
    {
      hide Locator, Used, OneToOne, NumberOf, NoDuplicates, BuffersOf;
      ghost var before := BufferIds();
      ghost var k :| 0 <= k < |sessionList| && sessionList[k] == session;
      var bufferid := session.buffer;
      if bufferid != "" {
        SlotOf(administrator.basePath, before, Used(administrator.occupation), k);
        var released := administrator.ReleaseBuffer(bufferid);
        // A slot is never freed twice.
        assert released;
      }
      var index := 0;
      while index < |sessionList| && session != sessionList[index]
        invariant 0 <= index <= |sessionList| && session !in sessionList[..index]
      {
        index := index + 1;
      }
      assert before[index] == bufferid;
      SlotReturned(administrator.basePath, before, Used(old(administrator.occupation)), index);
      Erased(sessionList, index);
      sessionList := sessionList[..index] + sessionList[index + 1..];
    }
  }

  lemma SlotOf(basePath: string, buffers: seq<string>, used: set<nat>, k: nat)
    requires OneToOne(basePath, buffers, used) && k < |buffers| && buffers[k] != ""
    ensures OfSlot(basePath, buffers[k], used)
  {
  }

  function Holders(buffers: seq<string>): nat
  {
    if buffers == [] then 0
    else Holders(buffers[..|buffers| - 1]) + if buffers[|buffers| - 1] == "" then 0 else 1
  }

  /** As many sessions hold a buffer as slots are in use. */
  lemma {:induction false} HoldersCount(basePath: string, buffers: seq<string>, used: set<nat>)
    requires OneToOne(basePath, buffers, used)
    ensures Holders(buffers) == |used|
    decreases |buffers|
  {
    hide OneToOne, Locator, NumberOf;
    if buffers == [] {
      NoHolders(basePath, used);
    } else {
      var n := |buffers| - 1;
      SlotReturned(basePath, buffers, used, n);
      assert buffers[..n] + buffers[n + 1..] == buffers[..n];
      HoldersCount(basePath, buffers[..n],
                   if buffers[n] == "" then used else used - {NumberOf(basePath, buffers[n]).value as nat});
    }
  }

  lemma NoHolders(basePath: string, used: set<nat>)
    requires OneToOne(basePath, [], used)
    ensures used == {}
  {
    assert forall i <- used :: Locator(basePath, i) in [];
  }

  /** The locators of the buffers that are held at one time are pairwise different. */
  lemma LiveLocatorsDiffer(accessor: Accessor, k: nat, l: nat)
    requires accessor.Valid() && k < l < |accessor.sessionList|
    requires accessor.sessionList[k].buffer != "" && accessor.sessionList[l].buffer != ""
    ensures accessor.sessionList[k].buffer != accessor.sessionList[l].buffer
  {
    assert accessor.BufferIds()[k] != accessor.BufferIds()[l];
  }
}
