/** The key statuses of a session, on the server and in the client's copy (plugin/FrameworkRPC.cpp,
    Sink::OnKeyStatusUpdate and the announcements of CreateSession; client/open_cdm_impl.h,
    OnKeyStatusUpdate and Status).

    The transport of a key id from the server to the client is the parameter `wire`. */
module Replica {
  import opened KeyList
  import Seqs
  import Cenc = CencParser

  type Wire = Kid -> Kid

  ghost predicate Faithful(wire: Wire, same: Sameness)
  {
    forall k :: same(wire(k), k)
  }

  /** The status that a CDM message stands for. */
  function StatusOf(message: string): (s: KeyStatus)
    ensures s != StatusPending
  {
    if message == "KeyUsable" then Usable
    else if message == "KeyReleased" then Released
    else if message == "KeyExpired" then Expired
    else if message == "KeyOutputRestricted" then OutputRestricted
    else if message == "KeyOutputDownscaled" then OutputDownscaled
    else if message == "SEC_RESULT_HW_FAILURE" then HWError
    else if message == "KeyOutputRestrictedHDCP22" then OutputRestrictedHDCP22
    else InternalError
  }

  /** The status of the first entry of a key, or pending. */
  function StatusIn(list: seq<Entry>, kid: Kid, same: Sameness): KeyStatus
  {
    var i := Index(list, kid, same);
    if i < |list| then list[i].status else StatusPending
  }

  /** A key id of the client, which knows no systems. */
  function Plain(kid: Kid): Entry { Entry(kid, {}, StatusPending) }

  // ----- the two lists in place

  /** The client's session. */
  class OpenCDMSession {
    var keyStatuses: seq<Entry>
    /** The keys of which the application was told. */
    var told: seq<Kid>
    const same: Sameness

    constructor (same: Sameness)
      ensures keyStatuses == [] && told == [] && this.same == same
    {
      keyStatuses, told, this.same := [], [], same;
    }

    method OnKeyStatusUpdate(kid: Kid, status: KeyStatus)
      modifies this
      ensures keyStatuses == Update(old(keyStatuses), status, Plain(kid), same)
      ensures told == if status != StatusPending then old(told) + [kid] else old(told)
    {
      var index := Index(keyStatuses, kid, same);
      if index == |keyStatuses| {
        keyStatuses := keyStatuses + [Plain(kid).(status := status)];
      } else {
        keyStatuses := keyStatuses[index := keyStatuses[index].(status := status)];
      }
      if status != StatusPending {
        told := told + [kid];
      }
    }

    method Status(kid: Kid) returns (status: KeyStatus)
      ensures status == StatusIn(keyStatuses, kid, same)
    {
      var index := Index(keyStatuses, kid, same);
      status := if index != |keyStatuses| then keyStatuses[index].status else StatusPending;
    }
  }

  /** The server's session, as the sink of the CDM, and the client that it reports to. */
  class SessionSink {
    const cencData: Cenc.CommonEncryptionData
    const callback: OpenCDMSession
    const wire: Wire

    constructor (cencData: Cenc.CommonEncryptionData, callback: OpenCDMSession, wire: Wire)
      ensures this.cencData == cencData && this.callback == callback && this.wire == wire
    {
      this.cencData, this.callback, this.wire := cencData, callback, wire;
    }

    function Lists(): Lists
      reads cencData, callback
    {
      Both(cencData.keyIds, callback.keyStatuses)
    }

    method OnKeyStatusUpdate(keyMessage: string, kid: Kid)
      requires cencData.same == callback.same
      modifies cencData, callback
      ensures Lists() == Step(old(Lists()), Report(kid, keyMessage), cencData.same, wire)
    {
      var key := StatusOf(keyMessage);
      var updated := cencData.UpdateKeyStatus(key, Fresh(kid, COMMON));
      callback.OnKeyStatusUpdate(wire(cencData.keyIds[updated].kid), key);
    }

    /** The announcements of CreateSession, for the keys of the init data. */
    method Announce(keyIds: seq<Entry>)
      requires cencData.same == callback.same
      modifies callback
      ensures Lists() == Run(old(Lists()), Announcements(keyIds), cencData.same, wire)
    {
      hide Step;
      var index := 0;
      while index < |keyIds|
        invariant 0 <= index <= |keyIds|
        invariant Lists() == Run(old(Lists()), Announcements(keyIds[..index]), cencData.same, wire)
      {
        AnnounceStep(old(Lists()), Lists(), keyIds, index, cencData.same, wire);
        callback.OnKeyStatusUpdate(wire(keyIds[index].kid), StatusPending);
        index := index + 1;
      }
      assert keyIds[..|keyIds|] == keyIds;
    }
  }

  // ----- runs

  datatype Lists = Both(server: seq<Entry>, client: seq<Entry>)

  datatype Event = Report(kid: Kid, message: string) | Announced(kid: Kid)

  function Step(l: Lists, e: Event, same: Sameness, wire: Wire): Lists
  {
    match e
    case Report(kid, message) =>
      var server := Update(l.server, StatusOf(message), Fresh(kid, COMMON), same);
      // The entry that was updated, or added at the end.
      var entry := server[Index(l.server, kid, same)];
      Both(server, Update(l.client, StatusOf(message), Plain(wire(entry.kid)), same))
    case Announced(kid) =>
      Both(l.server, Update(l.client, StatusPending, Plain(wire(kid)), same))
  }

  function Run(l: Lists, es: seq<Event>, same: Sameness, wire: Wire): Lists
  {
    if es == [] then l else Step(Run(l, es[..|es| - 1], same, wire), es[|es| - 1], same, wire)
  }

  function Announcements(keyIds: seq<Entry>): seq<Event>
  {
    seq(|keyIds|, i requires 0 <= i < |keyIds| => Announced(keyIds[i].kid))
  }

  lemma AnnounceStep(l: Lists, now: Lists, keyIds: seq<Entry>, index: nat, same: Sameness, wire: Wire)
    requires index < |keyIds| && now == Run(l, Announcements(keyIds[..index]), same, wire)
    ensures Run(l, Announcements(keyIds[..index + 1]), same, wire)
         == Both(now.server, Update(now.client, StatusPending, Plain(wire(keyIds[index].kid)), same))
  {
    var es := Announcements(keyIds[..index + 1]);
    assert es[..|es| - 1] == Announcements(keyIds[..index]);
  }

  // ----- what a list reports after a run

  /** A change to a list decides the status of its key, and of no other. */
  lemma UpdateStatus(list: seq<Entry>, status: KeyStatus, e: Entry, kid: Kid, same: Sameness)
    requires Equivalence(same)
    ensures StatusIn(Update(list, status, e, same), kid, same)
         == if same(e.kid, kid) then status else StatusIn(list, kid, same)
  {
    var after := Update(list, status, e, same);
    var i, j, k := Index(list, e.kid, same), Index(list, kid, same), Index(after, kid, same);
    if i < |list| {
      assert |after| == |list| && forall m :: 0 <= m < |list| ==> after[m].kid == list[m].kid;
      assert j == k;
      if same(e.kid, kid) {
        assert i == j;
      }
    } else {
      assert forall m :: 0 <= m < |list| ==> after[m] == list[m];
      assert after[i].kid == e.kid;
      if same(e.kid, kid) {
        assert k == i && j == i;
      } else {
        assert if j < |list| then k == j else k == |after|;
      }
    }
  }

  lemma UpdateDistinct(list: seq<Entry>, status: KeyStatus, e: Entry, same: Sameness)
    requires Equivalence(same) && Distinct(list, same)
    ensures Distinct(Update(list, status, e, same), same)
  {
  }

  /** The last word on a key: that of the last report, or none. */
  function LastReport(es: seq<Event>, kid: Kid, same: Sameness, otherwise: KeyStatus): KeyStatus
  {
    if es == [] then otherwise
    else
      var e := es[|es| - 1];
      if e.Report? && same(e.kid, kid) then StatusOf(e.message)
      else LastReport(es[..|es| - 1], kid, same, otherwise)
  }

  /** The same, with announcements as reports of a pending status. */
  function LastNews(es: seq<Event>, kid: Kid, same: Sameness, otherwise: KeyStatus): KeyStatus
  {
    if es == [] then otherwise
    else
      var e := es[|es| - 1];
      if same(e.kid, kid) then if e.Report? then StatusOf(e.message) else StatusPending
      else LastNews(es[..|es| - 1], kid, same, otherwise)
  }

  /** After any run both lists are free of duplicates, the server reports the last report, and the client
      the last report or announcement. */
  lemma {:induction false} RunReports(l: Lists, es: seq<Event>, kid: Kid, same: Sameness, wire: Wire)
    requires Equivalence(same) && Faithful(wire, same)
    requires Distinct(l.server, same) && Distinct(l.client, same)
    ensures var after := Run(l, es, same, wire);
            && Distinct(after.server, same) && Distinct(after.client, same)
            && StatusIn(after.server, kid, same) == LastReport(es, kid, same, StatusIn(l.server, kid, same))
            && StatusIn(after.client, kid, same) == LastNews(es, kid, same, StatusIn(l.client, kid, same))
  {
    hide Update, StatusIn, StatusOf, Distinct;
    if es != [] {
      var e, before := es[|es| - 1], Run(l, es[..|es| - 1], same, wire);
      RunReports(l, es[..|es| - 1], kid, same, wire);
      match e
      case Report(k, message) =>
        var key := Fresh(k, COMMON);
        UpdateStatus(before.server, StatusOf(message), key, kid, same);
        UpdateDistinct(before.server, StatusOf(message), key, same);
        UpdatedEntry(before.server, StatusOf(message), key, same);
        var entry := Update(before.server, StatusOf(message), key, same)[Index(before.server, k, same)];
        UpdateStatus(before.client, StatusOf(message), Plain(wire(entry.kid)), kid, same);
        UpdateDistinct(before.client, StatusOf(message), Plain(wire(entry.kid)), same);
        SameKey(wire(entry.kid), entry.kid, k, kid, same);
      case Announced(k) =>
        UpdateStatus(before.client, StatusPending, Plain(wire(k)), kid, same);
        UpdateDistinct(before.client, StatusPending, Plain(wire(k)), same);
        SameKey(wire(k), k, k, kid, same);
    }
  }

  lemma UpdatedEntry(list: seq<Entry>, status: KeyStatus, e: Entry, same: Sameness)
    requires Equivalence(same)
    ensures Index(list, e.kid, same) < |Update(list, status, e, same)|
    ensures same(Update(list, status, e, same)[Index(list, e.kid, same)].kid, e.kid)
  {
  }

  lemma SameKey(a: Kid, b: Kid, c: Kid, kid: Kid, same: Sameness)
    requires Equivalence(same) && same(a, b) && same(b, c)
    ensures same(a, kid) <==> same(c, kid)
  {
  }

  // ----- agreement

  predicate Reports(es: seq<Event>)
  {
    forall i :: 0 <= i < |es| ==> es[i].Report?
  }

  predicate Mentioned(es: seq<Event>, kid: Kid, same: Sameness)
  {
    exists i :: 0 <= i < |es| && same(es[i].kid, kid)
  }

  lemma {:induction false} NewsJoin(es: seq<Event>, more: seq<Event>, kid: Kid, same: Sameness, otherwise: KeyStatus)
    ensures LastNews(es + more, kid, same, otherwise) == LastNews(more, kid, same, LastNews(es, kid, same, otherwise))
    ensures LastReport(es + more, kid, same, otherwise)
         == LastReport(more, kid, same, LastReport(es, kid, same, otherwise))
  {
    if more == [] {
      assert es + more == es;
    } else {
      NewsJoin(es, more[..|more| - 1], kid, same, otherwise);
      assert (es + more)[..|es + more| - 1] == es + more[..|more| - 1];
    }
  }

  /** Reports are news, and never of a pending status; a key that is not mentioned keeps its status. */
  lemma {:induction false} NewsOfReports(es: seq<Event>, kid: Kid, same: Sameness, otherwise: KeyStatus)
    requires Reports(es)
    ensures LastNews(es, kid, same, otherwise) == LastReport(es, kid, same, otherwise)
    ensures !Mentioned(es, kid, same) ==> LastReport(es, kid, same, otherwise) == otherwise
    ensures Mentioned(es, kid, same) ==> LastReport(es, kid, same, otherwise) != StatusPending
    ensures Mentioned(es, kid, same) ==>
              forall other :: LastReport(es, kid, same, other) == LastReport(es, kid, same, otherwise)
  {
    hide StatusOf;
    if es != [] {
      var init := es[..|es| - 1];
      NewsOfReports(init, kid, same, otherwise);
      assert Mentioned(es, kid, same) <==> Mentioned(init, kid, same) || same(es[|es| - 1].kid, kid) by {
        if Mentioned(init, kid, same) {
          var i :| 0 <= i < |init| && same(init[i].kid, kid);
          assert same(es[i].kid, kid);
        }
        if i :| 0 <= i < |es| - 1 && same(es[i].kid, kid) {
          assert same(init[i].kid, kid);
        }
      }
      StatusGiven(es[|es| - 1].message);
    }
  }

  lemma StatusGiven(message: string)
    ensures StatusOf(message) != StatusPending
  {
  }

  lemma {:induction false} NewsOfAnnouncements(keys: seq<Entry>, kid: Kid, same: Sameness, otherwise: KeyStatus)
    ensures LastReport(Announcements(keys), kid, same, otherwise) == otherwise
    ensures LastNews(Announcements(keys), kid, same, otherwise)
         == if Has(keys, kid, same) then StatusPending else otherwise
  {
    if keys != [] {
      var init := keys[..|keys| - 1];
      NewsOfAnnouncements(init, kid, same, otherwise);
      assert Announcements(keys)[..|keys| - 1] == Announcements(init);
      assert Has(keys, kid, same) <==> Has(init, kid, same) || same(keys[|keys| - 1].kid, kid) by {
        if Has(init, kid, same) {
          var i :| 0 <= i < |init| && same(init[i].kid, kid);
          assert same(keys[i].kid, kid);
        }
        if i :| 0 <= i < |keys| - 1 && same(keys[i].kid, kid) {
          assert same(init[i].kid, kid);
        }
      }
    }
  }

  predicate AllPending(list: seq<Entry>)
  {
    forall i :: 0 <= i < |list| ==> list[i].status == StatusPending
  }

  /** The whole life of a session: reports that the CDM makes while it starts, the announcements of the keys
      of the init data, and the reports that follow. */
  function Life(keys: seq<Entry>, early: seq<Event>, late: seq<Event>, same: Sameness, wire: Wire): Lists
  {
    Run(Both(keys, []), (early + Announcements(keys)) + late, same, wire)
  }

  /** An announcement of the key follows a report on it, and is followed by none. */
  predicate Overwritten(es: seq<Event>, kid: Kid, same: Sameness)
  {
    exists j :: 0 <= j < |es| && OverwrittenAt(es, j, kid, same)
  }

  predicate OverwrittenAt(es: seq<Event>, j: nat, kid: Kid, same: Sameness)
    requires j < |es|
  {
    es[j].Announced? && same(es[j].kid, kid) && !NoReport(es[..j], 0, kid, same) && NoReport(es, j + 1, kid, same)
  }

  predicate NoReport(es: seq<Event>, from: nat, kid: Kid, same: Sameness)
  {
    forall k :: from <= k < |es| ==> !(es[k].Report? && same(es[k].kid, kid))
  }

  lemma {:induction false} LastIsReport(es: seq<Event>, kid: Kid, same: Sameness)
    ensures LastReport(es, kid, same, StatusPending) == StatusPending <==> NoReport(es, 0, kid, same)
  {
    hide StatusOf;
    if es != [] {
      var init, e := es[..|es| - 1], es[|es| - 1];
      LastIsReport(init, kid, same);
      if e.Report? {
        StatusGiven(e.message);
      }
      assert NoReport(es, 0, kid, same) <==> NoReport(init, 0, kid, same) && !(e.Report? && same(e.kid, kid));
    }
  }

  lemma NoReportGrows(es: seq<Event>, from: nat, kid: Kid, same: Sameness)
    requires from < |es|
    ensures NoReport(es, from, kid, same) <==>
              NoReport(es[..|es| - 1], from, kid, same) && !(es[|es| - 1].Report? && same(es[|es| - 1].kid, kid))
  {
    var init := es[..|es| - 1];
    if NoReport(init, from, kid, same) && !(es[|es| - 1].Report? && same(es[|es| - 1].kid, kid)) {
      forall k | from <= k < |es| ensures !(es[k].Report? && same(es[k].kid, kid)) {
        assert k < |init| ==> init[k] == es[k];
      }
    }
  }

  lemma OverwrittenAtGrows(es: seq<Event>, j: nat, kid: Kid, same: Sameness)
    requires j < |es|
    ensures var n, e := |es| - 1, es[|es| - 1];
            OverwrittenAt(es, j, kid, same) <==>
              if j < n then OverwrittenAt(es[..n], j, kid, same) && !(e.Report? && same(e.kid, kid))
              else e.Announced? && same(e.kid, kid) && !NoReport(es[..n], 0, kid, same)
  {
    hide NoReport;
    var n := |es| - 1;
    if j < n {
      assert es[..n][..j] == es[..j];
      NoReportGrows(es, j + 1, kid, same);
    } else {
      NoneBehind(es, kid, same);
    }
  }

  lemma NoneBehind(es: seq<Event>, kid: Kid, same: Sameness)
    ensures NoReport(es, |es|, kid, same)
  {
  }

  lemma NoneWithout(es: seq<Event>, j: nat, kid: Kid, same: Sameness)
    requires j < |es| && OverwrittenAt(es, j, kid, same)
    ensures !NoReport(es, 0, kid, same)
  {
    var i :| 0 <= i < j && es[..j][i].Report? && same(es[..j][i].kid, kid);
    assert es[i] == es[..j][i];
  }

  /** One event more. */
  lemma OverwrittenGrows(es: seq<Event>, kid: Kid, same: Sameness)
    requires es != []
    ensures var init, e := es[..|es| - 1], es[|es| - 1];
            Overwritten(es, kid, same) <==>
              if !same(e.kid, kid) then Overwritten(init, kid, same)
              else e.Announced? && !NoReport(init, 0, kid, same)
  {
    hide OverwrittenAt, NoReport;
    var n := |es| - 1;
    var init := es[..n];
    forall j | 0 <= j < n ensures OverwrittenAt(es, j, kid, same) <==>
        OverwrittenAt(init, j, kid, same) && !(es[n].Report? && same(es[n].kid, kid))
    {
      OverwrittenAtGrows(es, j, kid, same);
    }
    OverwrittenAtGrows(es, n, kid, same);
    forall j | 0 <= j < n && OverwrittenAt(init, j, kid, same) ensures !NoReport(init, 0, kid, same) {
      NoneWithout(init, j, kid, same);
    }
  }

  lemma {:induction false} NewsIsReportIff(es: seq<Event>, kid: Kid, same: Sameness)
    ensures LastNews(es, kid, same, StatusPending) == LastReport(es, kid, same, StatusPending)
       <==> !Overwritten(es, kid, same)
  {
    hide Overwritten, NoReport, StatusOf;
    if es == [] {
      NothingOverwritten(kid, same);
    } else {
      var init := es[..|es| - 1];
      NewsIsReportIff(init, kid, same);
      OverwrittenGrows(es, kid, same);
      LastIsReport(init, kid, same);
    }
  }

  lemma NothingOverwritten(kid: Kid, same: Sameness)
    ensures !Overwritten([], kid, same)
  {
  }

  /** However reports and announcements follow each other: both sides stay free of duplicates, and agree on a
      key exactly unless its last report was followed by an announcement of the key. */
  lemma AgreementIff(keys: seq<Entry>, es: seq<Event>, kid: Kid, same: Sameness, wire: Wire)
    requires Equivalence(same) && Faithful(wire, same)
    requires Distinct(keys, same) && AllPending(keys)
    ensures var after := Run(Both(keys, []), es, same, wire);
            && Distinct(after.server, same) && Distinct(after.client, same)
            && (StatusIn(after.server, kid, same) == StatusIn(after.client, kid, same)
                <==> !Overwritten(es, kid, same))
  {
    hide LastReport, LastNews, Overwritten, Run;
    RunReports(Both(keys, []), es, kid, same, wire);
    NewsIsReportIff(es, kid, same);
  }

  /** For every key: it is reported as usable and announced afterwards, and is pending for the client. */
  lemma EarlyReportLost(kid: Kid, same: Sameness, wire: Wire)
    requires Equivalence(same) && Faithful(wire, same)
    ensures var after := Run(Both([Fresh(kid, COMMON)], []), [Report(kid, "KeyUsable"), Announced(kid)], same, wire);
            StatusIn(after.server, kid, same) == Usable && StatusIn(after.client, kid, same) == StatusPending
  {
    hide Run, StatusIn;
    var es := [Report(kid, "KeyUsable"), Announced(kid)];
    RunReports(Both([Fresh(kid, COMMON)], []), es, kid, same, wire);
    assert es[..1][..0] == [] && es[..1] == [Report(kid, "KeyUsable")] && es[1] == Announced(kid);
  }

  /** When all keys are announced at once: both sides stay free of duplicates, and agree on a key exactly unless
      its status was reported before it was announced, and not again after. */
  lemma LifeAgreesIff(keys: seq<Entry>, early: seq<Event>, late: seq<Event>, kid: Kid, same: Sameness, wire: Wire)
    requires Equivalence(same) && Faithful(wire, same)
    requires Distinct(keys, same) && AllPending(keys) && Reports(early) && Reports(late)
    ensures var after := Life(keys, early, late, same, wire);
            && Distinct(after.server, same) && Distinct(after.client, same)
            && (StatusIn(after.server, kid, same) == StatusIn(after.client, kid, same)
                <==> !(Has(keys, kid, same) && Mentioned(early, kid, same) && !Mentioned(late, kid, same)))
  {
    hide LastReport, LastNews, Announcements, Has, Mentioned, Run;
    var announced := Announcements(keys);
    RunReports(Both(keys, []), (early + announced) + late, kid, same, wire);
    NewsJoin(early + announced, late, kid, same, StatusPending);
    NewsJoin(early, announced, kid, same, StatusPending);
    NewsOfReports(early, kid, same, StatusPending);
    var told := LastReport(early, kid, same, StatusPending);
    NewsOfAnnouncements(keys, kid, same, told);
    NewsOfReports(late, kid, same, told);
    NewsOfReports(late, kid, same, LastNews(announced, kid, same, told));
  }

  /** Without early reports the two sides agree on every key, and the status is that of the last report. */
  lemma AlwaysAgree(keys: seq<Entry>, late: seq<Event>, kid: Kid, same: Sameness, wire: Wire)
    requires Equivalence(same) && Faithful(wire, same)
    requires Distinct(keys, same) && AllPending(keys) && Reports(late)
    ensures var after := Life(keys, [], late, same, wire);
            && StatusIn(after.server, kid, same) == LastReport(late, kid, same, StatusPending)
            && StatusIn(after.client, kid, same) == LastReport(late, kid, same, StatusPending)
  {
    hide LastReport, LastNews, Announcements, Run;
    var announced := Announcements(keys);
    LifeAgreesIff(keys, [], late, kid, same, wire);
    RunReports(Both(keys, []), ([] + announced) + late, kid, same, wire);
    Seqs.Nil(announced);
    NewsJoin(announced, late, kid, same, StatusPending);
    NewsOfAnnouncements(keys, kid, same, StatusPending);
  }

  /** The messages of the CDM, and the statuses that they stand for. */
  const MESSAGES: map<string, KeyStatus> := map[
    "KeyUsable" := Usable,
    "KeyReleased" := Released,
    "KeyExpired" := Expired,
    "KeyOutputRestricted" := OutputRestricted,
    "KeyOutputDownscaled" := OutputDownscaled,
    "SEC_RESULT_HW_FAILURE" := HWError,
    "KeyOutputRestrictedHDCP22" := OutputRestrictedHDCP22]

  /** Behind a message on a key, server and client report the status that it stands for, and an internal error for
      any other message, whatever was reported before. */
  lemma MessageReported(l: Lists, es: seq<Event>, kid: Kid, message: string, same: Sameness, wire: Wire)
    requires Equivalence(same) && Faithful(wire, same)
    requires Distinct(l.server, same) && Distinct(l.client, same)
    ensures var after := Run(l, es + [Report(kid, message)], same, wire);
            var status := if message in MESSAGES then MESSAGES[message] else InternalError;
            StatusIn(after.server, kid, same) == status && StatusIn(after.client, kid, same) == status
  {
    hide Run, StatusIn;
    var all := es + [Report(kid, message)];
    RunReports(l, all, kid, same, wire);
    assert all[|all| - 1] == Report(kid, message);
  }
}
