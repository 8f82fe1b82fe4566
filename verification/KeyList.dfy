/** The list of key ids of a session (plugin/CENCParser.h, AddKeyId and UpdateKeyStatus).

    The comparison of two key ids is not part of this model: it is the parameter `same`, of which only the
    laws of an equivalence are used. */
module KeyList {
  import opened Bytes

  /** A key id given by its bytes, or by the four fields of a Microsoft GUID. */
  datatype Kid = Raw(bytes: seq<byte>) | Guid(a: u32, b: u16, c: u16, d: seq<byte>)

  type Sameness = (Kid, Kid) -> bool

  datatype KeyStatus =
    | Usable | Expired | Released | OutputRestricted | OutputRestrictedHDCP22 | OutputDownscaled
    | StatusPending | InternalError | HWError

  datatype System = COMMON | CLEARKEY | PLAYREADY | WIDEVINE

  /** The flag word of the systems that announced the key is the set of its bits. */
  datatype Entry = Entry(kid: Kid, systems: set<System>, status: KeyStatus)

  /** A key id as the parsers construct it: its status is still pending. */
  function Fresh(kid: Kid, system: System): Entry { Entry(kid, {system}, StatusPending) }

  ghost predicate Equivalence(same: Sameness)
  {
    && (forall k :: same(k, k))
    && (forall k, l :: same(k, l) ==> same(l, k))
    && (forall k, l, m :: same(k, l) && same(l, m) ==> same(k, m))
  }

  /** std::find: the first place of a key id, or the length of the list. */
  function Index(list: seq<Entry>, kid: Kid, same: Sameness): (i: nat)
    ensures i <= |list| && (i < |list| ==> same(list[i].kid, kid))
    ensures forall j :: 0 <= j < i ==> !same(list[j].kid, kid)
  {
    if list == [] || same(list[0].kid, kid) then 0 else 1 + Index(list[1..], kid, same)
  }

  predicate Has(list: seq<Entry>, kid: Kid, same: Sameness)
  {
    exists i :: 0 <= i < |list| && same(list[i].kid, kid)
  }

  function Add(list: seq<Entry>, e: Entry, same: Sameness): seq<Entry>
  {
    var i := Index(list, e.kid, same);
    if i == |list| then list + [e] else list[i := list[i].(systems := list[i].systems + e.systems)]
  }

  function Update(list: seq<Entry>, status: KeyStatus, e: Entry, same: Sameness): seq<Entry>
  {
    var i := Index(list, e.kid, same);
    if i == |list| then list + [e.(status := status)] else list[i := list[i].(status := status)]
  }

  function AddAll(list: seq<Entry>, es: seq<Entry>, same: Sameness): seq<Entry>
  {
    if es == [] then list else Add(AddAll(list, es[..|es| - 1], same), es[|es| - 1], same)
  }

  lemma {:induction false} AddAllJoin(list: seq<Entry>, es: seq<Entry>, more: seq<Entry>, same: Sameness)
    ensures AddAll(list, es + more, same) == AddAll(AddAll(list, es, same), more, same)
  {
    if more == [] {
      assert es + more == es;
    } else {
      AddAllJoin(list, es, more[..|more| - 1], same);
      assert (es + more)[..|es + more| - 1] == es + more[..|more| - 1];
    }
  }

  // ----- the meaning of adding a sequence of keys

  /** No two entries are the same key. */
  ghost predicate Distinct(list: seq<Entry>, same: Sameness)
  {
    forall i, j :: 0 <= i < j < |list| ==> !same(list[i].kid, list[j].kid)
  }

  /** No earlier key is the same as key `i`. */
  predicate FirstOfKind(es: seq<Entry>, i: nat, same: Sameness)
    requires i < |es|
  {
    forall j :: 0 <= j < i ==> !same(es[j].kid, es[i].kid)
  }

  /** The places of the keys that are first of their kind, in order. */
  function Firsts(es: seq<Entry>, same: Sameness): (f: seq<nat>)
    ensures forall i :: 0 <= i < |f| ==> f[i] < |es| && FirstOfKind(es, f[i], same)
    ensures forall i :: 0 <= i < |es| && FirstOfKind(es, i, same) ==> i in f
    ensures forall i, j :: 0 <= i < j < |f| ==> f[i] < f[j]
  {
    if es == [] then []
    else
      var n := |es| - 1;
      var f := Firsts(es[..n], same);
      assert forall i :: 0 <= i < n ==> (FirstOfKind(es[..n], i, same) <==> FirstOfKind(es, i, same));
      if FirstOfKind(es, n, same) then f + [n] else f
  }

  /** All systems for which a key was announced. */
  function Systems(es: seq<Entry>, kid: Kid, same: Sameness): set<System>
  {
    if es == [] then {}
    else
      var n := |es| - 1;
      if same(es[n].kid, kid) then Systems(es[..n], kid, same) + es[n].systems
      else Systems(es[..n], kid, same)
  }

  /** The first keys of each kind, in order, each with the systems of all keys of its kind. */
  function Merged(es: seq<Entry>, same: Sameness): seq<Entry>
  {
    var f := Firsts(es, same);
    seq(|f|, i requires 0 <= i < |f| => es[f[i]].(systems := Systems(es, es[f[i]].kid, same)))
  }

  lemma {:induction false} SystemsSame(es: seq<Entry>, k: Kid, l: Kid, same: Sameness)
    requires Equivalence(same) && same(k, l)
    ensures Systems(es, k, same) == Systems(es, l, same)
  {
    if es != [] {
      SystemsSame(es[..|es| - 1], k, l, same);
    }
  }

  lemma {:induction false} NoSystems(es: seq<Entry>, kid: Kid, same: Sameness)
    requires forall i :: 0 <= i < |es| ==> !same(es[i].kid, kid)
    ensures Systems(es, kid, same) == {}
  {
    if es != [] {
      NoSystems(es[..|es| - 1], kid, same);
    }
  }

  /** Every key has a first of its kind. */
  lemma {:induction false} HasFirst(es: seq<Entry>, i: nat, same: Sameness) returns (p: nat)
    requires Equivalence(same) && i < |es|
    ensures p < |Firsts(es, same)| && same(es[Firsts(es, same)[p]].kid, es[i].kid)
  {
    if FirstOfKind(es, i, same) {
      p :| 0 <= p < |Firsts(es, same)| && Firsts(es, same)[p] == i;
    } else {
      var j :| 0 <= j < i && same(es[j].kid, es[i].kid);
      p := HasFirst(es, j, same);
    }
  }

  /** The list is the order-preserving, duplicate-free fold of the announced keys, with the system flags
      of equal keys OR-ed together. */
  lemma {:induction false} AddAllMerges(es: seq<Entry>, same: Sameness)
    requires Equivalence(same)
    ensures AddAll([], es, same) == Merged(es, same)
    ensures Distinct(AddAll([], es, same), same)
  {
    if es != [] {
      var n := |es| - 1;
      var init, e := es[..n], es[n];
      AddAllMerges(init, same);
      MergeStep(init, e, same);
      assert init + [e] == es;
    }
    var f := Firsts(es, same);
    forall i, j | 0 <= i < j < |f| ensures !same(es[f[i]].kid, es[f[j]].kid) {
      assert FirstOfKind(es, f[j], same);
    }
  }

  lemma MergeStep(init: seq<Entry>, e: Entry, same: Sameness)
    requires Equivalence(same)
    ensures Add(Merged(init, same), e, same) == Merged(init + [e], same)
  {
    assert (init + [e])[..|init|] == init;
    if FirstOfKind(init + [e], |init|, same) {
      MergeNew(init, e, same);
    } else {
      MergeOld(init, e, same);
    }
  }

  lemma MergeNew(init: seq<Entry>, e: Entry, same: Sameness)
    requires Equivalence(same) && FirstOfKind(init + [e], |init|, same)
    ensures Add(Merged(init, same), e, same) == Merged(init + [e], same)
  {
    var es, n := init + [e], |init|;
    assert es[..n] == init;
    var list, f, merged := Merged(init, same), Firsts(init, same), Merged(es, same);
    assert forall j :: 0 <= j < n ==> init[j] == es[j] && !same(es[j].kid, e.kid);
    assert Firsts(es, same) == f + [n];
    forall i | 0 <= i < |f| ensures !same(list[i].kid, e.kid) && merged[i] == list[i] {
      assert es[f[i]] == init[f[i]];
      assert !same(e.kid, init[f[i]].kid);
      SystemsGrow(init, e, init[f[i]].kid, same);
    }
    NoSystems(init, e.kid, same);
    SystemsGrow(init, e, e.kid, same);
    assert merged[|f|] == es[n].(systems := {} + e.systems) == e;
    assert Add(list, e, same) == list + [e] == merged;
  }

  lemma SystemsGrow(init: seq<Entry>, e: Entry, kid: Kid, same: Sameness)
    ensures Systems(init + [e], kid, same)
         == if same(e.kid, kid) then Systems(init, kid, same) + e.systems else Systems(init, kid, same)
  {
    assert (init + [e])[..|init|] == init;
  }

  lemma MergeOld(init: seq<Entry>, e: Entry, same: Sameness)
    requires Equivalence(same) && !FirstOfKind(init + [e], |init|, same)
    ensures Add(Merged(init, same), e, same) == Merged(init + [e], same)
  {
    var es, n := init + [e], |init|;
    assert es[..n] == init;
    var list, f, merged := Merged(init, same), Firsts(init, same), Merged(es, same);
    var j :| 0 <= j < n && same(es[j].kid, e.kid);
    var p := HasFirst(init, j, same);
    assert same(list[p].kid, e.kid);
    var at := Index(list, e.kid, same);
    assert Firsts(es, same) == f;
    forall i | 0 <= i < |f| && i != at ensures merged[i] == list[i] {
      OneOfKind(init, i, at, same);
      assert !same(e.kid, list[i].kid);
      SystemsGrow(init, e, list[i].kid, same);
    }
    assert same(e.kid, list[at].kid);
    SystemsGrow(init, e, list[at].kid, same);
    assert merged[at] == list[at].(systems := list[at].systems + e.systems);
    assert Add(list, e, same) == merged;
  }

  lemma OneOfKind(es: seq<Entry>, i: nat, j: nat, same: Sameness)
    requires Equivalence(same)
    requires i < |Firsts(es, same)| && j < |Firsts(es, same)| && i != j
    ensures var f := Firsts(es, same); !same(es[f[i]].kid, es[f[j]].kid)
  {
    var f := Firsts(es, same);
    assert FirstOfKind(es, f[i], same) && FirstOfKind(es, f[j], same);
  }

  /** The systems of a kind are those of all its entries. */
  lemma {:induction false} SystemsAre(es: seq<Entry>, kid: Kid, system: System, same: Sameness)
    ensures system in Systems(es, kid, same)
       <==> exists j :: 0 <= j < |es| && same(es[j].kid, kid) && system in es[j].systems
  {
    if es != [] {
      var n := |es| - 1;
      SystemsAre(es[..n], kid, system, same);
      if j :| 0 <= j < n && same(es[..n][j].kid, kid) && system in es[..n][j].systems {
        assert same(es[j].kid, kid) && system in es[j].systems;
      }
      if j :| 0 <= j < n && same(es[j].kid, kid) && system in es[j].systems {
        assert same(es[..n][j].kid, kid) && system in es[..n][j].systems;
      }
    }
  }

  /** What the merged list holds: for every first key of its kind, in order, its id and status, and the systems of
      all keys of its kind. */
  lemma MergedIs(es: seq<Entry>, i: nat, system: System, same: Sameness)
    requires i < |Firsts(es, same)|
    ensures |Merged(es, same)| == |Firsts(es, same)|
    ensures var m, e := Merged(es, same)[i], es[Firsts(es, same)[i]];
            && m.kid == e.kid && m.status == e.status
            && (system in m.systems
                <==> exists j :: 0 <= j < |es| && same(es[j].kid, e.kid) && system in es[j].systems)
  {
    SystemsAre(es, es[Firsts(es, same)[i]].kid, system, same);
  }

  /** A change of a status keeps every id and all systems, and every other status; a new key comes last, with the
      systems that it is given. */
  lemma UpdateKeeps(list: seq<Entry>, status: KeyStatus, e: Entry, same: Sameness, j: nat)
    ensures var after := Update(list, status, e, same);
            if !Has(list, e.kid, same) then after == list + [Entry(e.kid, e.systems, status)]
            else
              && |after| == |list|
              && (j < |list| ==>
                    && after[j].kid == list[j].kid && after[j].systems == list[j].systems
                    && after[j].status == if same(list[j].kid, e.kid)
                                             && (forall k :: 0 <= k < j ==> !same(list[k].kid, e.kid))
                                          then status else list[j].status)
  {
    if i :| 0 <= i < |list| && same(list[i].kid, e.kid) {
      assert Index(list, e.kid, same) <= i;
    }
  }
}
