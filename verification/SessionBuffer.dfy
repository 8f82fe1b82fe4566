/** Threads racing to create the buffer of a session lazily (client/open_cdm_impl.h, OpenCDMSession::Decrypt
    and DecryptSession; plugin/FrameworkRPC.cpp, CreateSessionBuffer), as a step system.

    CreateSessionBuffer is one step, for it runs under a lock. Other sessions may use up the buffer slots of
    the server and free them again at any time. */
module SessionBuffer {
  import Seqs

  /** Where a thread is: before it looks at `_decryptSession`; before CreateSessionBuffer; with each of its three
      results; before it loads the pointer for the decryption; and after that, with the pointer or without,
      from where it starts over. */
  datatype Phase = Start | Asking | Created | Exists | Refused | Loading | Finished(found: bool)

  /** `hasBuffer` is the server's `_buffer`, `pointer` the client's `_decryptSession`, and `slot` whether the
      server has a free slot. `successes` counts the results 0 of CreateSessionBuffer, and `exchanges` the client's
      DataExchange objects. */
  datatype State = State(threads: seq<Phase>, hasBuffer: bool, pointer: bool, slot: bool,
                         successes: nat, exchanges: nat)

  datatype Action = Step(t: nat) | Slots(free: bool)

  function Started(threads: nat, slot: bool): State
  {
    State(seq(threads, i => Start), false, false, slot, 0, 0)
  }

  function Moved(s: State, t: nat, to: Phase): State
    requires t < |s.threads|
  {
    s.(threads := s.threads[t := to])
  }

  function Stepped(s: State, t: nat): State
    requires t < |s.threads|
  {
    match s.threads[t]
    case Start => Moved(s, t, if s.pointer then Loading else Asking)
    case Asking =>
      if s.hasBuffer then Moved(s, t, Exists)
      else if s.slot then Moved(s.(hasBuffer := true, slot := false, successes := s.successes + 1), t, Created)
      else Moved(s, t, Refused)
    case Created => Moved(s.(pointer := true, exchanges := s.exchanges + 1), t, Loading)
    case Exists => if s.pointer then Moved(s, t, Loading) else s
    case Refused => Moved(s, t, Loading)
    case Loading => Moved(s, t, Finished(s.pointer))
    case Finished(_) => Moved(s, t, Start)
  }

  function Next(s: State, a: Action): State
  {
    match a
    case Step(t) => if t < |s.threads| then Stepped(s, t) else s
    case Slots(free) => s.(slot := free)
  }

  function Run(s: State, actions: seq<Action>): State
  {
    if actions == [] then s else Next(Run(s, actions[..|actions| - 1]), actions[|actions| - 1])
  }

  // ----- what every step keeps

  predicate Creator(s: State, t: nat) { t < |s.threads| && s.threads[t].Created? }

  predicate HasCreator(s: State) { exists t :: 0 <= t < |s.threads| && Creator(s, t) }

  /** One success gives one creator, which becomes one published pointer; who spins has a creator in progress
      or a published pointer. */
  predicate Inv(s: State)
  {
    && (forall t, u :: 0 <= t < |s.threads| && 0 <= u < |s.threads| && Creator(s, t) && Creator(s, u) ==> t == u)
    && !(HasCreator(s) && s.pointer)
    && (s.hasBuffer <==> HasCreator(s) || s.pointer)
    && s.successes == (if s.hasBuffer then 1 else 0)
    && s.exchanges == (if s.pointer then 1 else 0)
    && (forall t :: 0 <= t < |s.threads| && s.threads[t].Exists? ==> s.hasBuffer)
    && (forall t :: 0 <= t < |s.threads| && s.threads[t] == Finished(true) ==> s.pointer)
  }

  lemma NextInv(s: State, a: Action)
    requires Inv(s)
    ensures Inv(Next(s, a)) && |Next(s, a).threads| == |s.threads|
  {
    var s' := Next(s, a);
    if a.Slots? {
      forall t ensures Creator(s', t) == Creator(s, t) {
      }
      Same(s, s');
    } else if a.t < |s.threads| {
      var t := a.t;
      forall u | 0 <= u < |s.threads| && u != t ensures Creator(s', u) == Creator(s, u) {
      }
      match s.threads[t]
      case Asking => CreatorIs(s, s', t);
      case Created => CreatorIs(s, s', t);
      case _ => CreatorIs(s, s', t);
    }
  }

  lemma Same(s: State, s': State)
    requires s.threads == s'.threads
    ensures HasCreator(s) == HasCreator(s')
  {
    if HasCreator(s) {
      var t :| 0 <= t < |s.threads| && Creator(s, t);
      assert Creator(s', t);
    }
    if HasCreator(s') {
      var t :| 0 <= t < |s.threads| && Creator(s', t);
      assert Creator(s, t);
    }
  }

  /** A creator is another thread's, or the one that moved. */
  lemma CreatorIs(s: State, s': State, t: nat)
    requires Inv(s) && t < |s.threads| == |s'.threads|
    requires forall u :: 0 <= u < |s.threads| && u != t ==> s'.threads[u] == s.threads[u]
    ensures Creator(s', t) ==> HasCreator(s')
    ensures !Creator(s, t) ==> (HasCreator(s') <==> HasCreator(s) || Creator(s', t))
    ensures Creator(s, t) && !Creator(s', t) ==> !HasCreator(s')
  {
    if !Creator(s, t) && HasCreator(s) {
      var u :| 0 <= u < |s.threads| && Creator(s, u);
      assert Creator(s', u);
    }
    if HasCreator(s') {
      var u :| 0 <= u < |s'.threads| && Creator(s', u);
      assert u != t ==> Creator(s, u);
    }
  }

  lemma {:induction false} RunInv(threads: nat, slot: bool, actions: seq<Action>)
    ensures Inv(Run(Started(threads, slot), actions)) && |Run(Started(threads, slot), actions).threads| == threads
  {
    hide Inv, Next;
    if actions == [] {
      StartedInv(threads, slot);
    } else {
      RunInv(threads, slot, actions[..|actions| - 1]);
      NextInv(Run(Started(threads, slot), actions[..|actions| - 1]), actions[|actions| - 1]);
    }
  }

  lemma StartedInv(threads: nat, slot: bool)
    ensures Inv(Started(threads, slot))
  {
  }

  /** In every interleaving, at most one thread obtains success and at most one DataExchange is constructed; a
      creator finds no pointer, as it asserts; and a thread that spins has a creator in progress, whose next
      step ends the wait, or a published pointer. */
  lemma OneBuffer(threads: nat, slot: bool, actions: seq<Action>)
    ensures var s := Run(Started(threads, slot), actions);
            && |s.threads| == threads && s.exchanges <= s.successes <= 1
            && (forall t :: 0 <= t < threads && Creator(s, t) ==> !s.pointer && Next(s, Step(t)).pointer)
            && (forall t :: 0 <= t < threads && s.threads[t].Exists? ==> s.pointer || HasCreator(s))
            && (forall t :: 0 <= t < threads && s.threads[t] == Finished(true) ==> s.exchanges == 1)
  {
    hide Run;
    RunInv(threads, slot, actions);
  }

  // ----- the assertion of a thread that was refused

  /** The thread asserts that there is no pointer yet. */
  predicate RefusedAsserts(s: State)
  {
    forall t :: 0 <= t < |s.threads| && s.threads[t].Refused? ==> !s.pointer
  }

  /** No slot becomes free. */
  predicate NeverFrees(actions: seq<Action>)
  {
    forall i :: 0 <= i < |actions| ==> actions[i] != Slots(true)
  }

  predicate RefusedInv(s: State)
  {
    forall t :: 0 <= t < |s.threads| && s.threads[t].Refused? ==> !s.hasBuffer && !s.slot
  }

  lemma {:induction false} RefusedKept(threads: nat, slot: bool, actions: seq<Action>)
    requires NeverFrees(actions)
    ensures RefusedInv(Run(Started(threads, slot), actions))
  {
    hide Inv;
    if actions != [] {
      var s := Run(Started(threads, slot), actions[..|actions| - 1]);
      RefusedKept(threads, slot, actions[..|actions| - 1]);
      RunInv(threads, slot, actions[..|actions| - 1]);
      var s' := Next(s, actions[|actions| - 1]);
      forall t | 0 <= t < |s'.threads| && s'.threads[t].Refused? ensures !s'.hasBuffer && !s'.slot {
        if t < |s.threads| && s.threads[t].Refused? {
          assert !s.hasBuffer && !s.slot;
        }
      }
    }
  }

  /** The assertion of a refused thread holds in every run in which no slot becomes free. */
  lemma RefusedHolds(threads: nat, slot: bool, actions: seq<Action>)
    requires NeverFrees(actions)
    ensures RefusedAsserts(Run(Started(threads, slot), actions))
  {
    RunInv(threads, slot, actions);
    RefusedKept(threads, slot, actions);
  }

  /** It fails once a slot becomes free between the refusal of one thread and the request of another. */
  lemma RefusedFails(threads: nat)
    requires 1 < threads
    ensures var actions := [Step(0), Step(0), Slots(true), Step(1), Step(1), Step(1)];
            !RefusedAsserts(Run(Started(threads, false), actions))
  {
    hide Run;
    var actions := [Step(0), Step(0), Slots(true), Step(1), Step(1), Step(1)];
    var s0 := Started(threads, false);
    SixSteps(s0, actions);
    var s1 := Next(s0, Step(0));
    assert s1 == Moved(s0, 0, Asking);
    var s3 := Next(Next(s1, Step(0)), Slots(true));
    assert s3.threads[0] == Refused && s3.threads[1] == Start && !s3.pointer && !s3.hasBuffer && s3.slot;
    var s4 := Next(s3, Step(1));
    assert s4.threads[0] == Refused && s4.threads[1] == Asking && !s4.hasBuffer && s4.slot;
    var s5 := Next(s4, Step(1));
    assert s5.threads[0] == Refused && s5.threads[1] == Created;
    var s6 := Next(s5, Step(1));
    assert s6.pointer && s6.threads[0].Refused?;
  }

  lemma SixSteps(s: State, a: seq<Action>)
    requires |a| == 6
    ensures Run(s, a) == Next(Next(Next(Next(Next(Next(s, a[0]), a[1]), a[2]), a[3]), a[4]), a[5])
  {
    hide Next;
    assert a[..5][..4] == a[..4] && a[..4][..3] == a[..3] && a[..3][..2] == a[..2] && a[..2][..1] == a[..1]
           && a[..1][..0] == [];
    assert Run(s, a[..5]) == Next(Run(s, a[..4]), a[4]);
    assert Run(s, a[..4]) == Next(Run(s, a[..3]), a[3]);
    assert Run(s, a[..3]) == Next(Run(s, a[..2]), a[2]);
    assert Run(s, a[..2]) == Next(Run(s, a[..1]), a[1]);
    assert Run(s, a[..1]) == Next(s, a[0]);
  }

  lemma {:induction false} AloneKept(slot: bool, actions: seq<Action>)
    ensures var s := Run(Started(1, slot), actions);
            |s.threads| == 1 && (s.threads[0].Asking? || s.threads[0].Refused? ==> !s.hasBuffer)
  {
    RunInv(1, slot, actions);
    if actions != [] {
      var s := Run(Started(1, slot), actions[..|actions| - 1]);
      AloneKept(slot, actions[..|actions| - 1]);
      RunInv(1, slot, actions[..|actions| - 1]);
      assert HasCreator(s) ==> Creator(s, 0);
    }
  }

  lemma {:induction false} NobodyFails(actions: seq<Action>, slot: bool)
    ensures Run(Started(0, slot), actions).threads == []
  {
    if actions != [] {
      NobodyFails(actions[..|actions| - 1], slot);
    }
  }

  /** It holds in every run of any slots exactly when at most one thread uses the session. */
  lemma RefusedHoldsIff(threads: nat)
    ensures (forall slot, actions :: RefusedAsserts(Run(Started(threads, slot), actions))) <==> threads <= 1
  {
    hide Run, Next;
    if threads <= 1 {
      forall slot, actions ensures RefusedAsserts(Run(Started(threads, slot), actions)) {
        RunInv(threads, slot, actions);
        if threads == 0 {
          NobodyFails(actions, slot);
        } else {
          AloneKept(slot, actions);
        }
      }
    } else {
      RefusedFails(threads);
    }
  }

  // ----- who gets the buffer

  /** No other session takes or frees a slot. */
  predicate Undisturbed(actions: seq<Action>)
  {
    forall i :: 0 <= i < |actions| ==> actions[i].Step?
  }

  /** With the one slot there is, every answer is the pointer; without it, none is. */
  predicate AnswersInv(s: State, slot: bool)
  {
    && (s.slot <==> slot && !s.hasBuffer) && (s.hasBuffer ==> slot) && (!slot ==> !s.pointer)
    && forall t :: 0 <= t < |s.threads| ==>
         match s.threads[t]
         case Created => slot
         case Exists => slot
         case Refused => !slot
         case Loading => slot ==> s.pointer
         case Finished(found) => found == slot
         case _ => true
  }

  lemma {:induction false} AnswersKept(threads: nat, slot: bool, actions: seq<Action>)
    requires Undisturbed(actions)
    ensures AnswersInv(Run(Started(threads, slot), actions), slot)
  {
    if actions != [] {
      AnswersKept(threads, slot, actions[..|actions| - 1]);
      AnswersStep(Run(Started(threads, slot), actions[..|actions| - 1]), slot, actions[|actions| - 1]);
    }
  }

  lemma AnswersStep(s: State, slot: bool, a: Action)
    requires AnswersInv(s, slot) && a.Step?
    ensures AnswersInv(Next(s, a), slot)
  {
  }

  /** As long as no other session takes or frees a slot: with a free slot at the start no thread ever ends without
      the buffer, and without one no thread ever ends with it. The slot is taken exactly when there is a buffer. */
  lemma FoundIffSlot(threads: nat, slot: bool, actions: seq<Action>, t: nat)
    requires Undisturbed(actions) && t < threads
    ensures var s := Run(Started(threads, slot), actions);
            |s.threads| == threads && s.threads[t] != Finished(!slot) && (s.slot <==> slot && !s.hasBuffer)
  {
    hide Run, Inv;
    RunInv(threads, slot, actions);
    AnswersKept(threads, slot, actions);
  }

  function Steps(t: nat, n: nat): seq<Action> { seq(n, i => Step(t)) }

  lemma StepsUnfold(s: State, t: nat, n: nat)
    ensures Run(s, Steps(t, 0)) == s && Run(s, Steps(t, n + 1)) == Next(Run(s, Steps(t, n)), Step(t))
  {
    assert Steps(t, n + 1)[..n] == Steps(t, n);
  }

  /** How many steps a thread needs for the pointer, once it is published. */
  function Ahead(p: Phase): nat
  {
    match p
    case Finished(found) => if found then 0 else 3
    case Asking => 3
    case Loading => 1
    case _ => 2
  }

  /** From every reachable state with a published pointer, each thread gets it by at most three steps of its own,
      whatever it was told before. */
  lemma GetsPointer(s: State, t: nat)
    requires Inv(s) && s.pointer && t < |s.threads|
    ensures Ahead(s.threads[t]) <= 3
    ensures var s' := Run(s, Steps(t, Ahead(s.threads[t])));
            s' == Moved(s, t, Finished(true))
  {
    hide Run;
    StepsUnfold(s, t, 0);
    StepsUnfold(s, t, 1);
    StepsUnfold(s, t, 2);
    assert Creator(s, t) ==> HasCreator(s);
    var p := s.threads[t];
    assert s.threads[t := p] == s.threads;
    if p.Asking? || p == Finished(false) {
      var q := if p.Asking? then Exists else Start;
      assert s.threads[t := q][t := Loading][t := Finished(true)] == s.threads[t := Finished(true)];
    } else if p.Start? || p.Exists? || p.Refused? {
      assert s.threads[t := Loading][t := Finished(true)] == s.threads[t := Finished(true)];
    }
  }

  /** From every reachable state in which there is a buffer or a free slot, some run of at most nine steps gives a
      thread the buffer: those of a creator in progress, and its own. */
  lemma GetsBuffer(s: State, t: nat) returns (actions: seq<Action>)
    requires Inv(s) && (s.hasBuffer || s.slot) && t < |s.threads|
    ensures |actions| <= 9 && Undisturbed(actions)
    ensures var s' := Run(s, actions);
            |s'.threads| == |s.threads| && s'.pointer && s'.threads[t] == Finished(true)
  {
    hide Run, Inv;
    var first := Publishes(s, t);
    var published := Run(s, first);
    GetsPointer(published, t);
    var rest := Steps(t, Ahead(published.threads[t]));
    actions := first + rest;
    RunJoin(s, first, rest);
  }

  lemma Publishes(s: State, t: nat) returns (actions: seq<Action>)
    requires Inv(s) && (s.hasBuffer || s.slot) && t < |s.threads|
    ensures |actions| <= 6 && Undisturbed(actions)
    ensures var s' := Run(s, actions); |s'.threads| == |s.threads| && s'.pointer && Inv(s')
  {
    hide Run, Inv;
    StepsUnfold(s, t, 0);
    if s.pointer {
      actions := Steps(t, 0);
    } else if HasCreator(s) {
      var u :| 0 <= u < |s.threads| && Creator(s, u);
      StepsUnfold(s, u, 0);
      NextInv(s, Step(u));
      actions := Steps(u, 1);
    } else {
      NoBufferYet(s, t);
      actions := Creates(s, t);
    }
  }

  lemma NoBufferYet(s: State, t: nat)
    requires Inv(s) && !s.pointer && !HasCreator(s) && t < |s.threads|
    ensures !s.hasBuffer && !s.threads[t].Exists? && !s.threads[t].Created? && s.threads[t] != Finished(true)
  {
    assert Creator(s, t) ==> HasCreator(s);
  }

  /** A thread with a free slot and no buffer becomes the creator. */
  lemma Creates(s: State, t: nat) returns (actions: seq<Action>)
    requires Inv(s) && !s.pointer && !s.hasBuffer && s.slot && t < |s.threads|
    requires !s.threads[t].Exists? && !s.threads[t].Created? && s.threads[t] != Finished(true)
    ensures |actions| <= Behind(s.threads[t]) + 2 && Undisturbed(actions)
    ensures var s' := Run(s, actions); |s'.threads| == |s.threads| && s'.pointer && Inv(s')
    decreases Behind(s.threads[t])
  {
    hide Run, Inv;
    var p := s.threads[t];
    var now := Next(s, Step(t));
    NextInv(s, Step(t));
    StepsUnfold(s, t, 0);
    StepsUnfold(s, t, 1);
    if p.Asking? {
      NextInv(now, Step(t));
      actions := Steps(t, 2);
    } else {
      var rest := Creates(now, t);
      actions := Steps(t, 1) + rest;
      RunJoin(s, Steps(t, 1), rest);
    }
  }

  function Behind(p: Phase): nat
  {
    match p
    case Asking => 0
    case Start => 1
    case Finished(_) => 2
    case Loading => 3
    case _ => 4
  }

  lemma {:induction false} RunJoin(s: State, actions: seq<Action>, more: seq<Action>)
    ensures Run(s, actions + more) == Run(Run(s, actions), more)
  {
    hide Next;
    if more == [] {
      Seqs.Nil(actions);
    } else {
      Seqs.Init(actions, more);
      RunJoin(s, actions, more[..|more| - 1]);
    }
  }
}
