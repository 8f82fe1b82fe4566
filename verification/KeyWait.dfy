/** Threads that wait for a key, and threads that announce an update (client/open_cdm.cpp, WaitForKey;
    client/open_cdm_impl.h, KeyUpdate), as a step system.

    `_interested++` is taken as one atomic step. Time and the statuses of the sessions are choices of the
    environment: whether a key was found, whether a wait timed out, whether time is left. */
module KeyWait {
  import opened Options
  import Seqs

  /** WaitForKey: `Checking` and `Counted` hold `_adminLock`, the latter after `_interested++`; `Waiting` is at the
      signal, `Woken` is before the decrement, `Deciding` is at the loop's condition. KeyUpdate, which holds
      `_adminLock` in all its phases: before the test, after SetEvent, after the spin, and after
      ResetEvent. */
  datatype Phase =
    | Outside | Checking | Counted | Waiting | Woken | Deciding
    | Updating | Signalled | Drained | Finishing

  datatype State = State(threads: seq<Phase>, lock: Option<nat>, interested: nat, event: bool)

  /** A thread that is outside or deciding enters WaitForKey or KeyUpdate; any other takes its next step, in
      which `choice` tells what the environment decides. */
  datatype Action = Wait(t: nat) | Update(t: nat) | Advance(t: nat, choice: bool)

  predicate Holds(p: Phase)
  {
    p.Checking? || p.Counted? || p.Updating? || p.Signalled? || p.Drained? || p.Finishing?
  }

  /** Between the increment and the decrement of `_interested`. */
  predicate Registered(p: Phase) { p.Counted? || p.Waiting? || p.Woken? }

  function Started(threads: nat): State
  {
    State(seq(threads, i => Outside), None, 0, false)
  }

  function Moved(s: State, t: nat, to: Phase): State
    requires t < |s.threads|
  {
    s.(threads := s.threads[t := to])
  }

  function Locks(s: State, t: nat, to: Phase): State
    requires t < |s.threads|
  {
    if s.lock.None? then Moved(s.(lock := Some(t)), t, to) else s
  }

  function Unlocks(s: State, t: nat, to: Phase): State
    requires t < |s.threads|
  {
    Moved(s.(lock := None), t, to)
  }

  /** One step; a blocked thread stays where it is. */
  function Advanced(s: State, t: nat, choice: bool): State
    requires t < |s.threads|
  {
    match s.threads[t]
    case Outside => s
    // `choice`: a session has the wanted status.
    case Checking =>
      if choice then Unlocks(s, t, Outside) else Moved(s.(interested := s.interested + 1), t, Counted)
    case Counted => Unlocks(s, t, Waiting)
    // `choice`: the time is over.
    case Waiting => if s.event || choice then Moved(s, t, Woken) else s
    case Woken => Moved(s.(interested := if s.interested > 0 then s.interested - 1 else 0), t, Deciding)
    // `choice`: time is left, so that the loop starts over.
    case Deciding => if choice then Locks(s, t, Checking) else Moved(s, t, Outside)
    case Updating =>
      if s.interested != 0 then Moved(s.(event := true), t, Signalled) else Unlocks(s, t, Outside)
    case Signalled => if s.interested != 0 then s else Moved(s, t, Drained)
    case Drained => Moved(s.(event := false), t, Finishing)
    case Finishing => Unlocks(s, t, Outside)
  }

  function Next(s: State, a: Action): State
  {
    if a.t >= |s.threads| then s
    else
      match a
      case Wait(t) => if s.threads[t].Outside? then Locks(s, t, Checking) else s
      case Update(t) => if s.threads[t].Outside? then Locks(s, t, Updating) else s
      case Advance(t, choice) => Advanced(s, t, choice)
  }

  function Run(s: State, actions: seq<Action>): State
  {
    if actions == [] then s else Next(Run(s, actions[..|actions| - 1]), actions[|actions| - 1])
  }

  // ----- counting the registered threads

  function Count(threads: seq<Phase>): nat
  {
    if threads == [] then 0 else (if Registered(threads[0]) then 1 else 0) + Count(threads[1..])
  }

  lemma {:induction false} CountMoved(threads: seq<Phase>, t: nat, to: Phase)
    requires t < |threads|
    ensures Count(threads[t := to])
         == Count(threads) - (if Registered(threads[t]) then 1 else 0) + if Registered(to) then 1 else 0
  {
    if t == 0 {
      assert threads[t := to][1..] == threads[1..];
    } else {
      CountMoved(threads[1..], t - 1, to);
      assert threads[t := to][1..] == threads[1..][t - 1 := to];
    }
  }

  lemma {:induction false} CountOne(threads: seq<Phase>, t: nat)
    requires t < |threads| && Registered(threads[t])
    ensures 0 < Count(threads)
  {
    if t > 0 {
      CountOne(threads[1..], t - 1);
    }
  }

  lemma {:induction false} CountedThread(threads: seq<Phase>) returns (t: nat)
    requires 0 < Count(threads)
    ensures t < |threads| && Registered(threads[t])
  {
    if Registered(threads[0]) {
      t := 0;
    } else {
      t := CountedThread(threads[1..]);
      t := t + 1;
    }
  }

  // ----- what every step keeps

  /** The lock has the one holder; `_interested` is the number of registered threads; the event is set only
      between SetEvent and ResetEvent of the holder; and once the holder has seen `_interested` at 0, it stays
      so until the lock is dropped. */
  predicate Inv(s: State)
  {
    && (s.lock.Some? ==> s.lock.value < |s.threads| && Holds(s.threads[s.lock.value]))
    && (forall t :: 0 <= t < |s.threads| && Holds(s.threads[t]) ==> s.lock == Some(t))
    && s.interested == Count(s.threads)
    && (s.event <==> s.lock.Some? && (s.threads[s.lock.value].Signalled? || s.threads[s.lock.value].Drained?))
    && (s.lock.Some? && (s.threads[s.lock.value].Drained? || s.threads[s.lock.value].Finishing?) ==> s.interested == 0)
  }

  lemma NextInv(s: State, a: Action)
    requires Inv(s)
    ensures Inv(Next(s, a)) && |Next(s, a).threads| == |s.threads|
  {
    hide Count;
    if a.t < |s.threads| {
      var t := a.t;
      CountMoved(s.threads, t, Next(s, a).threads[t]);
      if Registered(s.threads[t]) {
        CountOne(s.threads, t);
      }
    }
  }

  lemma {:induction false} RunInv(threads: nat, actions: seq<Action>)
    ensures Inv(Run(Started(threads), actions)) && |Run(Started(threads), actions).threads| == threads
  {
    hide Inv, Next;
    if actions == [] {
      StartedInv(threads);
    } else {
      RunInv(threads, actions[..|actions| - 1]);
      NextInv(Run(Started(threads), actions[..|actions| - 1]), actions[|actions| - 1]);
    }
  }

  lemma StartedInv(threads: nat)
    ensures Inv(Started(threads))
  {
    NoneRegistered(Started(threads).threads);
  }

  lemma {:induction false} NoneRegistered(threads: seq<Phase>)
    requires forall t :: 0 <= t < |threads| ==> threads[t].Outside?
    ensures Count(threads) == 0
  {
    if threads != [] {
      NoneRegistered(threads[1..]);
    }
  }

  predicate InUpdate(p: Phase) { p.Updating? || p.Signalled? || p.Drained? || p.Finishing? }

  /** In every interleaving: `_interested` is the number of registered threads; while KeyUpdate holds the lock
      no step registers a thread; and when it drops the lock, no thread is registered and the event is
      reset. */
  lemma UpdateProtocol(threads: nat, actions: seq<Action>, u: nat, a: Action)
    requires u < threads
    ensures var s := Run(Started(threads), actions);
            && |s.threads| == threads && s.interested == Count(s.threads)
            && (InUpdate(s.threads[u]) ==>
                  var s' := Next(s, a);
                  && |s'.threads| == threads
                  && (forall t :: 0 <= t < threads && Registered(s'.threads[t]) ==> Registered(s.threads[t]))
                  && (!InUpdate(s'.threads[u]) ==>
                        !s'.event && s'.lock.None?
                        && forall t :: 0 <= t < threads ==> !Registered(s'.threads[t])))
  {
    hide Run, Count;
    var s := Run(Started(threads), actions);
    RunInv(threads, actions);
    if InUpdate(s.threads[u]) {
      var s' := Next(s, a);
      NextInv(s, a);
      if !InUpdate(s'.threads[u]) {
        forall t | 0 <= t < threads ensures !Registered(s'.threads[t]) {
          if Registered(s'.threads[t]) {
            CountOne(s'.threads, t);
          }
        }
      }
    }
  }

  // ----- draining

  /** While KeyUpdate spins, every registered thread leaves by its own steps, without the lock. */
  lemma Leaves(s: State, t: nat, choice: bool)
    requires Inv(s) && s.lock.Some? && s.threads[s.lock.value].Signalled?
    requires t < |s.threads| && Registered(s.threads[t])
    ensures s.threads[t].Waiting? || s.threads[t].Woken?
    ensures s.threads[t].Waiting? ==> Next(s, Advance(t, choice)) == Moved(s, t, Woken)
    ensures s.interested > 0
    ensures s.threads[t].Woken? ==>
              Next(s, Advance(t, choice)) == Moved(s.(interested := s.interested - 1), t, Deciding)
  {
    CountOne(s.threads, t);
  }

  function WorkOf(p: Phase): nat { if p.Waiting? then 2 else if p.Woken? then 1 else 0 }

  /** The steps that are left for the registered threads. */
  function Work(threads: seq<Phase>): nat
  {
    if threads == [] then 0 else WorkOf(threads[0]) + Work(threads[1..])
  }

  lemma {:induction false} WorkChanges(threads: seq<Phase>, t: nat, to: Phase)
    requires t < |threads|
    ensures Work(threads[t := to]) == Work(threads) - WorkOf(threads[t]) + WorkOf(to)
  {
    if t == 0 {
      assert threads[t := to][1..] == threads[1..];
    } else {
      WorkChanges(threads[1..], t - 1, to);
      assert threads[t := to][1..] == threads[1..][t - 1 := to];
    }
  }

  /** No more than two steps for each of them. */
  lemma {:induction false} WorkBounded(threads: seq<Phase>)
    ensures Work(threads) <= 2 * Count(threads)
  {
    if threads != [] {
      WorkBounded(threads[1..]);
    }
  }

  /** While KeyUpdate spins, no step of any thread raises the work that is left, and every step of a registered
      thread lowers it by one; when none is left, `_interested` is 0 and the spin is over. */
  lemma WorkNeverRises(s: State, a: Action)
    requires Inv(s) && s.lock.Some? && s.threads[s.lock.value].Signalled?
    ensures Work(Next(s, a).threads) <= Work(s.threads)
    ensures a.Advance? && a.t < |s.threads| && Registered(s.threads[a.t]) ==>
              Work(Next(s, a).threads) == Work(s.threads) - 1
    ensures Work(s.threads) == 0 ==> s.interested == 0
  {
    hide Count, Work;
    if a.t < |s.threads| {
      WorkChanges(s.threads, a.t, Next(s, a).threads[a.t]);
      assert Next(s, a).threads == s.threads[a.t := Next(s, a).threads[a.t]];
      if a.Advance? && Registered(s.threads[a.t]) {
        Leaves(s, a.t, a.choice);
      }
    }
    if Work(s.threads) == 0 && s.interested != 0 {
      var t := CountedThread(s.threads);
      Leaves(s, t, false);
      WorkChanges(s.threads, t, Outside);
    }
  }

  /** The spin ends: from every state in which KeyUpdate spins, the registered threads alone reach one in which
      `_interested` is 0, in no more than two steps each. */
  lemma {:induction false} Drains(s: State) returns (actions: seq<Action>)
    requires Inv(s) && s.lock.Some? && s.threads[s.lock.value].Signalled?
    ensures var s' := Run(s, actions);
            && s'.interested == 0 && s'.lock == s.lock && |s'.threads| == |s.threads|
            && s'.threads[s.lock.value].Signalled? && Inv(s')
            && forall t :: 0 <= t < |s.threads| ==>
                 s'.threads[t] == if Registered(s.threads[t]) then Deciding else s.threads[t]
    ensures |actions| <= Work(s.threads)
    decreases Work(s.threads)
  {
    hide Count, Work;
    actions := [];
    if s.interested == 0 {
      forall t | 0 <= t < |s.threads| ensures !Registered(s.threads[t]) {
        if Registered(s.threads[t]) {
          CountOne(s.threads, t);
        }
      }
    } else {
      var t := CountedThread(s.threads);
      var a := Advance(t, false);
      Leaves(s, t, false);
      WorkChanges(s.threads, t, if s.threads[t].Waiting? then Woken else Deciding);
      NextInv(s, a);
      var rest := Drains(Next(s, a));
      actions := [a] + rest;
      RunJoin(s, [a], rest);
      assert [a][..0] == [];
    }
  }

  lemma {:induction false} RunJoin(s: State, actions: seq<Action>, more: seq<Action>)
    ensures Run(s, actions + more) == Run(Run(s, actions), more)
  {
    hide Next;
    if more == [] {
      Seqs.Nil(actions);
    } else {
      Seqs.Init(actions, more);
      RunJoin(s, actions, more[..|more| - 1]);
    }
  }

  // ----- one thread in WaitForKey

  predicate At(s: State, t: nat, p: Phase) { t < |s.threads| && s.threads[t] == p }

  /** In every run: a thread that finds its key leaves at once; one that does not is registered by its own next
      step, and waits after the one behind it, with the lock dropped. */
  lemma Registers(threads: nat, actions: seq<Action>, t: nat, choice: bool)
    requires t < threads && At(Run(Started(threads), actions), t, Checking)
    ensures var s := Run(Started(threads), actions);
            var found, missed := Next(s, Advance(t, true)), Next(s, Advance(t, false));
            && found.threads[t].Outside? && found.lock.None? && found.interested == s.interested
            && Registered(missed.threads[t]) && missed.interested == s.interested + 1
            && var waiting := Next(missed, Advance(t, choice));
            waiting.threads[t].Waiting? && waiting.lock.None? && waiting.interested == s.interested + 1
  {
    hide Run;
    RunInv(threads, actions);
  }

  /** In step `i` of the run, thread `t` stops waiting, for the event is set or its time is over. */
  predicate StopsWaiting(s: State, actions: seq<Action>, i: nat, t: nat)
    requires i < |actions|
  {
    var now := Run(s, actions[..i]);
    && t < |now.threads| && now.threads[t].Waiting? && actions[i].Advance? && actions[i].t == t
    && (now.event || actions[i].choice)
  }

  /** How a step can end the wait, and WaitForKey. */
  lemma WaitStep(s: State, a: Action, t: nat)
    requires t < |s.threads|
    ensures var s' := Next(s, a);
            && |s'.threads| == |s.threads|
            && (s.threads[t].Counted? || s.threads[t].Waiting? ==>
                  || s'.threads[t].Counted? || s'.threads[t].Waiting?
                  || (s.threads[t].Waiting? && a.Advance? && a.t == t && (s.event || a.choice)))
            && (InWait(s.threads[t]) ==>
                  || InWait(s'.threads[t]) || (s.threads[t].Checking? && a == Advance(t, true))
                  || (s.threads[t].Deciding? && a == Advance(t, false)))
  {
  }

  predicate InWait(p: Phase) { p.Checking? || p.Counted? || p.Waiting? || p.Woken? || p.Deciding? }

  /** A thread that waits stays registered until the event is set or its time is over. */
  lemma {:induction false} StaysRegistered(s: State, actions: seq<Action>, t: nat)
    requires t < |s.threads| && (s.threads[t].Counted? || s.threads[t].Waiting?)
    ensures var s' := Run(s, actions);
            && |s'.threads| == |s.threads|
            && (s'.threads[t].Counted? || s'.threads[t].Waiting?
                || exists i :: 0 <= i < |actions| && StopsWaiting(s, actions, i, t))
  {
    hide Next;
    if actions != [] {
      var n := |actions| - 1;
      StaysRegistered(s, actions[..n], t);
      WaitStep(Run(s, actions[..n]), actions[n], t);
      if i :| 0 <= i < n && StopsWaiting(s, actions[..n], i, t) {
        assert actions[..n][..i] == actions[..i];
        assert StopsWaiting(s, actions, i, t);
      } else if !Run(s, actions).threads[t].Counted? && !Run(s, actions).threads[t].Waiting? {
        assert StopsWaiting(s, actions, n, t);
      }
    }
  }

  /** In step `i` of the run, thread `t` finds its key, or sees that its time is over. */
  predicate Gives(s: State, actions: seq<Action>, i: nat, t: nat)
    requires i < |actions|
  {
    var now := Run(s, actions[..i]);
    && t < |now.threads|
    && ((now.threads[t].Checking? && actions[i] == Advance(t, true))
        || (now.threads[t].Deciding? && actions[i] == Advance(t, false)))
  }

  /** A thread in WaitForKey is there until it has found its key or its time is over. */
  lemma {:induction false} LeavesOnly(s: State, actions: seq<Action>, t: nat)
    requires t < |s.threads| && InWait(s.threads[t])
    ensures var s' := Run(s, actions);
            && |s'.threads| == |s.threads|
            && (InWait(s'.threads[t]) || exists i :: 0 <= i < |actions| && Gives(s, actions, i, t))
  {
    hide Next, InWait;
    if actions != [] {
      var n := |actions| - 1;
      LeavesOnly(s, actions[..n], t);
      WaitStep(Run(s, actions[..n]), actions[n], t);
      if i :| 0 <= i < n && Gives(s, actions[..n], i, t) {
        assert actions[..n][..i] == actions[..i];
        assert Gives(s, actions, i, t);
      } else if !InWait(Run(s, actions).threads[t]) {
        assert Gives(s, actions, n, t);
      }
    }
  }

  /** A waiter whose time is over leaves by its own steps, without any KeyUpdate and without the lock. */
  lemma LeavesAlone(s: State, t: nat, choice: bool)
    requires Inv(s) && t < |s.threads| && s.threads[t].Waiting?
    ensures s.interested > 0
    ensures Run(s, [Advance(t, true), Advance(t, choice), Advance(t, false)])
         == Moved(s.(interested := s.interested - 1), t, Outside)
  {
    CountOne(s.threads, t);
    var actions := [Advance(t, true), Advance(t, choice), Advance(t, false)];
    ThreeSteps(s, actions);
    assert s.threads[t := Woken][t := Deciding][t := Outside] == s.threads[t := Outside];
  }

  lemma ThreeSteps(s: State, a: seq<Action>)
    requires |a| == 3
    ensures Run(s, a) == Next(Next(Next(s, a[0]), a[1]), a[2])
  {
    hide Next;
    TwoSteps(s, a[..2]);
  }

  lemma TwoSteps(s: State, a: seq<Action>)
    requires |a| == 2
    ensures Run(s, a) == Next(Next(s, a[0]), a[1])
  {
    hide Next;
    assert a[..1][..0] == [];
    assert Run(s, a[..1]) == Next(s, a[0]);
  }

  /** Another thread that calls KeyUpdate makes a waiter look at the keys again, as long as it has time left. */
  lemma ChecksAgain(s: State, t: nat, u: nat) returns (actions: seq<Action>)
    requires Inv(s) && s.lock.None?
    requires t < |s.threads| && u < |s.threads| && s.threads[t].Waiting? && s.threads[u].Outside?
    ensures var s' := Run(s, actions);
            && |s'.threads| == |s.threads| && s'.threads[t].Checking? && s'.lock == Some(t)
            && s'.threads[u].Outside? && !s'.event
  {
    hide Run;
    CountOne(s.threads, t);
    var begin := [Update(u), Advance(u, false)];
    TwoSteps(s, begin);
    NextInv(s, Update(u));
    NextInv(Next(s, Update(u)), Advance(u, false));
    var signalled := Run(s, begin);
    assert signalled.threads[u].Signalled? && signalled.threads[t].Waiting? && signalled.lock == Some(u);
    var drain := Drains(signalled);
    var drained := Run(signalled, drain);
    assert drained.threads[t].Deciding? && drained.threads[u].Signalled? && drained.interested == 0;
    var end := [Advance(u, false), Advance(u, false), Advance(u, false)];
    ThreeSteps(drained, end);
    var free := Run(drained, end);
    assert free.threads[t].Deciding? && free.lock.None? && free.threads[u].Outside? && !free.event;
    RunOne(free, Advance(t, true));
    actions := ((begin + drain) + end) + [Advance(t, true)];
    RunJoin(s, (begin + drain) + end, [Advance(t, true)]);
    RunJoin(s, begin + drain, end);
    RunJoin(s, begin, drain);
  }

  lemma RunOne(s: State, a: Action)
    ensures Run(s, [a]) == Next(s, a)
  {
    hide Next;
    assert [a][..0] == [];
  }

  /** A thread that finds no key waits, and is woken by the next update: such a run exists for every two threads,
      from every reachable state in which both are outside and the lock is free. */
  lemma WaitsAndWakes(threads: nat, before: seq<Action>, t: nat, u: nat)
    returns (enter: seq<Action>, again: seq<Action>)
    requires t != u && Run(Started(threads), before).lock.None?
    requires At(Run(Started(threads), before), t, Outside) && At(Run(Started(threads), before), u, Outside)
    ensures At(Run(Started(threads), before + enter), t, Waiting)
    ensures var s := Run(Started(threads), (before + enter) + again); At(s, t, Checking) && At(s, u, Outside)
  {
    hide Run;
    var s := Run(Started(threads), before);
    RunInv(threads, before);
    enter := [Wait(t), Advance(t, false), Advance(t, false)];
    ThreeSteps(s, enter);
    var waiting := Run(s, enter);
    NextInv(s, Wait(t));
    NextInv(Next(s, Wait(t)), Advance(t, false));
    NextInv(Next(Next(s, Wait(t)), Advance(t, false)), Advance(t, false));
    again := ChecksAgain(waiting, t, u);
    RunJoin(Started(threads), before, enter);
    RunJoin(Started(threads), before + enter, again);
  }
}
