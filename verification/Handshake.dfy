/** The decrypt handshake between client threads and the server's worker on one shared buffer
    (client/open_cdm_impl.h, DataExchange::Decrypt and DecryptMulti; plugin/FrameworkRPC.cpp,
    DataExchange::Worker), as a step system.

    The buffer's semaphores come from elsewhere: RequestProduce and RequestConsume take one token from
    `producer` and `consumer`, Consumed and Produced put one there; a fresh buffer has its token in
    `producer`. Requests never time out and the worker is not stopped. */
module Handshake {
  import opened Bytes
  import opened Options
  import Seqs

  type Value = seq<byte>

  /** The fields of the administration space, and the payload. */
  datatype Name = IV | KEYID | SUBSAMPLE | ENCSCHEME | ENCPATTERN | INITWITHLAST15 | PROPERTIES | PAYLOAD

  type Fields = map<Name, Value>

  /** A field that was never written is empty. */
  function Field(fields: Fields, name: Name): Value { if name in fields then fields[name] else [] }

  datatype Shared = Shared(fields: Fields, samples: map<nat, Value>, sampleLength: nat, status: int)

  /** `DecryptMulti` with no samples is a request with an empty list. Absent properties are not written. */
  datatype Request =
    | Single(iv: Value, keyId: Value, subSample: Value, scheme: Value, pattern: Value, last15: Value,
             properties: Option<Value>, payload: Value)
    | Multi(keyId: Value, scheme: Value, pattern: Value, samples: seq<Value>, properties: Option<Value>, payload: Value)

  // ----- writing a request, field by field

  datatype Write = Put(name: Name, value: Value) | SampleLength(n: nat) | PutSample(i: nat, value: Value)

  function Written(shared: Shared, w: Write): Shared
  {
    match w
    case Put(name, value) => shared.(fields := shared.fields[name := value])
    case SampleLength(n) => shared.(sampleLength := n)
    case PutSample(i, value) => shared.(samples := shared.samples[i := value])
  }

  function AllWritten(shared: Shared, ws: seq<Write>): Shared
  {
    if ws == [] then shared else Written(AllWritten(shared, ws[..|ws| - 1]), ws[|ws| - 1])
  }

  function Properties(r: Request): seq<Write>
  {
    if r.properties.Some? then [Put(PROPERTIES, r.properties.value)] else []
  }

  function PutSamples(samples: seq<Value>): seq<Write>
  {
    seq(|samples|, i requires 0 <= i < |samples| => PutSample(i, samples[i]))
  }

  /** The writes between RequestProduce and Produced, in order. */
  function Script(r: Request): seq<Write>
  {
    match r
    case Single(iv, keyId, subSample, scheme, pattern, last15, _, payload) =>
      [Put(IV, iv), Put(KEYID, keyId), Put(SUBSAMPLE, subSample), Put(ENCSCHEME, scheme), Put(ENCPATTERN, pattern),
       Put(INITWITHLAST15, last15)] + Properties(r) + [Put(PAYLOAD, payload)]
    case Multi(_, _, _, _, _, payload) => SampleWrites(r) + Properties(r) + [Put(PAYLOAD, payload)]
  }

  function SampleWrites(r: Request): seq<Write>
    requires r.Multi?
  {
    if r.samples == [] then []
    else
      [Put(KEYID, r.keyId), Put(ENCSCHEME, r.scheme), Put(ENCPATTERN, r.pattern), Put(SUBSAMPLE, []),
       SampleLength(|r.samples|)] + PutSamples(r.samples)
  }

  // ----- the worker's decryption

  /** What the worker reads. It takes the multi-sample branch when there are samples. */
  datatype View = View(fields: Fields, samples: seq<Value>)

  function SampleAt(shared: Shared, i: nat): Value { if i in shared.samples then shared.samples[i] else [] }

  function ViewOf(shared: Shared): View
  {
    View(shared.fields, seq(shared.sampleLength, i requires 0 <= i < shared.sampleLength => SampleAt(shared, i)))
  }

  datatype Result = Result(status: int, payload: Value)

  /** The CDM's answer may depend on everything that it has seen before. */
  type Cdm = (seq<View>, View) -> Result

  datatype Done = Done(view: View, result: Result)

  function Views(history: seq<Done>): seq<View>
  {
    seq(|history|, i requires 0 <= i < |history| => history[i].view)
  }

  // ----- the step system

  datatype Phase =
    | Outside
    | Locked(req: Request)
    | Writing(req: Request, done: nat)
    | Waiting(req: Request)
    | Reading(req: Request)
    | ReadData(req: Request, data: Value)
    | Answered(req: Request, response: Result)
    | Leaving(req: Request, response: Result)
    | Unlocking(req: Request, response: Result)

  datatype Worker =
    | Idle
    | Took
    | Chosen(multi: bool)
    | Called(result: Result)
    | Stated(result: Result)

  /** `locks` maps a process whose `_systemLock` is held to the thread that holds it. `order` lists the
      requests as they obtained a lock, `history` what the CDM was called with, `answers` what came back. */
  datatype State = State(threads: seq<Phase>, locks: map<nat, nat>, producer: nat, consumer: nat, shared: Shared,
                         worker: Worker, order: seq<(nat, Request)>, history: seq<Done>,
                         answers: seq<(nat, Request, Result)>)

  datatype Action = Enter(t: nat, req: Request) | Advance(t: nat) | Work

  /** The process that a thread belongs to. */
  type Home = nat -> nat

  function Started(threads: nat, shared: Shared): State
  {
    State(seq(threads, i => Outside), map[], 1, 0, shared, Idle, [], [], [])
  }

  function Move(s: State, t: nat, to: Phase): State
    requires t < |s.threads|
  {
    s.(threads := s.threads[t := to])
  }

  /** One step of a thread inside Decrypt or DecryptMulti; a blocked thread stays where it is. */
  function Advanced(s: State, t: nat, home: Home): State
    requires t < |s.threads|
  {
    match s.threads[t]
    case Outside => s
    case Locked(req) => if s.producer == 0 then s else Move(s.(producer := s.producer - 1), t, Writing(req, 0))
    case Writing(req, done) =>
      if done < |Script(req)| then Move(s.(shared := Written(s.shared, Script(req)[done])), t, Writing(req, done + 1))
      else Move(s.(consumer := s.consumer + 1), t, Waiting(req))
    case Waiting(req) => if s.producer == 0 then s else Move(s.(producer := s.producer - 1), t, Reading(req))
    case Reading(req) => Move(s, t, ReadData(req, Field(s.shared.fields, PAYLOAD)))
    case ReadData(req, data) => Move(s, t, Answered(req, Result(s.shared.status, data)))
    case Answered(req, response) => Move(s.(producer := s.producer + 1), t, Leaving(req, response))
    case Leaving(req, response) =>
      Move(if req.Multi? then s.(shared := Written(s.shared, SampleLength(0))) else s, t, Unlocking(req, response))
    case Unlocking(req, response) =>
      Move(s.(locks := s.locks - {home(t)}, answers := s.answers + [(t, req, response)]), t, Outside)
  }

  /** One step of the worker's loop. */
  function Worked(s: State, cdm: Cdm): State
  {
    match s.worker
    case Idle => if s.consumer == 0 then s else s.(consumer := s.consumer - 1, worker := Took)
    case Took => s.(worker := Chosen(s.shared.sampleLength > 0))
    case Chosen(multi) =>
      var view := if multi then ViewOf(s.shared) else View(s.shared.fields, []);
      var result := cdm(Views(s.history), view);
      s.(worker := Called(result), shared := Written(s.shared, Put(PAYLOAD, result.payload)),
         history := s.history + [Done(view, result)])
    case Called(result) => s.(worker := Stated(result), shared := s.shared.(status := result.status))
    case Stated(_) => s.(worker := Idle, producer := s.producer + 1)
  }

  function Next(s: State, a: Action, home: Home, cdm: Cdm): State
  {
    match a
    case Enter(t, req) =>
      if t < |s.threads| && s.threads[t].Outside? && home(t) !in s.locks
      then Move(s.(locks := s.locks[home(t) := t], order := s.order + [(t, req)]), t, Locked(req))
      else s
    case Advance(t) => if t < |s.threads| then Advanced(s, t, home) else s
    case Work => Worked(s, cdm)
  }

  function Run(s: State, actions: seq<Action>, home: Home, cdm: Cdm): State
  {
    if actions == [] then s
    else Next(Run(s, actions[..|actions| - 1], home, cdm), actions[|actions| - 1], home, cdm)
  }

  // ----- one request after the other

  /** The buffer between requests, what the CDM has seen, and what was answered. */
  datatype Shop = Shop(shared: Shared, history: seq<Done>, answers: seq<(nat, Request, Result)>)

  function Filled(shop: Shop, req: Request): Shared { AllWritten(shop.shared, Script(req)) }

  function ResultOf(shop: Shop, req: Request, cdm: Cdm): Result
  {
    cdm(Views(shop.history), ViewOf(Filled(shop, req)))
  }

  function HistoryOf(shop: Shop, req: Request, cdm: Cdm): seq<Done>
  {
    shop.history + [Done(ViewOf(Filled(shop, req)), ResultOf(shop, req, cdm))]
  }

  function Decrypted(shop: Shop, req: Request, cdm: Cdm): Shared
  {
    Written(Filled(shop, req), Put(PAYLOAD, ResultOf(shop, req, cdm).payload))
  }

  function Stamped(shop: Shop, req: Request, cdm: Cdm): Shared
  {
    Decrypted(shop, req, cdm).(status := ResultOf(shop, req, cdm).status)
  }

  function Cleared(shop: Shop, req: Request, cdm: Cdm): Shared
  {
    if req.Multi? then Written(Stamped(shop, req, cdm), SampleLength(0)) else Stamped(shop, req, cdm)
  }

  /** Serving one request alone: the CDM sees the request's own fields, and its answer goes back. */
  function Serve(shop: Shop, t: nat, req: Request, cdm: Cdm): Shop
  {
    Shop(Cleared(shop, req, cdm), HistoryOf(shop, req, cdm), shop.answers + [(t, req, ResultOf(shop, req, cdm))])
  }

  function ServeAll(shared: Shared, order: seq<(nat, Request)>, cdm: Cdm): Shop
  {
    if order == [] then Shop(shared, [], [])
    else
      var last := order[|order| - 1];
      Serve(ServeAll(shared, order[..|order| - 1], cdm), last.0, last.1, cdm)
  }

  // ----- what every step keeps, with all threads in one process

  predicate OneProcess(home: Home, threads: nat)
  {
    forall t :: 0 <= t < threads ==> home(t) == home(0)
  }

  predicate Token(s: State, producer: nat, consumer: nat) { s.producer == producer && s.consumer == consumer }

  /** The request is decrypted, and its status is stored. */
  predicate Finished(s: State, base: Shop, req: Request, cdm: Cdm)
  {
    s.worker.Idle? && s.shared == Stamped(base, req, cdm) && s.history == HistoryOf(base, req, cdm)
  }

  predicate Untouched(s: State, base: Shop) { s.worker.Idle? && s.history == base.history }

  /** The worker on a request that was produced. */
  predicate Serving(s: State, base: Shop, req: Request, cdm: Cdm)
  {
    match s.worker
    case Idle =>
      || (Token(s, 0, 1) && s.shared == Filled(base, req) && s.history == base.history)
      || (Token(s, 1, 0) && Finished(s, base, req, cdm))
    case Took => Token(s, 0, 0) && s.shared == Filled(base, req) && s.history == base.history
    case Chosen(multi) =>
      && Token(s, 0, 0) && s.shared == Filled(base, req) && s.history == base.history
      && multi == (s.shared.sampleLength > 0)
    case Called(result) =>
      && Token(s, 0, 0) && result == ResultOf(base, req, cdm)
      && s.shared == Decrypted(base, req, cdm) && s.history == HistoryOf(base, req, cdm)
    case Stated(_) =>
      Token(s, 0, 0) && s.shared == Stamped(base, req, cdm) && s.history == HistoryOf(base, req, cdm)
  }

  /** The thread that holds the lock, from the state that the requests before it left. */
  predicate Holding(s: State, phase: Phase, base: Shop, cdm: Cdm)
  {
    match phase
    case Outside => false
    case Locked(_) => Token(s, 1, 0) && Untouched(s, base) && s.shared == base.shared
    case Writing(req, done) =>
      && Token(s, 0, 0) && Untouched(s, base) && done <= |Script(req)|
      && s.shared == AllWritten(base.shared, Script(req)[..done])
    case Waiting(req) => Serving(s, base, req, cdm)
    case Reading(req) => Token(s, 0, 0) && Finished(s, base, req, cdm)
    case ReadData(req, data) =>
      Token(s, 0, 0) && Finished(s, base, req, cdm) && data == ResultOf(base, req, cdm).payload
    case Answered(req, response) =>
      Token(s, 0, 0) && Finished(s, base, req, cdm) && response == ResultOf(base, req, cdm)
    case Leaving(req, response) =>
      Token(s, 1, 0) && Finished(s, base, req, cdm) && response == ResultOf(base, req, cdm)
    case Unlocking(req, response) =>
      && Token(s, 1, 0) && s.worker.Idle? && s.shared == Cleared(base, req, cdm)
      && s.history == HistoryOf(base, req, cdm) && response == ResultOf(base, req, cdm)
  }

  /** Without a holder of the lock, the buffer is as if all requests had been served one after the other; a
      holder is somewhere on the way of serving the last of them, and every other thread is outside. */
  predicate Inv(s: State, home: Home, init: Shared, cdm: Cdm)
  {
    if s.locks == map[] then
      && (forall t :: 0 <= t < |s.threads| ==> s.threads[t].Outside?)
      && Token(s, 1, 0) && s.worker.Idle?
      && Shop(s.shared, s.history, s.answers) == ServeAll(init, s.order, cdm)
    else
      && s.locks.Keys == {home(0)} && s.locks[home(0)] < |s.threads|
      && (forall t :: 0 <= t < |s.threads| && t != s.locks[home(0)] ==> s.threads[t].Outside?)
      && HolderInv(s, s.locks[home(0)], init, cdm)
  }

  predicate HolderInv(s: State, t: nat, init: Shared, cdm: Cdm)
    requires t < |s.threads|
  {
    var n := |s.order| - 1;
    && 0 <= n && !s.threads[t].Outside? && s.order[n] == (t, s.threads[t].req)
    && s.answers == ServeAll(init, s.order[..n], cdm).answers
    && Holding(s, s.threads[t], ServeAll(init, s.order[..n], cdm), cdm)
  }

  lemma EnterInv(s: State, t: nat, req: Request, home: Home, init: Shared, cdm: Cdm)
    requires Inv(s, home, init, cdm) && OneProcess(home, |s.threads|)
    ensures Inv(Next(s, Enter(t, req), home, cdm), home, init, cdm)
  {
    hide ServeAll;
    assert (s.order + [(t, req)])[..|s.order|] == s.order;
  }

  lemma AdvanceInv(s: State, t: nat, home: Home, init: Shared, cdm: Cdm)
    requires Inv(s, home, init, cdm) && OneProcess(home, |s.threads|)
    ensures Inv(Next(s, Advance(t), home, cdm), home, init, cdm)
  {
    hide ServeAll, Holding, Advanced;
    if s.locks == map[] || t >= |s.threads| || t != s.locks[home(0)] {
      OutsideStays(s, t, home);
    } else {
      var base := ServeAll(init, s.order[..|s.order| - 1], cdm);
      if s.threads[t].Unlocking? {
        Unlocks(s, t, home, init, cdm);
      } else {
        HolderAdvances(s, t, home, base, cdm);
      }
    }
  }

  lemma OutsideStays(s: State, t: nat, home: Home)
    requires t < |s.threads| ==> s.threads[t].Outside?
    ensures t < |s.threads| ==> Advanced(s, t, home) == s
  {
  }

  lemma HolderAdvances(s: State, t: nat, home: Home, base: Shop, cdm: Cdm)
    requires t < |s.threads| && Holding(s, s.threads[t], base, cdm) && !s.threads[t].Unlocking?
    ensures var s' := Advanced(s, t, home);
            && |s'.threads| == |s.threads| && s'.locks == s.locks && s'.order == s.order && s'.answers == s.answers
            && (forall u :: 0 <= u < |s.threads| && u != t ==> s'.threads[u] == s.threads[u])
            && !s'.threads[t].Outside? && s'.threads[t].req == s.threads[t].req
            && Holding(s', s'.threads[t], base, cdm)
  {
    hide AllWritten, Script, Written, ResultOf, HistoryOf, Stamped;
    match s.threads[t]
    case Locked(req) => NothingWritten(base.shared, Script(req));
    case Writing(req, done) =>
      if done < |Script(req)| {
        WritesNext(base.shared, Script(req), done);
      } else {
        assert Script(req)[..done] == Script(req);
      }
    case Reading(req) => StampedFields(base, req, cdm);
    case ReadData(req, _) => StampedFields(base, req, cdm);
    case _ =>
  }

  lemma NothingWritten(shared: Shared, ws: seq<Write>)
    ensures AllWritten(shared, ws[..0]) == shared
  {
  }

  lemma WritesNext(shared: Shared, ws: seq<Write>, k: nat)
    requires k < |ws|
    ensures AllWritten(shared, ws[..k + 1]) == Written(AllWritten(shared, ws[..k]), ws[k])
  {
    assert ws[..k + 1][..k] == ws[..k];
  }

  lemma StampedFields(shop: Shop, req: Request, cdm: Cdm)
    ensures Field(Stamped(shop, req, cdm).fields, PAYLOAD) == ResultOf(shop, req, cdm).payload
    ensures Stamped(shop, req, cdm).status == ResultOf(shop, req, cdm).status
  {
  }

  lemma Unlocks(s: State, t: nat, home: Home, init: Shared, cdm: Cdm)
    requires Inv(s, home, init, cdm) && OneProcess(home, |s.threads|) && s.locks != map[]
    requires t == s.locks[home(0)] && s.threads[t].Unlocking?
    ensures Inv(Advanced(s, t, home), home, init, cdm)
  {
    hide AllWritten, Script, Written, ResultOf, HistoryOf, Cleared;
    assert s.locks - {home(0)} == map[];
  }

  lemma WorkInv(s: State, home: Home, init: Shared, cdm: Cdm)
    requires Inv(s, home, init, cdm) && OneProcess(home, |s.threads|)
    ensures Inv(Next(s, Work, home, cdm), home, init, cdm)
  {
    hide ServeAll, Holding, Worked;
    if s.locks == map[] {
      Sleeps(s, cdm);
    } else {
      WorkerAdvances(s, s.threads[s.locks[home(0)]], ServeAll(init, s.order[..|s.order| - 1], cdm), cdm);
    }
  }

  lemma Sleeps(s: State, cdm: Cdm)
    requires s.worker.Idle? && s.consumer == 0
    ensures Worked(s, cdm) == s
  {
  }

  lemma WorkerAdvances(s: State, phase: Phase, base: Shop, cdm: Cdm)
    requires Holding(s, phase, base, cdm)
    ensures var s' := Worked(s, cdm);
            && s'.threads == s.threads && s'.locks == s.locks && s'.order == s.order && s'.answers == s.answers
            && Holding(s', phase, base, cdm)
  {
    hide AllWritten, Script, Written, Filled;
    if s.worker.Chosen? && !s.worker.multi {
      assert ViewOf(s.shared) == View(s.shared.fields, []);
    }
  }

  /** Every run of any number of threads of one process keeps the invariant. */
  lemma {:induction false} RunInv(threads: nat, init: Shared, actions: seq<Action>, home: Home, cdm: Cdm)
    requires OneProcess(home, threads)
    ensures var s := Run(Started(threads, init), actions, home, cdm);
            |s.threads| == threads && Inv(s, home, init, cdm)
  {
    hide Inv, Next;
    if actions == [] {
      StartedInv(threads, home, init, cdm);
    } else {
      var s := Run(Started(threads, init), actions[..|actions| - 1], home, cdm);
      RunInv(threads, init, actions[..|actions| - 1], home, cdm);
      NextInv(s, actions[|actions| - 1], home, init, cdm);
    }
  }

  lemma StartedInv(threads: nat, home: Home, init: Shared, cdm: Cdm)
    ensures Inv(Started(threads, init), home, init, cdm)
  {
  }

  lemma NextInv(s: State, a: Action, home: Home, init: Shared, cdm: Cdm)
    requires Inv(s, home, init, cdm) && OneProcess(home, |s.threads|)
    ensures Inv(Next(s, a, home, cdm), home, init, cdm) && |Next(s, a, home, cdm).threads| == |s.threads|
  {
    hide Inv;
    match a
    case Enter(t, req) => EnterInv(s, t, req, home, init, cdm);
    case Advance(t) => AdvanceInv(s, t, home, init, cdm);
    case Work => WorkInv(s, home, init, cdm);
  }

  // ----- one owner

  predicate Owns(phase: Phase) { phase.Writing? || phase.Reading? || phase.ReadData? || phase.Answered? }

  lemma OwnerInv(s: State, home: Home, init: Shared, cdm: Cdm)
    requires Inv(s, home, init, cdm)
    ensures forall t, u | 0 <= t < |s.threads| && 0 <= u < |s.threads| ::
              Owns(s.threads[t]) && Owns(s.threads[u]) ==> t == u
    ensures (exists t :: 0 <= t < |s.threads| && Owns(s.threads[t])) ==> s.worker.Idle? && Token(s, 0, 0)
    ensures !s.worker.Idle? ==> Token(s, 0, 0)
    ensures s.producer + s.consumer <= 1
    ensures s.producer + s.consumer == 0 ==> !s.worker.Idle? || exists t :: 0 <= t < |s.threads| && Owns(s.threads[t])
  {
    hide ServeAll, AllWritten, Script, Stamped, Filled, HistoryOf, ResultOf, Cleared, Decrypted;
    if s.locks != map[] {
      var t := s.locks[home(0)];
      assert Owns(s.threads[t]) || !Owns(s.threads[t]);
    }
  }

  /** In every run of threads of one process there is one token: in one of the semaphores, with one thread, or
      with the worker. At most one party owns the buffer. */
  lemma OneOwner(threads: nat, init: Shared, actions: seq<Action>, home: Home, cdm: Cdm)
    requires OneProcess(home, threads)
    ensures var s := Run(Started(threads, init), actions, home, cdm);
            && |s.threads| == threads
            && (forall t, u | 0 <= t < threads && 0 <= u < threads ::
                  Owns(s.threads[t]) && Owns(s.threads[u]) ==> t == u)
            && (forall t :: 0 <= t < threads && Owns(s.threads[t]) ==> s.worker.Idle? && Token(s, 0, 0))
            && (!s.worker.Idle? ==> Token(s, 0, 0))
            && s.producer + s.consumer <= 1
            && (s.producer + s.consumer == 0 ==>
                  !s.worker.Idle? || exists t :: 0 <= t < |s.threads| && Owns(s.threads[t]))
  {
    hide Run, Inv, Owns;
    RunInv(threads, init, actions, home, cdm);
    OwnerInv(Run(Started(threads, init), actions, home, cdm), home, init, cdm);
  }

  // ----- every answer is that of its own request

  lemma {:induction false} ServeAllParts(init: Shared, order: seq<(nat, Request)>, i: nat, cdm: Cdm)
    requires i < |order|
    ensures var all, shop, req := ServeAll(init, order, cdm), ServeAll(init, order[..i], cdm), order[i].1;
            && |all.history| == |all.answers| == |order|
            && all.history[i] == Done(ViewOf(Filled(shop, req)), ResultOf(shop, req, cdm))
            && all.answers[i] == (order[i].0, req, ResultOf(shop, req, cdm))
    decreases |order|
  {
    hide Filled, ResultOf, Cleared;
    var n := |order| - 1;
    if n > 0 {
      ServeAllParts(init, order[..n], if i < n then i else 0, cdm);
    }
    if i < n {
      assert order[..n][..i] == order[..i];
    }
  }

  lemma {:induction false} LengthIsZero(init: Shared, order: seq<(nat, Request)>, cdm: Cdm)
    requires init.sampleLength == 0
    ensures ServeAll(init, order, cdm).shared.sampleLength == 0
  {
    hide AllWritten, Script, ResultOf;
    if order != [] {
      var n := |order| - 1;
      var shop, req := ServeAll(init, order[..n], cdm), order[n].1;
      LengthIsZero(init, order[..n], cdm);
      if req.Single? {
        SingleWrites(shop.shared, req);
      }
    }
  }

  lemma {:induction false} WritesJoin(shared: Shared, ws: seq<Write>, more: seq<Write>)
    ensures AllWritten(shared, ws + more) == AllWritten(AllWritten(shared, ws), more)
  {
    if more == [] {
      Seqs.Nil(ws);
    } else {
      Seqs.Init(ws, more);
      WritesJoin(shared, ws, more[..|more| - 1]);
    }
  }

  lemma OneWrite(shared: Shared, w: Write)
    ensures AllWritten(shared, [w]) == Written(shared, w)
  {
    NothingWritten(shared, [w]);
  }

  /** The fields and the sample length after the writes of a single-sample request. */
  lemma SingleWrites(shared: Shared, r: Request)
    requires r.Single?
    ensures var after := AllWritten(shared, Script(r));
            && after.sampleLength == shared.sampleLength
            && Field(after.fields, IV) == r.iv && Field(after.fields, KEYID) == r.keyId
            && Field(after.fields, SUBSAMPLE) == r.subSample && Field(after.fields, ENCSCHEME) == r.scheme
            && Field(after.fields, ENCPATTERN) == r.pattern && Field(after.fields, INITWITHLAST15) == r.last15
            && Field(after.fields, PAYLOAD) == r.payload
            && Field(after.fields, PROPERTIES)
               == if r.properties.Some? then r.properties.value else Field(shared.fields, PROPERTIES)
  {
    hide AllWritten;
    var head := [Put(IV, r.iv), Put(KEYID, r.keyId), Put(SUBSAMPLE, r.subSample), Put(ENCSCHEME, r.scheme),
                 Put(ENCPATTERN, r.pattern), Put(INITWITHLAST15, r.last15)];
    WritesJoin(shared, head + Properties(r), [Put(PAYLOAD, r.payload)]);
    WritesJoin(shared, head, Properties(r));
    HeadWrites(shared, head);
    PropertiesWrites(AllWritten(shared, head), r);
    OneWrite(AllWritten(shared, head + Properties(r)), Put(PAYLOAD, r.payload));
  }

  lemma HeadWrites(shared: Shared, ws: seq<Write>)
    requires |ws| == 6
    ensures AllWritten(shared, ws)
         == Written(Written(Written(Written(Written(Written(shared, ws[0]), ws[1]), ws[2]), ws[3]), ws[4]), ws[5])
  {
    hide Written;
    WritesNext(shared, ws, 0);
    WritesNext(shared, ws, 1);
    WritesNext(shared, ws, 2);
    WritesNext(shared, ws, 3);
    WritesNext(shared, ws, 4);
    WritesNext(shared, ws, 5);
    NothingWritten(shared, ws);
    assert ws[..6] == ws;
  }

  lemma PropertiesWrites(shared: Shared, r: Request)
    ensures AllWritten(shared, Properties(r))
         == if r.properties.Some? then Written(shared, Put(PROPERTIES, r.properties.value)) else shared
  {
    if r.properties.Some? {
      OneWrite(shared, Put(PROPERTIES, r.properties.value));
    }
  }

  lemma {:induction false} SamplesWrites(shared: Shared, samples: seq<Value>)
    ensures var after := AllWritten(shared, PutSamples(samples));
            && after.fields == shared.fields && after.sampleLength == shared.sampleLength
            && forall i :: 0 <= i < |samples| ==> SampleAt(after, i) == samples[i]
    decreases |samples|
  {
    if samples != [] {
      var n := |samples| - 1;
      SamplesWrites(shared, samples[..n]);
      assert PutSamples(samples)[..n] == PutSamples(samples[..n]);
    }
  }

  /** The fields and the samples after the writes of a multi-sample request. With an empty list only the
      properties and the payload are written. */
  lemma MultiWrites(shared: Shared, r: Request)
    requires r.Multi?
    ensures var after := AllWritten(shared, Script(r));
            && Field(after.fields, PAYLOAD) == r.payload
            && Field(after.fields, IV) == Field(shared.fields, IV)
            && Field(after.fields, INITWITHLAST15) == Field(shared.fields, INITWITHLAST15)
            && Field(after.fields, PROPERTIES)
               == (if r.properties.Some? then r.properties.value else Field(shared.fields, PROPERTIES))
            && if r.samples == [] then
                 && after.sampleLength == shared.sampleLength
                 && Field(after.fields, KEYID) == Field(shared.fields, KEYID)
                 && Field(after.fields, SUBSAMPLE) == Field(shared.fields, SUBSAMPLE)
                 && Field(after.fields, ENCSCHEME) == Field(shared.fields, ENCSCHEME)
                 && Field(after.fields, ENCPATTERN) == Field(shared.fields, ENCPATTERN)
               else
                 && after.sampleLength == |r.samples|
                 && (forall i :: 0 <= i < |r.samples| ==> SampleAt(after, i) == r.samples[i])
                 && Field(after.fields, KEYID) == r.keyId && Field(after.fields, SUBSAMPLE) == []
                 && Field(after.fields, ENCSCHEME) == r.scheme && Field(after.fields, ENCPATTERN) == r.pattern
  {
    hide AllWritten, PutSamples;
    var samples, tail := SampleWrites(r), [Put(PAYLOAD, r.payload)];
    WritesJoin(shared, samples + Properties(r), tail);
    WritesJoin(shared, samples, Properties(r));
    var sampled := AllWritten(shared, samples);
    PropertiesWrites(sampled, r);
    OneWrite(AllWritten(shared, samples + Properties(r)), Put(PAYLOAD, r.payload));
    if r.samples == [] {
      NothingWritten(shared, samples);
      assert samples[..0] == samples;
    } else {
      var head := [Put(KEYID, r.keyId), Put(ENCSCHEME, r.scheme), Put(ENCPATTERN, r.pattern), Put(SUBSAMPLE, []),
                   SampleLength(|r.samples|)];
      WritesJoin(shared, head, PutSamples(r.samples));
      FiveWrites(shared, head);
      SamplesWrites(AllWritten(shared, head), r.samples);
    }
  }

  lemma FiveWrites(shared: Shared, ws: seq<Write>)
    requires |ws| == 5
    ensures AllWritten(shared, ws)
         == Written(Written(Written(Written(Written(shared, ws[0]), ws[1]), ws[2]), ws[3]), ws[4])
  {
    hide Written;
    WritesNext(shared, ws, 0);
    WritesNext(shared, ws, 1);
    WritesNext(shared, ws, 2);
    WritesNext(shared, ws, 3);
    WritesNext(shared, ws, 4);
    NothingWritten(shared, ws);
    assert ws[..5] == ws;
  }

  /** What the CDM is called with: the request's own payload and samples, and for a request with samples or a
      single one its own key and pattern. The branch for many samples is taken exactly for a request of
      DecryptMulti with a non-empty list; with an empty list, the fields of an earlier request are used. */
  lemma OwnInputs(shop: Shop, r: Request)
    requires shop.shared.sampleLength == 0
    ensures var view := ViewOf(Filled(shop, r));
            && Field(view.fields, PAYLOAD) == r.payload
            && view.samples == (if r.Multi? then r.samples else [])
            && (r.Single? || r.samples != [] ==>
                  Field(view.fields, KEYID) == r.keyId && Field(view.fields, ENCSCHEME) == r.scheme
                  && Field(view.fields, ENCPATTERN) == r.pattern)
            && (r.Single? ==> Field(view.fields, IV) == r.iv && Field(view.fields, SUBSAMPLE) == r.subSample)
            && (r.Multi? && r.samples == [] ==>
                  forall name :: name != PAYLOAD && name != PROPERTIES ==>
                    Field(view.fields, name) == Field(shop.shared.fields, name))
            && Field(view.fields, PROPERTIES)
               == if r.properties.Some? then r.properties.value else Field(shop.shared.fields, PROPERTIES)
  {
    hide AllWritten, Script;
    if r.Single? {
      SingleWrites(shop.shared, r);
    } else {
      MultiWrites(shop.shared, r);
    }
  }

  /** In every run of threads of one process: the CDM is called once for each request, in the order in which
      the requests obtained the lock, with what the request itself wrote; and what came back to a thread is
      the CDM's answer to its own request. */
  lemma Linearizable(threads: nat, init: Shared, actions: seq<Action>, home: Home, cdm: Cdm, i: nat)
    requires OneProcess(home, threads)
    ensures var s := Run(Started(threads, init), actions, home, cdm);
            && |s.answers| <= |s.history| <= |s.order| <= |s.answers| + 1
            && (i < |s.order| ==>
                  var shop, req := ServeAll(init, s.order[..i], cdm), s.order[i].1;
                  && (i < |s.history| ==> s.history[i] == Done(ViewOf(Filled(shop, req)), ResultOf(shop, req, cdm)))
                  && (i < |s.answers| ==> s.answers[i] == (s.order[i].0, req, ResultOf(shop, req, cdm))))
  {
    hide Run, ServeAll, AllWritten, Script, Written, Filled, ResultOf, Stamped, Decrypted, Cleared;
    var s := Run(Started(threads, init), actions, home, cdm);
    RunInv(threads, init, actions, home, cdm);
    var n := |s.order|;
    if s.locks == map[] {
      Lengths(init, s.order, cdm);
      if i < n {
        ServeAllParts(init, s.order, i, cdm);
      }
    } else {
      Lengths(init, s.order[..n - 1], cdm);
      if i < n - 1 {
        ServeAllParts(init, s.order[..n - 1], i, cdm);
        assert s.order[..n - 1][..i] == s.order[..i];
      }
    }
  }

  lemma Lengths(init: Shared, order: seq<(nat, Request)>, cdm: Cdm)
    ensures |ServeAll(init, order, cdm).history| == |ServeAll(init, order, cdm).answers| == |order|
  {
    if order != [] {
      ServeAllParts(init, order, 0, cdm);
    }
  }

  /** In every run of threads of one process the worker takes the branch for many samples exactly for a
      request of DecryptMulti with a non-empty list. */
  lemma BranchIff(threads: nat, init: Shared, actions: seq<Action>, home: Home, cdm: Cdm)
    requires OneProcess(home, threads) && init.sampleLength == 0
    ensures var s := Run(Started(threads, init), actions, home, cdm);
            s.worker.Chosen? ==>
              && s.order != []
              && var req := s.order[|s.order| - 1].1;
              s.worker.multi <==> req.Multi? && req.samples != []
  {
    hide Run, ServeAll, AllWritten, Script, Written, ResultOf, Stamped, Decrypted, Cleared;
    var s := Run(Started(threads, init), actions, home, cdm);
    RunInv(threads, init, actions, home, cdm);
    if s.worker.Chosen? {
      var n := |s.order| - 1;
      var base := ServeAll(init, s.order[..n], cdm);
      LengthIsZero(init, s.order[..n], cdm);
      OwnInputs(base, s.order[n].1);
      assert |ViewOf(Filled(base, s.order[n].1)).samples| == Filled(base, s.order[n].1).sampleLength;
    }
  }

  // ----- every request completes

  function WorkerSteps(s: State): nat
  {
    match s.worker
    case Idle => if s.consumer > 0 then 5 else 0
    case Took => 4
    case Chosen(_) => 3
    case Called(_) => 2
    case Stated(_) => 1
  }

  /** The steps that are left until the lock is free. */
  function Distance(s: State, phase: Phase): nat
  {
    match phase
    case Outside => 0
    case Locked(req) => 13 + |Script(req)|
    case Writing(req, done) => if done <= |Script(req)| then 12 + |Script(req)| - done else 12
    case Waiting(_) => 6 + WorkerSteps(s)
    case Reading(_) => 5
    case ReadData(_, _) => 4
    case Answered(_, _) => 3
    case Leaving(_, _) => 2
    case Unlocking(_, _) => 1
  }

  function Left(s: State, home: Home): nat
  {
    if home(0) in s.locks && s.locks[home(0)] < |s.threads| then Distance(s, s.threads[s.locks[home(0)]]) else 0
  }

  /** What the holder's phase says about the token and the worker. */
  predicate Ready(s: State, phase: Phase)
  {
    match phase
    case Outside => false
    case Locked(_) => Token(s, 1, 0)
    case Writing(req, done) => Token(s, 0, 0) && s.worker.Idle? && done <= |Script(req)|
    case Waiting(_) => if s.worker.Idle? then Token(s, 0, 1) || Token(s, 1, 0) else Token(s, 0, 0)
    case _ => s.worker.Idle? && s.consumer == 0
  }

  lemma HolderReady(s: State, home: Home, init: Shared, cdm: Cdm)
    requires Inv(s, home, init, cdm) && s.locks != map[]
    ensures home(0) in s.locks && s.locks[home(0)] < |s.threads| && Ready(s, s.threads[s.locks[home(0)]])
    ensures s.locks.Keys == {home(0)}
  {
    hide ServeAll, AllWritten, Script, Written, Stamped, Decrypted, Filled, ResultOf, HistoryOf, Cleared;
  }

  lemma HolderSteps(s: State, t: nat, home: Home)
    requires t < |s.threads| && Ready(s, s.threads[t]) && (s.threads[t].Waiting? ==> s.producer > 0)
    ensures var s' := Advanced(s, t, home);
            && |s'.threads| == |s.threads|
            && if s.threads[t].Unlocking? then s'.locks == s.locks - {home(t)}
               else s'.locks == s.locks && Distance(s', s'.threads[t]) == Distance(s, s.threads[t]) - 1
  {
    hide Script, Written;
  }

  lemma WorkerWorks(s: State, t: nat, cdm: Cdm)
    requires t < |s.threads| && Ready(s, s.threads[t]) && s.threads[t].Waiting? && s.producer == 0
    ensures var s' := Worked(s, cdm);
            && s'.threads == s.threads && s'.locks == s.locks
            && Distance(s', s'.threads[t]) == Distance(s, s.threads[t]) - 1
  {
    hide Script, Written, ViewOf;
  }

  /** While a thread holds the lock, either its own next step or the worker's brings the end one step
      nearer. */
  lemma Progress(s: State, home: Home, init: Shared, cdm: Cdm)
    requires Inv(s, home, init, cdm) && OneProcess(home, |s.threads|) && s.locks != map[]
    ensures var step := if s.threads[s.locks[home(0)]].Waiting? && s.producer == 0 then Work
                        else Advance(s.locks[home(0)]);
            Left(Next(s, step, home, cdm), home) == Left(s, home) - 1
  {
    hide Inv, Ready, Advanced, Worked, Script;
    HolderReady(s, home, init, cdm);
    HolderHome(s, home, init, cdm);
    var t := s.locks[home(0)];
    if s.threads[t].Waiting? && s.producer == 0 {
      WorkerWorks(s, t, cdm);
    } else {
      HolderSteps(s, t, home);
    }
  }

  lemma HolderHome(s: State, home: Home, init: Shared, cdm: Cdm)
    requires Inv(s, home, init, cdm) && OneProcess(home, |s.threads|) && s.locks != map[]
    ensures home(0) in s.locks && home(s.locks[home(0)]) == home(0)
  {
    hide HolderInv;
  }

  /** No step of anyone moves the end away. */
  lemma NeverAway(s: State, a: Action, home: Home, init: Shared, cdm: Cdm)
    requires Inv(s, home, init, cdm) && OneProcess(home, |s.threads|) && s.locks != map[]
    ensures Left(Next(s, a, home, cdm), home) <= Left(s, home)
  {
    hide ServeAll, AllWritten, Script, Written, Stamped, Decrypted, Filled, ResultOf, HistoryOf, Cleared;
  }

  /** No deadlock: from every reachable state the holder of the lock and the worker alone reach a state in
      which the lock is free, within a bound that the state gives. */
  lemma {:induction false} Completes(s: State, home: Home, init: Shared, cdm: Cdm) returns (actions: seq<Action>)
    requires Inv(s, home, init, cdm) && OneProcess(home, |s.threads|)
    ensures Run(s, actions, home, cdm).locks == map[] && |actions| <= Left(s, home)
    ensures Run(s, actions, home, cdm).order == s.order
    decreases Left(s, home)
  {
    hide Inv, Next, Left, ServeAll;
    actions := [];
    if s.locks != map[] {
      InvHolder(s, home, init, cdm);
      var step := if s.threads[s.locks[home(0)]].Waiting? && s.producer == 0 then Work else Advance(s.locks[home(0)]);
      Progress(s, home, init, cdm);
      NextInv(s, step, home, init, cdm);
      OrderStays(s, step, home, cdm);
      var rest := Completes(Next(s, step, home, cdm), home, init, cdm);
      actions := [step] + rest;
      RunJoin(s, [step], rest, home, cdm);
      assert [step][..0] == [] && Run(s, [step], home, cdm) == Next(s, step, home, cdm);
    }
  }

  lemma OrderStays(s: State, a: Action, home: Home, cdm: Cdm)
    requires !a.Enter?
    ensures Next(s, a, home, cdm).order == s.order
  {
    hide Written, Script;
  }

  lemma InvHolder(s: State, home: Home, init: Shared, cdm: Cdm)
    requires Inv(s, home, init, cdm) && s.locks != map[]
    ensures home(0) in s.locks && s.locks[home(0)] < |s.threads|
  {
  }

  lemma {:induction false} RunJoin(s: State, actions: seq<Action>, more: seq<Action>, home: Home, cdm: Cdm)
    ensures Run(s, actions + more, home, cdm) == Run(Run(s, actions, home, cdm), more, home, cdm)
  {
    hide Next;
    if more == [] {
      Seqs.Nil(actions);
    } else {
      Seqs.Init(actions, more);
      RunJoin(s, actions, more[..|more| - 1], home, cdm);
    }
  }

  /** A thread enters a free buffer, and the run goes on until the buffer is free again. */
  lemma ServesNext(init: Shared, before: seq<Action>, req: Request, home: Home, cdm: Cdm) returns (actions: seq<Action>)
    requires Run(Started(1, init), before, home, cdm).locks == map[]
    ensures var s, s' := Run(Started(1, init), before, home, cdm), Run(Started(1, init), actions, home, cdm);
            s'.locks == map[] && s'.order == s.order + [(0, req)]
  {
    hide Run, Inv;
    var s := Run(Started(1, init), before, home, cdm);
    RunInv(1, init, before, home, cdm);
    FreeIsOutside(s, home, init, cdm);
    var entered := Next(s, Enter(0, req), home, cdm);
    NextInv(s, Enter(0, req), home, init, cdm);
    var rest := Completes(entered, home, init, cdm);
    RunOne(s, Enter(0, req), home, cdm);
    RunJoin(Started(1, init), before, [Enter(0, req)], home, cdm);
    RunJoin(Started(1, init), before + [Enter(0, req)], rest, home, cdm);
    actions := (before + [Enter(0, req)]) + rest;
  }

  lemma FreeIsOutside(s: State, home: Home, init: Shared, cdm: Cdm)
    requires Inv(s, home, init, cdm) && s.locks == map[]
    ensures forall t :: 0 <= t < |s.threads| ==> s.threads[t].Outside?
    ensures Shop(s.shared, s.history, s.answers) == ServeAll(init, s.order, cdm)
  {
    hide ServeAll;
  }

  /** A run in which the CDM gets the key, the initialization vector and the subsamples of an earlier request:
      after any request of Decrypt, one of DecryptMulti with an empty list, whatever key it names. */
  lemma LeftOverKey(init: Shared, first: Request, second: Request, home: Home, cdm: Cdm) returns (actions: seq<Action>)
    requires init.sampleLength == 0 && first.Single? && second.Multi? && second.samples == []
    ensures var s := Run(Started(1, init), actions, home, cdm);
            && s.order == [(0, first), (0, second)] && |s.history| == 2
            && var fields := s.history[1].view.fields;
            && Field(fields, PAYLOAD) == second.payload && Field(fields, KEYID) == first.keyId
            && Field(fields, IV) == first.iv && Field(fields, SUBSAMPLE) == first.subSample
  {
    hide Run, Inv, Filled, ServeAll, ResultOf;
    actions := [];
    NothingRun(Started(1, init), home, cdm);
    actions := ServesNext(init, actions, first, home, cdm);
    actions := ServesNext(init, actions, second, home, cdm);
    var s := Run(Started(1, init), actions, home, cdm);
    RunInv(1, init, actions, home, cdm);
    FreeIsOutside(s, home, init, cdm);
    var order := [(0, first), (0, second)];
    assert s.order == order;
    ServeAllParts(init, order, 1, cdm);
    assert order[..1] == [(0, first)];
    LengthIsZero(init, order[..1], cdm);
    LeftOver(init, first, cdm);
    OwnInputs(ServeAll(init, order[..1], cdm), second);
  }

  /** What a request of Decrypt leaves in a buffer that was free. */
  lemma LeftOver(init: Shared, first: Request, cdm: Cdm)
    requires first.Single?
    ensures var fields := ServeAll(init, [(0, first)], cdm).shared.fields;
            && Field(fields, KEYID) == first.keyId && Field(fields, IV) == first.iv
            && Field(fields, SUBSAMPLE) == first.subSample
  {
    hide AllWritten, Script, ResultOf;
    assert [(0, first)][..0] == [];
    SingleWrites(init, first);
  }

  lemma NothingRun(s: State, home: Home, cdm: Cdm)
    ensures Run(s, [], home, cdm) == s
  {
  }

  // ----- threads of two processes

  /** What a client relies on: its answer is the CDM's result on its own payload. */
  ghost predicate OwnAnswers(s: State)
  {
    forall i :: 0 <= i < |s.answers| ==> OwnAnswer(s, s.answers[i].1, s.answers[i].2)
  }

  ghost predicate OwnAnswer(s: State, req: Request, response: Result)
  {
    exists k :: 0 <= k < |s.history| && s.history[k].result == response
                && Field(s.history[k].view.fields, PAYLOAD) == req.payload
  }

  lemma OneProcessIsSafe(threads: nat, init: Shared, actions: seq<Action>, home: Home, cdm: Cdm)
    requires OneProcess(home, threads) && init.sampleLength == 0
    ensures OwnAnswers(Run(Started(threads, init), actions, home, cdm))
  {
    hide Run, ServeAll, Filled, ResultOf;
    var s := Run(Started(threads, init), actions, home, cdm);
    forall i | 0 <= i < |s.answers| ensures OwnAnswer(s, s.answers[i].1, s.answers[i].2) {
      Linearizable(threads, init, actions, home, cdm, i);
      LengthIsZero(init, s.order[..i], cdm);
      OwnInputs(ServeAll(init, s.order[..i], cdm), s.order[i].1);
      assert s.history[i].result == s.answers[i].2;
    }
  }

  /** A request that only writes a payload. */
  function Bare(payload: Value): Request { Multi([], [], [], [], None, payload) }

  lemma BareScript(payload: Value)
    ensures Script(Bare(payload)) == [Put(PAYLOAD, payload)]
  {
  }

  const ECHO: Cdm := (seen: seq<View>, view: View) => Result(0, Field(view.fields, PAYLOAD))

  /** A thread enters, writes its payload and hands the buffer to the worker. */
  lemma Posts(s: State, t: nat, payload: Value, home: Home)
    requires t < |s.threads| && s.threads[t].Outside? && home(t) !in s.locks && Token(s, 1, 0)
    ensures Run(s, [Enter(t, Bare(payload)), Advance(t), Advance(t), Advance(t)], home, ECHO)
         == Move(s.(locks := s.locks[home(t) := t], order := s.order + [(t, Bare(payload))],
                    producer := 0, consumer := 1, shared := Written(s.shared, Put(PAYLOAD, payload))),
                 t, Waiting(Bare(payload)))
  {
    hide Script, Written;
    BareScript(payload);
    var actions := [Enter(t, Bare(payload)), Advance(t), Advance(t), Advance(t)];
    FourSteps(s, actions, home, ECHO);
  }

  lemma FourSteps(s: State, a: seq<Action>, home: Home, cdm: Cdm)
    requires |a| == 4
    ensures Run(s, a, home, cdm)
         == Next(Next(Next(Next(s, a[0], home, cdm), a[1], home, cdm), a[2], home, cdm), a[3], home, cdm)
  {
    hide Next;
    assert a[..3][..2] == a[..2] && a[..2][..1] == a[..1] && a[..1][..0] == [];
    assert Run(s, a[..3], home, cdm) == Next(Run(s, a[..2], home, cdm), a[2], home, cdm);
    assert Run(s, a[..2], home, cdm) == Next(Run(s, a[..1], home, cdm), a[1], home, cdm);
    assert Run(s, a[..1], home, cdm) == Next(s, a[0], home, cdm);
  }

  lemma RunOne(s: State, a: Action, home: Home, cdm: Cdm)
    ensures Run(s, [a], home, cdm) == Next(s, a, home, cdm)
  {
    hide Next;
    assert [a][..0] == [];
  }

  /** The worker serves a request with an empty sample list. */
  lemma Works(s: State, home: Home)
    requires Token(s, 0, 1) && s.worker.Idle? && s.shared.sampleLength == 0
    ensures var payload := Field(s.shared.fields, PAYLOAD);
            Run(s, [Work, Work, Work, Work] + [Work], home, ECHO)
            == s.(producer := 1, consumer := 0,
                  shared := Written(s.shared, Put(PAYLOAD, payload)).(status := 0),
                  history := s.history + [Done(View(s.shared.fields, []), Result(0, payload))])
  {
    hide Written;
    var actions := [Work, Work, Work, Work];
    RunJoin(s, actions, [Work], home, ECHO);
    FourSteps(s, actions, home, ECHO);
    RunOne(Run(s, actions, home, ECHO), Work, home, ECHO);
  }

  lemma Fetches(s: State, t: nat, req: Request, home: Home)
    requires t < |s.threads| && s.threads[t] == Waiting(req) && Token(s, 1, 0)
    ensures Run(s, [Advance(t), Advance(t), Advance(t), Advance(t)], home, ECHO)
         == Move(s, t, Leaving(req, Result(s.shared.status, Field(s.shared.fields, PAYLOAD))))
  {
    hide Written, Run, Move;
    var response := Result(s.shared.status, Field(s.shared.fields, PAYLOAD));
    var taken := s.(producer := 0);
    FourSteps(s, [Advance(t), Advance(t), Advance(t), Advance(t)], home, ECHO);
    MoveTwice(taken, t, Reading(req), ReadData(req, response.payload));
    MoveTwice(taken, t, ReadData(req, response.payload), Answered(req, response));
    MoveTwice(taken, t, Answered(req, response), Leaving(req, response));
    Returned(s, t, Answered(req, response), Leaving(req, response));
  }

  lemma MoveTwice(s: State, t: nat, p: Phase, q: Phase)
    requires t < |s.threads|
    ensures var m := Move(s, t, p);
            && |m.threads| == |s.threads| && m.threads[t] == p && m.producer == s.producer && m.shared == s.shared
            && Move(m, t, q) == Move(s, t, q)
  {
  }

  /** Taking the token and putting it back. */
  lemma Returned(s: State, t: nat, p: Phase, q: Phase)
    requires t < |s.threads| && s.producer == 1
    ensures var m := Move(s.(producer := 0), t, p); Move(m.(producer := m.producer + 1), t, q) == Move(s, t, q)
  {
  }

  /** A thread takes whatever result the buffer holds. */
  lemma Collects(s: State, t: nat, req: Request, home: Home)
    requires t < |s.threads| && s.threads[t] == Waiting(req) && req.Multi? && Token(s, 1, 0)
    ensures var actions := ([Advance(t), Advance(t), Advance(t), Advance(t)] + [Advance(t)]) + [Advance(t)];
            var after := Run(s, actions, home, ECHO);
            after.history == s.history
            && after.answers == s.answers + [(t, req, Result(s.shared.status, Field(s.shared.fields, PAYLOAD)))]
  {
    hide Written, Run;
    var actions := [Advance(t), Advance(t), Advance(t), Advance(t)];
    RunJoin(s, actions + [Advance(t)], [Advance(t)], home, ECHO);
    RunJoin(s, actions, [Advance(t)], home, ECHO);
    Fetches(s, t, req, home);
    RunOne(Run(s, actions, home, ECHO), Advance(t), home, ECHO);
    RunOne(Run(s, actions + [Advance(t)], home, ECHO), Advance(t), home, ECHO);
  }

  /** Two processes: while `a` waits for its result, `b` takes the returned token, and `a` reads the answer
      to `b`'s request. */
  lemma TwoProcesses(threads: nat, init: Shared, home: Home, a: nat, b: nat) returns (actions: seq<Action>)
    requires a < threads && b < threads && home(a) != home(b) && init.sampleLength == 0
    ensures !OwnAnswers(Run(Started(threads, init), actions, home, ECHO))
  {
    hide Run, Written;
    var post, work := [Enter(a, Bare([1])), Advance(a), Advance(a), Advance(a)], [Work, Work, Work, Work] + [Work];
    var repost := [Enter(b, Bare([2])), Advance(b), Advance(b), Advance(b)];
    var collect := ([Advance(a), Advance(a), Advance(a), Advance(a)] + [Advance(a)]) + [Advance(a)];
    actions := (((post + work) + repost) + work) + collect;
    var s0 := Started(threads, init);
    RunJoin(s0, ((post + work) + repost) + work, collect, home, ECHO);
    RunJoin(s0, (post + work) + repost, work, home, ECHO);
    RunJoin(s0, post + work, repost, home, ECHO);
    RunJoin(s0, post, work, home, ECHO);
    Posts(s0, a, [1], home);
    var s1 := Run(s0, post, home, ECHO);
    PayloadPut(init, [1]);
    Works(s1, home);
    var s2 := Run(s1, work, home, ECHO);
    PayloadPut(s1.shared, [1]);
    Posts(s2, b, [2], home);
    var s3 := Run(s2, repost, home, ECHO);
    PayloadPut(s2.shared, [2]);
    Works(s3, home);
    var s4 := Run(s3, work, home, ECHO);
    PayloadPut(s3.shared, [2]);
    Collects(s4, a, Bare([1]), home);
    var s5 := Run(s4, collect, home, ECHO);
    assert s5.answers[0] == (a, Bare([1]), Result(0, [2]));
    assert !OwnAnswer(s5, Bare([1]), Result(0, [2]));
  }

  lemma PayloadPut(shared: Shared, payload: Value)
    ensures var after := Written(shared, Put(PAYLOAD, payload));
            Field(after.fields, PAYLOAD) == payload && after.sampleLength == shared.sampleLength
  {
  }

  /** Every answer in every run is the CDM's result on the client's own payload, exactly when all threads
      that use the buffer belong to one process. */
  lemma SafeIffOneProcess(threads: nat, init: Shared, home: Home)
    requires init.sampleLength == 0
    ensures (forall actions, cdm :: OwnAnswers(Run(Started(threads, init), actions, home, cdm)))
       <==> OneProcess(home, threads)
  {
    hide Run, OwnAnswers;
    if OneProcess(home, threads) {
      forall actions, cdm ensures OwnAnswers(Run(Started(threads, init), actions, home, cdm)) {
        OneProcessIsSafe(threads, init, actions, home, cdm);
      }
    } else {
      var t :| 0 <= t < threads && home(t) != home(0);
      var actions := TwoProcesses(threads, init, home, 0, t);
    }
  }
}
