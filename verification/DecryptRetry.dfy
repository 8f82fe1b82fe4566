/** The retry loop around a decryption whose output is restricted (client/adapter/rdk/open_cdm_decrypt.cpp,
    decryptWithOutputRestrictedRetry). Times are in milliseconds. */
module DecryptRetry {
  import opened Bytes
  import opened KeyList
  import Seqs

  const RETRY_INTERVAL := 250
  const RETRY_TIMEOUT := 6000
  const MAX_TURNS := 24

  /** OpenCDMError; any other error is told by its number. */
  datatype Error = ERROR_NONE | ERROR_FAIL | Other(code: int)

  predicate IsOutputRestricted(status: KeyStatus)
  {
    status == OutputRestricted || status == OutputRestrictedHDCP22
  }

  predicate IsUsable(status: KeyStatus)
  {
    status == Usable || status == OutputDownscaled || status == StatusPending
  }

  /** What the environment answers in one turn: the clock at the head of the loop, the status of the key before
      the attempt, the attempt's result, and the status after it. */
  datatype Turn = Turn(now: int, before: KeyStatus, result: Error, after: KeyStatus)

  type Environment = nat -> Turn

  /** The clock starts no earlier than the deadline was computed from, and a sleep lasts at least its
      interval. */
  ghost predicate Clocked(env: Environment, start: int)
  {
    start <= env(0).now && forall k: nat, l: nat :: l == k + 1 ==> env(k).now + RETRY_INTERVAL <= env(l).now
  }

  /** getKeyStatus: without a session, or with a key id that is too long, there is no status to ask for. */
  function KeyStatusOf(askable: bool, status: KeyStatus): KeyStatus
  {
    if askable then status else InternalError
  }

  /** The turn calls decryptOnce. */
  predicate Attempts(turn: Turn, askable: bool)
  {
    IsUsable(KeyStatusOf(askable, turn.before))
  }

  /** The turn sleeps and goes on. */
  predicate GoesOn(turn: Turn, askable: bool)
  {
    || IsOutputRestricted(KeyStatusOf(askable, turn.before))
    || (Attempts(turn, askable) && turn.result != ERROR_NONE && IsOutputRestricted(KeyStatusOf(askable, turn.after)))
  }

  /** The turns among the first `n` that call decryptOnce, in order. */
  function AttemptsOf(env: Environment, askable: bool, n: nat): seq<nat>
  {
    if n == 0 then []
    else AttemptsOf(env, askable, n - 1) + if Attempts(env(n - 1), askable) then [n - 1] else []
  }

  lemma {:induction false} AttemptsAre(env: Environment, askable: bool, n: nat)
    ensures |AttemptsOf(env, askable, n)| <= n
    ensures forall k: nat :: k in AttemptsOf(env, askable, n) <==> k < n && Attempts(env(k), askable)
  {
    hide Attempts;
    if n > 0 {
      AttemptsAre(env, askable, n - 1);
    }
  }

  /** The result of the last attempt in the first `n` turns, or a failure. */
  function LastResult(env: Environment, askable: bool, n: nat): Error
  {
    if n == 0 then ERROR_FAIL
    else if Attempts(env(n - 1), askable) then env(n - 1).result
    else LastResult(env, askable, n - 1)
  }

  lemma {:induction false} LastResultIs(env: Environment, askable: bool, n: nat)
    ensures var a := AttemptsOf(env, askable, n);
            LastResult(env, askable, n) == if a == [] then ERROR_FAIL else env(a[|a| - 1]).result
  {
    hide Attempts;
    if n > 0 {
      LastResultIs(env, askable, n - 1);
      NextAttempt(env, askable, n - 1);
    }
  }

  /** The last turn found a status that is neither restricted nor usable. */
  predicate Aborted(env: Environment, askable: bool, n: nat)
  {
    && n > 0
    && var status := KeyStatusOf(askable, env(n - 1).before);
    !IsOutputRestricted(status) && !IsUsable(status)
  }

  /** The loop has `n` turns: they all begin before the deadline, all but the last go on, and the last goes on
      only if time is up then. */
  ghost predicate Turns(env: Environment, askable: bool, deadline: int, n: nat)
  {
    && (forall k: nat :: k < n ==> env(k).now < deadline)
    && (forall k: nat :: k + 1 < n ==> GoesOn(env(k), askable))
    && (n == 0 || GoesOn(env(n - 1), askable) ==> deadline <= env(n).now)
  }

  lemma {:induction false} Later(env: Environment, start: int, k: nat)
    requires Clocked(env, start)
    ensures start + RETRY_INTERVAL * k <= env(k).now
  {
    if k > 0 {
      Later(env, start, k - 1);
    }
  }

  /** The number of turns is determined: no smaller one fits. */
  lemma TurnsUnique(env: Environment, askable: bool, deadline: int, m: nat, n: nat)
    requires m < n && Turns(env, askable, deadline, n)
    ensures !Turns(env, askable, deadline, m)
  {
    if m > 0 {
      assert GoesOn(env(m - 1), askable);
    }
  }

  /** Under any clock there are at most 24 turns. */
  lemma TurnsBounded(env: Environment, askable: bool, start: int, n: nat)
    requires Clocked(env, start) && Turns(env, askable, start + RETRY_TIMEOUT, n)
    ensures n <= MAX_TURNS
  {
    if n > 0 {
      Later(env, start, n - 1);
    }
  }

  /** The bound is reached: with exact sleeps and an output that stays restricted there are 24 turns. */
  lemma BoundReached(start: int)
    ensures var env := (k: nat) => Turn(start + 250 * k, OutputRestricted, ERROR_NONE, Usable);
            Clocked(env, start) && Turns(env, true, start + 6000, 24)
  {
  }

  /** The first `n` turns began in time and went on. */
  ghost predicate AllGoOn(env: Environment, askable: bool, deadline: int, n: nat)
  {
    forall k: nat :: k < n ==> env(k).now < deadline && GoesOn(env(k), askable)
  }

  /** The loop ends after `n` turns, no more than 24, with the attempts of these turns and the result of the
      last attempt; it fails if there was none, or if the last turn was aborted. */
  ghost predicate Ends(env: Environment, askable: bool, start: int, n: nat, attempts: seq<nat>, result: Error)
  {
    && n <= MAX_TURNS && Turns(env, askable, start + RETRY_TIMEOUT, n)
    && attempts == AttemptsOf(env, askable, n)
    && result == if Aborted(env, askable, n) then ERROR_FAIL else LastResult(env, askable, n)
  }

  lemma Sleeps(env: Environment, start: int, n: nat)
    requires Clocked(env, start)
    ensures env(n).now + RETRY_INTERVAL <= env(n + 1).now
  {
  }

  lemma AnotherTurn(env: Environment, askable: bool, deadline: int, n: nat)
    requires AllGoOn(env, askable, deadline, n) && env(n).now < deadline && GoesOn(env(n), askable)
    ensures AllGoOn(env, askable, deadline, n + 1)
  {
    hide GoesOn;
  }

  lemma LastTurn(env: Environment, askable: bool, deadline: int, n: nat)
    requires AllGoOn(env, askable, deadline, n) && env(n).now < deadline && !GoesOn(env(n), askable)
    ensures Turns(env, askable, deadline, n + 1)
  {
    hide GoesOn;
  }

  /** One turn more. */
  lemma OneTurn(env: Environment, askable: bool, start: int, n: nat)
    requires Clocked(env, start) && AllGoOn(env, askable, start + RETRY_TIMEOUT, n)
    requires env(n).now < start + RETRY_TIMEOUT
    ensures env(n).now < env(n + 1).now
    ensures GoesOn(env(n), askable) ==> AllGoOn(env, askable, start + RETRY_TIMEOUT, n + 1)
    ensures !GoesOn(env(n), askable) ==>
              Ends(env, askable, start, n + 1, AttemptsOf(env, askable, n + 1),
                   if Aborted(env, askable, n + 1) then ERROR_FAIL else LastResult(env, askable, n + 1))
  {
    hide AttemptsOf, LastResult, GoesOn, Aborted, AllGoOn, Turns, Clocked;
    Sleeps(env, start, n);
    if GoesOn(env(n), askable) {
      AnotherTurn(env, askable, start + RETRY_TIMEOUT, n);
    } else {
      LastTurn(env, askable, start + RETRY_TIMEOUT, n);
      TurnsBounded(env, askable, start, n + 1);
    }
  }

  lemma TimeIsUp(env: Environment, askable: bool, start: int, n: nat)
    requires Clocked(env, start) && AllGoOn(env, askable, start + RETRY_TIMEOUT, n)
    requires start + RETRY_TIMEOUT <= env(n).now
    ensures Ends(env, askable, start, n, AttemptsOf(env, askable, n), LastResult(env, askable, n))
  {
    hide AttemptsOf, LastResult;
    if n > 0 {
      Later(env, start, n - 1);
      assert GoesOn(env(n - 1), askable);
    }
  }

  lemma NextAttempt(env: Environment, askable: bool, n: nat)
    ensures AttemptsOf(env, askable, n + 1)
         == if Attempts(env(n), askable) then AttemptsOf(env, askable, n) + [n] else AttemptsOf(env, askable, n)
    ensures LastResult(env, askable, n + 1)
         == if Attempts(env(n), askable) then env(n).result else LastResult(env, askable, n)
  {
    Seqs.Nil(AttemptsOf(env, askable, n));
  }

  /** With no key id there is a single attempt; otherwise the loop runs. */
  method DecryptWithOutputRestrictedRetry(keyId: seq<byte>, session: bool, start: int, env: Environment)
    returns (result: Error, attempts: seq<nat>, turns: nat)
    requires Clocked(env, start)
    ensures keyId == [] ==> result == env(0).result && attempts == [0]
    ensures keyId != [] ==> Ends(env, session && |keyId| <= 255, start, turns, attempts, result)
  {
    turns := 0;
    if keyId == [] {
      return env(0).result, [0], 0;
    }
    hide Ends, AllGoOn, AttemptsOf, LastResult, IsUsable, IsOutputRestricted, KeyStatusOf, Clocked, GoesOn, Attempts;
    var askable := session && |keyId| <= 255;
    var deadline := start + RETRY_TIMEOUT;
    var lastResult := ERROR_FAIL;
    attempts := [];
    NoTurns(env, askable, deadline);
    while env(turns).now < deadline
      invariant AllGoOn(env, askable, deadline, turns)
      invariant attempts == AttemptsOf(env, askable, turns)
      invariant lastResult == LastResult(env, askable, turns)
      decreases deadline - env(turns).now
    {
      var turn := env(turns);
      OneTurn(env, askable, start, turns);
      NextAttempt(env, askable, turns);
      TurnIs(turn, askable);
      var preDecryptStatus := KeyStatusOf(askable, turn.before);
      if IsOutputRestricted(preDecryptStatus) {
        turns := turns + 1;
        continue;
      }
      if !IsUsable(preDecryptStatus) {
        turns := turns + 1;
        return ERROR_FAIL, attempts, turns;
      }
      attempts := attempts + [turns];
      lastResult := turn.result;
      if lastResult == ERROR_NONE {
        turns := turns + 1;
        return lastResult, attempts, turns;
      }
      var postDecryptStatus := KeyStatusOf(askable, turn.after);
      if !IsOutputRestricted(postDecryptStatus) {
        turns := turns + 1;
        return lastResult, attempts, turns;
      }
      turns := turns + 1;
    }
    TimeIsUp(env, askable, start, turns);
    result := lastResult;
  }

  lemma NoTurns(env: Environment, askable: bool, deadline: int)
    ensures AllGoOn(env, askable, deadline, 0)
    ensures AttemptsOf(env, askable, 0) == [] && LastResult(env, askable, 0) == ERROR_FAIL
  {
  }

  /** How a turn ends, from what it sees. */
  lemma TurnIs(turn: Turn, askable: bool)
    ensures var before := KeyStatusOf(askable, turn.before);
            && (IsOutputRestricted(before) ==> GoesOn(turn, askable) && !Attempts(turn, askable))
            && (!IsOutputRestricted(before) ==>
                  && (Attempts(turn, askable) <==> IsUsable(before))
                  && (GoesOn(turn, askable) <==> IsUsable(before) && turn.result != ERROR_NONE
                                                 && IsOutputRestricted(KeyStatusOf(askable, turn.after))))
  {
  }

  /** A decryption succeeds only by an attempt that succeeded, directly after a usable, downscaled or pending
      status, as the last turn; without a session or with too long a key id there is no attempt at all. */
  lemma SuccessIs(env: Environment, askable: bool, start: int, n: nat)
    requires Clocked(env, start) && Turns(env, askable, start + RETRY_TIMEOUT, n)
    ensures !askable ==> AttemptsOf(env, askable, n) == []
    ensures |AttemptsOf(env, askable, n)| <= n <= MAX_TURNS
    ensures forall i :: 0 <= i < |AttemptsOf(env, askable, n)| ==>
              var k := AttemptsOf(env, askable, n)[i];
              && askable && env(k).before in {Usable, OutputDownscaled, StatusPending}
              && (env(k).result == ERROR_NONE ==> k == n - 1)
  {
    AttemptsAre(env, askable, n);
    TurnsBounded(env, askable, start, n);
    forall i | 0 <= i < |AttemptsOf(env, askable, n)|
      ensures var k := AttemptsOf(env, askable, n)[i];
              && askable && env(k).before in {Usable, OutputDownscaled, StatusPending}
              && (env(k).result == ERROR_NONE ==> k == n - 1)
    {
      var k := AttemptsOf(env, askable, n)[i];
      assert k in AttemptsOf(env, askable, n);
      if k + 1 < n {
        assert GoesOn(env(k), askable);
      }
    }
  }

  /** A turn begins an attempt exactly with a usable, downscaled or pending status, if the status can be asked for. */
  predicate Tries(turn: Turn, askable: bool)
  {
    askable && turn.before in {Usable, OutputDownscaled, StatusPending}
  }

  /** A turn is followed by another, if there is time: its output is restricted before, or after an attempt that
      failed. */
  predicate Retries(turn: Turn, askable: bool)
  {
    && askable
    && (turn.before in {OutputRestricted, OutputRestrictedHDCP22}
        || (Tries(turn, askable) && turn.result != ERROR_NONE
            && turn.after in {OutputRestricted, OutputRestrictedHDCP22}))
  }

  /** How the loop ends, by the names of the statuses: there is one attempt in each turn with a status to try, all
      turns but the last are followed by another, all begin in the first six seconds, and the last one is followed by
      none only because it does not retry or the six seconds are over. The result is that of the last attempt, or
      ERROR_FAIL if there was none or the last turn neither tried nor retried; it is ERROR_NONE exactly when the
      last turn tried and succeeded. */
  lemma EndsAre(env: Environment, askable: bool, start: int, n: nat, attempts: seq<nat>, result: Error)
    requires Ends(env, askable, start, n, attempts, result)
    ensures n <= 24 && forall k: nat :: k in attempts <==> k < n && Tries(env(k), askable)
    ensures forall k: nat :: k < n ==> env(k).now < start + 6000 && (k + 1 < n ==> Retries(env(k), askable))
    ensures n == 0 || Retries(env(n - 1), askable) ==> start + 6000 <= env(n).now
    ensures result == if attempts == [] || (!Tries(env(n - 1), askable) && !Retries(env(n - 1), askable))
                      then ERROR_FAIL else env(attempts[|attempts| - 1]).result
    ensures result == ERROR_NONE <==> n > 0 && Tries(env(n - 1), askable) && env(n - 1).result == ERROR_NONE
  {
    hide AttemptsOf, LastResult;
    AttemptsAre(env, askable, n);
    LastResultIs(env, askable, n);
    AttemptsAscend(env, askable, n);
    forall k: nat
      ensures GoesOn(env(k), askable) <==> Retries(env(k), askable)
      ensures Attempts(env(k), askable) <==> Tries(env(k), askable)
    {
    }
    if attempts != [] {
      var k := attempts[|attempts| - 1];
      assert k in attempts;
      assert n > 0 && Tries(env(n - 1), askable) ==> n - 1 in attempts;
    }
  }

  /** Attempts are listed in order. */
  lemma {:induction false} AttemptsAscend(env: Environment, askable: bool, n: nat)
    ensures var a := AttemptsOf(env, askable, n);
            forall i, j :: 0 <= i < j < |a| ==> a[i] < a[j]
    ensures var a := AttemptsOf(env, askable, n);
            forall k <- a :: k <= a[|a| - 1]
  {
    hide Attempts;
    if n > 0 {
      AttemptsAscend(env, askable, n - 1);
      AttemptsAre(env, askable, n - 1);
      var init := AttemptsOf(env, askable, n - 1);
      forall i | 0 <= i < |init| ensures init[i] < n - 1 {
        assert init[i] in init;
      }
    }
  }
}
