/** The retry loop of `_save_db_with_retry`: up to `max_retries` attempts to
    write the snapshot to a temporary file and move it over the database file,
    sleeping between attempts. The file system is replaced by the outcome each
    attempt meets, given in advance; sleeping is recorded, not performed. On
    win32 the old database file is removed before the rename, so a failing
    attempt may leave no database file at all. */
module SaveRetry {

  /** What one attempt meets. */
  datatype Attempt =
    | Written       // the temporary file was written and renamed onto the database file
    | RemoveDenied  // on win32, removing the existing database file raised PermissionError
    | Failed        // any other exception inside the attempt, the database file left in place
    | RemovedThenFailed  // on win32, the database file was removed and then the rename raised

  /** The attempt raised into the loop's `except` handler. */
  predicate Fails(o: Attempt) {
    o == Failed || o == RemovedThenFailed
  }

  /** How the call ends: it returns (having written the file or not), or it re-raises. */
  datatype SaveResult = Returned(saved: bool) | Raised

  /** How the call ends, and the delays passed to `time.sleep`, in order. */
  datatype Run = Run(result: SaveResult, sleeps: seq<nat>)

  /** The defaults `max_retries=3, delay=1` used by the save worker. */
  const MaxRetries: nat := 3
  const InitialDelay: nat := 1

  function Pow2(n: nat): (p: nat)
    ensures p >= 1
  {
    if n == 0 then 1 else 2 * Pow2(n - 1)
  }

  /** The number of attempts in `s` that raised something other than the win32 PermissionError. */
  function CountFailed(s: seq<Attempt>): nat {
    if s == [] then 0 else (if Fails(s[0]) then 1 else 0) + CountFailed(s[1..])
  }

  function Sum(s: seq<nat>): nat {
    if s == [] then 0 else s[0] + Sum(s[1..])
  }

  /** The rest of a call from attempt number `attempt` on, with `delay` the
      current delay: the loop stops at the first written attempt, raises on a
      failure in the last attempt, and otherwise sleeps and goes on; only a
      failure doubles the delay. */
  function RetryFrom(outcomes: seq<Attempt>, maxRetries: nat, attempt: nat, delay: nat): Run
    requires maxRetries <= |outcomes| && attempt <= maxRetries
    decreases maxRetries - attempt
  {
    if attempt == maxRetries then Run(Returned(false), [])
    else
      match outcomes[attempt]
      case Written => Run(Returned(true), [])
      case RemoveDenied =>
        var rest := RetryFrom(outcomes, maxRetries, attempt + 1, delay);
        Run(rest.result, [delay] + rest.sleeps)
      case Failed | RemovedThenFailed =>
        if attempt == maxRetries - 1 then Run(Raised, [])
        else
          var rest := RetryFrom(outcomes, maxRetries, attempt + 1, delay * 2);
          Run(rest.result, [delay] + rest.sleeps)
  }

  /** The call writes the file exactly when one of the remaining attempts
      meets no error, and raises exactly when none does and the last one
      fails with an error other than the win32 PermissionError. */
  lemma {:induction false} RetryOutcome(outcomes: seq<Attempt>, maxRetries: nat, attempt: nat, delay: nat)
    requires maxRetries <= |outcomes| && attempt <= maxRetries
    ensures var r := RetryFrom(outcomes, maxRetries, attempt, delay);
            && (r.result == Returned(true) <==> Written in outcomes[attempt..maxRetries])
            && (r.result == Raised <==>
                  Written !in outcomes[attempt..maxRetries] && attempt < maxRetries && Fails(outcomes[maxRetries - 1]))
    decreases maxRetries - attempt
  {
    if attempt < maxRetries {
      assert outcomes[attempt..maxRetries] == [outcomes[attempt]] + outcomes[attempt + 1..maxRetries];
      if outcomes[attempt] != Written && !(Fails(outcomes[attempt]) && attempt == maxRetries - 1) {
        RetryOutcome(outcomes, maxRetries, attempt + 1, if Fails(outcomes[attempt]) then delay * 2 else delay);
      }
    }
  }

  /** There is one sleep after each attempt that did not write the file, and
      the call stops at the first attempt that did, after the failure of the
      last attempt, or when the attempts run out. */
  lemma {:induction false} RetryStops(outcomes: seq<Attempt>, maxRetries: nat, attempt: nat, delay: nat)
    requires maxRetries <= |outcomes| && attempt <= maxRetries
    ensures var r := RetryFrom(outcomes, maxRetries, attempt, delay);
            && attempt + |r.sleeps| <= maxRetries
            && (forall j :: attempt <= j < attempt + |r.sleeps| ==> outcomes[j] != Written)
            && (r.result == Returned(false) ==> attempt + |r.sleeps| == maxRetries)
            && (r.result == Returned(true) ==> attempt + |r.sleeps| < maxRetries && outcomes[attempt + |r.sleeps|] == Written)
            && (r.result == Raised ==> attempt + |r.sleeps| == maxRetries - 1)
    decreases maxRetries - attempt
  {
    if attempt < maxRetries && outcomes[attempt] != Written && !(Fails(outcomes[attempt]) && attempt == maxRetries - 1) {
      RetryStops(outcomes, maxRetries, attempt + 1, if Fails(outcomes[attempt]) then delay * 2 else delay);
    }
  }

  /** Whether the call, from attempt number `attempt` on, removes the old
      database file: an attempt that removes it and then fails is made before
      the call stops. */
  function RemovedFrom(outcomes: seq<Attempt>, maxRetries: nat, attempt: nat): bool
    requires maxRetries <= |outcomes| && attempt <= maxRetries
    decreases maxRetries - attempt
  {
    if attempt == maxRetries then false
    else
      match outcomes[attempt]
      case Written => false
      case RemovedThenFailed => true
      case RemoveDenied => RemovedFrom(outcomes, maxRetries, attempt + 1)
      case Failed => attempt < maxRetries - 1 && RemovedFrom(outcomes, maxRetries, attempt + 1)
  }

  /** The number of attempts a run makes: one per sleep, plus the final one
      unless the attempts ran out. */
  function AttemptsMade(r: Run): nat {
    |r.sleeps| + (if r.result == Returned(false) then 0 else 1)
  }

  /** The old database file is removed exactly when one of the attempts the
      call actually makes removes it and then fails. */
  lemma {:induction false} RemovedIff(outcomes: seq<Attempt>, maxRetries: nat, attempt: nat, delay: nat)
    requires maxRetries <= |outcomes| && attempt <= maxRetries
    ensures attempt + AttemptsMade(RetryFrom(outcomes, maxRetries, attempt, delay)) <= maxRetries
    ensures RemovedFrom(outcomes, maxRetries, attempt)
            <==> RemovedThenFailed in outcomes[attempt..attempt + AttemptsMade(RetryFrom(outcomes, maxRetries, attempt, delay))]
    decreases maxRetries - attempt
  {
    RetryStops(outcomes, maxRetries, attempt, delay);
    if attempt < maxRetries {
      var o := outcomes[attempt];
      var n := AttemptsMade(RetryFrom(outcomes, maxRetries, attempt, delay));
      if o == RemoveDenied || (Fails(o) && attempt < maxRetries - 1) {
        var d := if Fails(o) then delay * 2 else delay;
        RemovedIff(outcomes, maxRetries, attempt + 1, d);
        var m := AttemptsMade(RetryFrom(outcomes, maxRetries, attempt + 1, d));
        assert n == m + 1;
        assert outcomes[attempt..attempt + n] == [o] + outcomes[attempt + 1..attempt + 1 + m];
      } else {
        assert n == 1;
        assert outcomes[attempt..attempt + n] == [o];
      }
    }
  }

  /** The whole call `_save_db_with_retry(max_retries, delay)`. */
  function Retry(outcomes: seq<Attempt>, maxRetries: nat, delay: nat): Run
    requires maxRetries <= |outcomes|
  {
    RetryFrom(outcomes, maxRetries, 0, delay)
  }

  /** The loop itself, with `return` and `raise` as early exits; `removed`
      records the effect on the file system of an attempt that removed the
      database file before failing. */
  method SaveWithRetry(outcomes: seq<Attempt>, maxRetries: nat, delay0: nat)
    returns (result: SaveResult, sleeps: seq<nat>, removed: bool)
    requires maxRetries <= |outcomes|
    ensures Run(result, sleeps) == Retry(outcomes, maxRetries, delay0)
    ensures removed == RemovedFrom(outcomes, maxRetries, 0)
  {
    var delay := delay0;
    var attempt := 0;
    sleeps := [];
    removed := false;
    while attempt < maxRetries
      invariant attempt <= maxRetries
      invariant RemovedFrom(outcomes, maxRetries, 0) == (removed || RemovedFrom(outcomes, maxRetries, attempt))
      invariant Retry(outcomes, maxRetries, delay0)
                == Run(RetryFrom(outcomes, maxRetries, attempt, delay).result,
                       sleeps + RetryFrom(outcomes, maxRetries, attempt, delay).sleeps)
    {
      ghost var cur := RetryFrom(outcomes, maxRetries, attempt, delay);
      ghost var rest := RetryFrom(outcomes, maxRetries, attempt + 1, if Fails(outcomes[attempt]) then delay * 2 else delay);
      if outcomes[attempt] == RemovedThenFailed {
        removed := true;
      }
      match outcomes[attempt]
      case Written =>
        result := Returned(true);
        assert cur == Run(Returned(true), []);
        assert sleeps + [] == sleeps;
        return;
      case RemoveDenied =>
        assert cur == Run(rest.result, [delay] + rest.sleeps);
        assert sleeps + ([delay] + rest.sleeps) == (sleeps + [delay]) + rest.sleeps;
        sleeps := sleeps + [delay];
        attempt := attempt + 1;
      case Failed | RemovedThenFailed =>
        if attempt == maxRetries - 1 {
          result := Raised;
          assert cur == Run(Raised, []);
          assert sleeps + [] == sleeps;
          return;
        }
        assert cur == Run(rest.result, [delay] + rest.sleeps);
        assert sleeps + ([delay] + rest.sleeps) == (sleeps + [delay]) + rest.sleeps;
        sleeps := sleeps + [delay];
        delay := delay * 2;
        attempt := attempt + 1;
    }
    result := Returned(false);
    assert sleeps + [] == sleeps;
  }

  /** Every sleep lasts the initial delay doubled once per earlier failure. */
  lemma {:induction false} RetrySleepDelays(outcomes: seq<Attempt>, maxRetries: nat, attempt: nat, delay: nat, j: nat)
    requires maxRetries <= |outcomes| && attempt <= maxRetries
    requires j < |RetryFrom(outcomes, maxRetries, attempt, delay).sleeps|
    ensures attempt + j < maxRetries
    ensures RetryFrom(outcomes, maxRetries, attempt, delay).sleeps[j]
            == delay * Pow2(CountFailed(outcomes[attempt..attempt + j]))
    decreases maxRetries - attempt
  {
    RetryStops(outcomes, maxRetries, attempt, delay);
    var o := outcomes[attempt];
    assert outcomes[attempt..attempt] == [];
    if j > 0 {
      var d := if Fails(o) then delay * 2 else delay;
      RetrySleepDelays(outcomes, maxRetries, attempt + 1, d, j - 1);
      var s := outcomes[attempt..attempt + j];
      assert s[0] == o && s[1..] == outcomes[attempt + 1..attempt + 1 + (j - 1)];
      var c := CountFailed(s[1..]);
      if Fails(o) {
        calc {
          d * Pow2(c);
          delay * (2 * Pow2(c));
          delay * Pow2(c + 1);
        }
      }
    }
  }

  lemma SleepStep(delay: nat, p: nat, rest: nat, doubled: bool)
    requires p >= 1
    requires rest <= (if doubled then 2 * delay else delay) * (p - 1)
    ensures delay + rest <= delay * (2 * p - 1)
  {
    assert delay * (2 * p - 1) == delay * (p - 1) + delay * p;
    assert (2 * delay) * (p - 1) == delay * (p - 1) + delay * (p - 1);
    assert delay <= delay * p;
  }

  /** The total time slept is at most `delay * (2^max_retries - 1)`: with the
      defaults, 1 + 2 + 4 = 7 time units. */
  lemma {:induction false} RetrySleepBound(outcomes: seq<Attempt>, maxRetries: nat, attempt: nat, delay: nat)
    requires maxRetries <= |outcomes| && attempt <= maxRetries
    ensures Sum(RetryFrom(outcomes, maxRetries, attempt, delay).sleeps) <= delay * (Pow2(maxRetries - attempt) - 1)
    decreases maxRetries - attempt
  {
    if attempt < maxRetries {
      var k := maxRetries - attempt;
      var p := Pow2(k - 1);
      assert Pow2(k) == 2 * p;
      var o := outcomes[attempt];
      if o == RemoveDenied || (Fails(o) && attempt < maxRetries - 1) {
        var d := if Fails(o) then delay * 2 else delay;
        RetrySleepBound(outcomes, maxRetries, attempt + 1, d);
        var rest := RetryFrom(outcomes, maxRetries, attempt + 1, d);
        assert RetryFrom(outcomes, maxRetries, attempt, delay).sleeps == [delay] + rest.sleeps;
        assert Sum([delay] + rest.sleeps) == delay + Sum(rest.sleeps);
        SleepStep(delay, p, Sum(rest.sleeps), Fails(o));
      }
    }
  }

  lemma {:induction false} CountFailedAll(s: seq<Attempt>)
    requires forall i :: 0 <= i < |s| ==> Fails(s[i])
    ensures CountFailed(s) == |s|
  {
    if s != [] {
      CountFailedAll(s[1..]);
    }
  }

  /** When every attempt fails, the exception of the last one propagates after
      sleeps of 1, 2, 4, ... times the delay between the attempts. */
  lemma AllFailedRaises(outcomes: seq<Attempt>, maxRetries: nat, delay: nat)
    requires 0 < maxRetries <= |outcomes|
    requires forall i :: 0 <= i < maxRetries ==> Fails(outcomes[i])
    ensures Retry(outcomes, maxRetries, delay).result == Raised
    ensures |Retry(outcomes, maxRetries, delay).sleeps| == maxRetries - 1
    ensures forall j :: 0 <= j < maxRetries - 1 ==> Retry(outcomes, maxRetries, delay).sleeps[j] == delay * Pow2(j)
  {
    var r := Retry(outcomes, maxRetries, delay);
    RetryOutcome(outcomes, maxRetries, 0, delay);
    RetryStops(outcomes, maxRetries, 0, delay);
    assert Written !in outcomes[0..maxRetries];
    forall j | 0 <= j < maxRetries - 1
      ensures r.sleeps[j] == delay * Pow2(j)
    {
      RetrySleepDelays(outcomes, maxRetries, 0, delay, j);
      CountFailedAll(outcomes[0..j]);
    }
  }

  /** When every attempt meets the win32 PermissionError, the call sleeps the
      same, undoubled delay after each attempt and then returns normally
      without having written anything. */
  lemma AllRemoveDeniedReturns(outcomes: seq<Attempt>, maxRetries: nat, delay: nat)
    requires maxRetries <= |outcomes|
    requires forall i :: 0 <= i < maxRetries ==> outcomes[i] == RemoveDenied
    ensures Retry(outcomes, maxRetries, delay).result == Returned(false)
    ensures |Retry(outcomes, maxRetries, delay).sleeps| == maxRetries
    ensures forall j :: 0 <= j < maxRetries ==> Retry(outcomes, maxRetries, delay).sleeps[j] == delay
  {
    var r := Retry(outcomes, maxRetries, delay);
    RetryOutcome(outcomes, maxRetries, 0, delay);
    RetryStops(outcomes, maxRetries, 0, delay);
    assert Written !in outcomes[0..maxRetries];
    forall j | 0 <= j < maxRetries
      ensures r.sleeps[j] == delay
    {
      RetrySleepDelays(outcomes, maxRetries, 0, delay, j);
      CountFailedNone(outcomes[0..j]);
    }
  }

  lemma {:induction false} CountFailedNone(s: seq<Attempt>)
    requires forall i :: 0 <= i < |s| ==> !Fails(s[i])
    ensures CountFailed(s) == 0
  {
    if s != [] {
      CountFailedNone(s[1..]);
    }
  }

  /** A write that fails twice and then succeeds returns without error after
      sleeping 1 and then 2 time units. */
  lemma FailTwiceThenWrite()
    ensures Retry([Failed, Failed, Written], MaxRetries, InitialDelay) == Run(Returned(true), [1, 2])
  {
    var o := [Failed, Failed, Written];
    assert RetryFrom(o, 3, 2, 4) == Run(Returned(true), []);
    assert RetryFrom(o, 3, 1, 2) == Run(Returned(true), [2]);
  }

  /** With the worker's defaults, one call sleeps at most 7 time units in all. */
  lemma DefaultSleepBound(outcomes: seq<Attempt>)
    requires MaxRetries <= |outcomes|
    ensures Sum(Retry(outcomes, MaxRetries, InitialDelay).sleeps) <= 7
  {
    RetrySleepBound(outcomes, MaxRetries, 0, InitialDelay);
    assert Pow2(3) == 8;
  }

  /** Two failures and then the win32 PermissionError: the call sleeps after
      every attempt, the last one included, and returns normally although
      nothing was written. */
  lemma FailTwiceThenDenied()
    ensures Retry([Failed, Failed, RemoveDenied], MaxRetries, InitialDelay) == Run(Returned(false), [1, 2, 4])
  {
    var o := [Failed, Failed, RemoveDenied];
    assert RetryFrom(o, 3, 3, 4) == Run(Returned(false), []);
    assert RetryFrom(o, 3, 2, 4) == Run(Returned(false), [4]);
    assert RetryFrom(o, 3, 1, 2) == Run(Returned(false), [2, 4]);
  }

  /** On win32, removing the old file and then failing the rename, followed by
      two more failures, raises after sleeping 1 and 2 time units and leaves
      no database file. */
  lemma RemovedThenFailingLosesFile()
    ensures Retry([RemovedThenFailed, Failed, Failed], MaxRetries, InitialDelay) == Run(Raised, [1, 2])
    ensures RemovedFrom([RemovedThenFailed, Failed, Failed], MaxRetries, 0)
  {
    var o := [RemovedThenFailed, Failed, Failed];
    assert RetryFrom(o, 3, 2, 4) == Run(Raised, []);
    assert RetryFrom(o, 3, 1, 2) == Run(Raised, [2]);
  }
}
