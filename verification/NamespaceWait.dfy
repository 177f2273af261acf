/**
 Waiting for the gateway's namespace: bounded polling with backoff and an early DNS verdict.
 */
module NamespaceWait {

  const ATTEMPTS := 60
  const MAX_BACKOFF := 2000
  const FIRST_BACKOFF := 200
  const DNS_PROBE_START := 3
  const DNS_PROBE_INTERVAL := 3
  const DNS_FAILURE_THRESHOLD := 2

  /** A DNS probe: resolution works, resolution fails, or the probe could not be run. */
  datatype Probe = Resolves | FailsToResolve | NotRun

  /** A look at the namespace: it is there, it is not, or the look failed with the container up or down. */
  datatype Look = Present | Absent | ExecFailed(running: bool)

  /** What each attempt would see. */
  datatype World = World(probe: nat -> Probe, look: nat -> Look)

  datatype Verdict = Ready | DnsBroken | ContainerDown | ExecFailedAtEnd | TimedOut

  predicate IsProbed(attempt: nat) {
    attempt >= DNS_PROBE_START && (attempt - DNS_PROBE_START) % DNS_PROBE_INTERVAL == 0
  }

  /** The probe of this attempt is made and fails. */
  predicate ProbeFails(w: World, attempt: nat) {
    IsProbed(attempt) && w.probe(attempt).FailsToResolve?
  }

  predicate ProbeSucceeds(w: World, attempt: nat) {
    IsProbed(attempt) && w.probe(attempt).Resolves?
  }

  /** The verdict that looking at the namespace gives at this attempt, if it ends the wait. */
  function LookVerdict(w: World, attempt: nat): (v: seq<Verdict>)
    ensures |v| <= 1
  {
    match w.look(attempt)
    case Present => [Ready]
    case Absent => if attempt + 1 == ATTEMPTS then [TimedOut] else []
    case ExecFailed(running) =>
      if !running then [ContainerDown] else if attempt + 1 == ATTEMPTS then [ExecFailedAtEnd] else []
  }

  /** The probes are made at attempts 3, 6, 9 and so on. */
  lemma ProbedEveryThird(attempt: nat)
    ensures IsProbed(attempt) <==> attempt >= 3 && attempt % 3 == 0
  {
  }

  /** Two failed probes with no successful one between them, the later one at this attempt. */
  ghost predicate DnsVerdict(w: World, attempt: nat) {
    && ProbeFails(w, attempt)
    && exists j | 0 <= j < attempt :: ProbeFails(w, j) && forall k | j < k < attempt :: !ProbeSucceeds(w, k)
  }

  /** Nothing ends the wait before this attempt. */
  ghost predicate GoesOnUntil(w: World, attempt: nat) {
    forall a | 0 <= a < attempt :: !DnsVerdict(w, a) && LookVerdict(w, a) == []
  }

  /** The verdict reached at an attempt that is reached. */
  ghost predicate EndsAt(w: World, attempt: nat, v: Verdict) {
    && GoesOnUntil(w, attempt)
    && if DnsVerdict(w, attempt) then v == DnsBroken else LookVerdict(w, attempt) == [v]
  }

  /** Failed probes since the last successful one, as the loop counts them. */
  ghost predicate Counts(w: World, attempt: nat, failures: nat) {
    && (failures > 0 <==> exists j | 0 <= j < attempt :: ProbeFails(w, j) && forall k | j < k < attempt :: !ProbeSucceeds(w, k))
    && failures < DNS_FAILURE_THRESHOLD
  }

  /** The sleep before a further attempt. */
  function Backoff(attempt: nat): nat {
    if attempt == 0 then FIRST_BACKOFF else
      var doubled := 2 * Backoff(attempt - 1);
      if doubled < MAX_BACKOFF then doubled else MAX_BACKOFF
  }

  /** All the sleep of the attempts before this one. */
  function TotalSleep(attempt: nat): nat {
    if attempt == 0 then 0 else TotalSleep(attempt - 1) + Backoff(attempt - 1)
  }

  lemma {:induction false} BackoffLevelsOff(attempt: nat)
    requires attempt >= 4
    ensures Backoff(attempt) == MAX_BACKOFF
    ensures TotalSleep(attempt) == 3000 + (attempt - 4) * MAX_BACKOFF
  {
    if attempt == 4 {
      assert Backoff(1) == 400 && Backoff(2) == 800 && Backoff(3) == 1600;
      assert TotalSleep(1) == 200 && TotalSleep(2) == 600 && TotalSleep(3) == 1400;
    } else {
      BackoffLevelsOff(attempt - 1);
    }
  }

  lemma {:induction false} SleepGrows(a: nat, b: nat)
    requires a <= b
    ensures TotalSleep(a) <= TotalSleep(b)
  {
    if a < b {
      SleepGrows(a, b - 1);
    }
  }

  /** At most 59 sleeps, and 113 seconds of them. */
  lemma SleepBound(attempt: nat)
    requires attempt < ATTEMPTS
    ensures TotalSleep(attempt) <= 113_000
    ensures TotalSleep(ATTEMPTS - 1) == 113_000
  {
    SleepGrows(attempt, ATTEMPTS - 1);
    BackoffLevelsOff(ATTEMPTS - 1);
  }

  /** At the last attempt looking always ends the wait. */
  lemma LastAttemptEnds(w: World)
    ensures LookVerdict(w, ATTEMPTS - 1) != []
  {
  }

  /**
   The wait ends within its attempts, with the one verdict that the outcomes call for, after sleeping
   the backoffs of the attempts before it and no more than 113 seconds.
   */
  method WaitForNamespace(w: World) returns (v: Verdict, attempt: nat, slept: nat)
    ensures attempt < 60 && EndsAt(w, attempt, v)
    ensures slept == TotalSleep(attempt) <= 113_000
  {
    var backoff := FIRST_BACKOFF;
    var failures := 0;
    slept := 0;
    attempt := 0;
    while attempt < ATTEMPTS
      invariant attempt < ATTEMPTS
      invariant GoesOnUntil(w, attempt) && Counts(w, attempt, failures)
      invariant backoff == Backoff(attempt) && slept == TotalSleep(attempt)
      decreases ATTEMPTS - attempt
    {
      SleepBound(attempt);
      LastAttemptEnds(w);
      ghost var before := failures;
      if IsProbed(attempt) {
        match w.probe(attempt) {
          case Resolves => failures := 0;
          case FailsToResolve =>
            failures := failures + 1;
            if failures >= DNS_FAILURE_THRESHOLD {
              return DnsBroken, attempt, slept;
            }
          case NotRun =>
        }
      }
      CountStep(w, attempt, before, failures);
      match w.look(attempt) {
        case ExecFailed(running) =>
          if !running { return ContainerDown, attempt, slept; }
          if attempt + 1 == ATTEMPTS { return ExecFailedAtEnd, attempt, slept; }
        case Present =>
          return Ready, attempt, slept;
        case Absent =>
          if attempt + 1 == ATTEMPTS { return TimedOut, attempt, slept; }
      }
      slept := slept + backoff;
      backoff := if 2 * backoff < MAX_BACKOFF then 2 * backoff else MAX_BACKOFF;
      attempt := attempt + 1;
    }
    assert false;
  }

  /** The loop's count after an attempt's probe, unless the probe ends the wait. */
  lemma CountStep(w: World, attempt: nat, before: nat, after: nat)
    requires Counts(w, attempt, before)
    requires after == if ProbeSucceeds(w, attempt) then 0 else if ProbeFails(w, attempt) then before + 1 else before
    requires after < DNS_FAILURE_THRESHOLD
    ensures Counts(w, attempt + 1, after) && !DnsVerdict(w, attempt)
  {
    if !ProbeFails(w, attempt) && !ProbeSucceeds(w, attempt) && before > 0 {
      var j :| 0 <= j < attempt && ProbeFails(w, j) && forall k | j < k < attempt :: !ProbeSucceeds(w, k);
      assert forall k | j < k < attempt + 1 :: !ProbeSucceeds(w, k);
    }
    if j :| 0 <= j < attempt + 1 && ProbeFails(w, j) && forall k | j < k < attempt + 1 :: !ProbeSucceeds(w, k) {
      assert j < attempt ==> forall k | j < k < attempt :: !ProbeSucceeds(w, k);
    }
  }

  /** What each verdict says about the attempt it is reached at, and about those before. */
  lemma VerdictsMean(w: World, attempt: nat, v: Verdict)
    requires attempt < 60 && EndsAt(w, attempt, v)
    ensures v == DnsBroken ==> w.probe(attempt) == FailsToResolve && attempt >= 6 && attempt % 3 == 0
    ensures v == Ready ==> w.look(attempt) == Present
    ensures v == ContainerDown ==> w.look(attempt) == ExecFailed(false)
    ensures v == ExecFailedAtEnd ==> w.look(attempt) == ExecFailed(true) && attempt == 59
    ensures v == TimedOut ==> w.look(attempt) == Absent && attempt == 59
    ensures forall a | 0 <= a < attempt :: w.look(a) == Absent || w.look(a) == ExecFailed(true)
  {
    if v != DnsBroken {
      assert [v][0] == v;
    }
    forall a | 0 <= a < attempt ensures w.look(a) == Absent || w.look(a) == ExecFailed(true) {
      assert LookVerdict(w, a) == [];
    }
  }

  /** The verdict and the attempt are determined: no two ends are possible. */
  lemma EndIsUnique(w: World, a: nat, v: Verdict, b: nat, u: Verdict)
    requires EndsAt(w, a, v) && EndsAt(w, b, u)
    ensures a == b && v == u
  {
    if a == b {
      assert [v][0] == v && [u][0] == u;
    }
  }

  /** In other words: the DNS error exactly if two such probes come before any other end. */
  lemma DnsErrorExactly(w: World, attempt: nat, v: Verdict)
    requires attempt < ATTEMPTS && EndsAt(w, attempt, v)
    ensures v == DnsBroken <==>
              exists a | 0 <= a < ATTEMPTS :: DnsVerdict(w, a) && forall b | 0 <= b < a :: LookVerdict(w, b) == []
  {
    if a :| 0 <= a < ATTEMPTS && DnsVerdict(w, a) && forall b | 0 <= b < a :: LookVerdict(w, b) == [] {
      assert attempt <= a;
      assert attempt < a ==> LookVerdict(w, attempt) == [];
    }
  }
}
