/** Any number of indexer processes over one queue: apps/indexer/cmd/main.go's side of the
    lease protocol, as steps on the shared table and each process's own memory. */
module Workers {
  import opened Common
  import opened Jobs

  /** What one process remembers of the job it leased. */
  datatype Worker = Idle | Working(job: JobId, attempt: nat, cloned: bool)

  /** One configuration for every worker. */
  datatype Config = Config(retryBase: nat, retryMax: nat, tries: int, lease: nat, history: int)

  /** issued is every job id ever inserted; clones is the log of clones started. */
  datatype System = System(
    rows: Table, workers: map<WorkerId, Worker>, issued: set<JobId>, clones: seq<(JobId, nat)>)

  /** landed is whether a write reached the database before its deadline. */
  datatype Event =
    | Submit(id: JobId, remote: string, ref: string, now: int)
    | TakeLease(worker: WorkerId, job: JobId, now: int)
    | StartClone(worker: WorkerId, job: JobId)
    | Finish(worker: WorkerId, repoId: string, now: int, landed: bool)
    | Fail(worker: WorkerId, reason: string, now: int, landed: bool)
    | FailFinally(worker: WorkerId, reason: string, now: int, landed: bool)
    | Crash(worker: WorkerId)
    | Sweep(now: int)

  function At(s: System, w: WorkerId): Worker {
    if w in s.workers then s.workers[w] else Idle
  }

  /** The table after a verdict of worker w about its own job. */
  function Verdict(c: Config, s: System, e: Event): Table
    requires e.Finish? || e.Fail? || e.FailFinally?
    requires At(s, e.worker).Working?
  {
    var id := At(s, e.worker).job;
    if !e.landed then s.rows
    else match e
      case Finish(w, repoId, now, _) => Completed(s.rows, id, w, repoId, now)
      case Fail(w, reason, now, _) => FailedBy(s.rows, c.retryBase, c.retryMax, id, w, reason, c.tries, now)
      case FailFinally(w, reason, now, _) => FailedBy(s.rows, c.retryBase, c.retryMax, id, w, reason, 0, now)
  }

  predicate IsVerdict(e: Event) {
    e.Finish? || e.Fail? || e.FailFinally?
  }

  /** One atomic step. A worker over the shared cap may only end the job, and the write
      that closes a job out ends the worker's hold on it whether or not it landed. */
  ghost predicate Next(c: Config, s: System, e: Event, s': System) {
    match e
    case Submit(id, remote, ref, now) =>
      id !in s.issued &&
      (exists got :: Enqueued(s.rows, s'.rows, id, remote, ref, now, got)) &&
      s' == s.(rows := s'.rows, issued := s.issued + {id})
    case TakeLease(w, job, now) =>
      At(s, w).Idle? &&
      (exists locked :: Claims(s.rows, locked, now, job)) &&
      s' == s.(rows := s.rows[job := Take(s.rows[job], w, c.lease, now)],
               workers := s.workers[w := Working(job, s.rows[job].attempts + 1, false)])
    case StartClone(w, job) =>
      At(s, w).Working? && At(s, w).job == job && !At(s, w).cloned && At(s, w).attempt <= c.tries &&
      s' == s.(workers := s.workers[w := At(s, w).(cloned := true)],
               clones := s.clones + [(job, At(s, w).attempt)])
    case Crash(w) =>
      s' == s.(workers := s.workers[w := Idle])
    case Sweep(now) =>
      s' == s.(rows := Swept(s.rows, c.history, now))
    case _ =>
      At(s, e.worker).Working? &&
      (At(s, e.worker).attempt > c.tries ==> e.FailFinally?) &&
      s' == s.(rows := Verdict(c, s, e), workers := s.workers[e.worker := Idle])
  }

  const EMPTY := System(map[], map[], {}, [])

  // ---------- what every step keeps ----------

  /** When a waiting job may be leased again: never held back before its first lease. */
  function RetryAt(c: Config, j: Job): Option<int> {
    if j.attempts == 0 then None else Some(j.updatedAt + Backoff(c.retryBase, c.retryMax, j.attempts))
  }

  ghost predicate RowOk(c: Config, j: Job) {
    && (j.status == Leased <==> j.leasedBy.Some?)
    && (j.status == Leased ==> j.attempts >= 1 && j.leasedUntil == Some(j.updatedAt + c.lease))
    && (Terminal(j) ==> j.leasedUntil == None)
    && (j.status == Pending ==> j.leasedUntil == RetryAt(c, j))
  }

  /** One active job to a repository and ref. */
  ghost predicate OneActive(t: Table) {
    forall a, b :: a in t && b in t && Active(t[a]) && Active(t[b]) && SameTarget(t[a], t[b]) ==> a == b
  }

  predicate SameTarget(a: Job, b: Job) {
    Lower(a.remote) == Lower(b.remote) && a.ref == b.ref
  }

  /** What worker w remembers is no newer than the row, and is current while w is the lessee. */
  ghost predicate Fenced(s: System, w: WorkerId) {
    var me := At(s, w);
    me.Working? ==>
      && me.job in s.issued && me.attempt >= 1
      && (me.job in s.rows ==> me.attempt <= s.rows[me.job].attempts)
      && (Holds(s.rows, me.job, w) ==> me.attempt == s.rows[me.job].attempts)
      && (!me.cloned ==> (me.job, me.attempt) !in s.clones)
  }

  ghost predicate CloneOk(c: Config, s: System, e: (JobId, nat)) {
    e.0 in s.issued && 1 <= e.1 <= c.tries && (e.0 in s.rows ==> e.1 <= s.rows[e.0].attempts)
  }

  ghost predicate Apart(s: System, v: WorkerId, w: WorkerId) {
    var a, b := At(s, v), At(s, w);
    a.Working? && b.Working? && a.job == b.job ==> a.attempt != b.attempt
  }

  ghost predicate Inv(c: Config, s: System) {
    && (forall k :: k in s.rows ==> k in s.issued && RowOk(c, s.rows[k]))
    && OneActive(s.rows)
    && (forall w :: Fenced(s, w))
    && (forall v, w :: v != w ==> Apart(s, v, w))
    && (forall i :: 0 <= i < |s.clones| ==> CloneOk(c, s, s.clones[i]))
    && (forall i, j :: 0 <= i < j < |s.clones| ==> s.clones[i] != s.clones[j])
  }

  /** A step that swaps one row for a later version of itself. */
  ghost predicate Rewrites(c: Config, t: Table, k: JobId, j: Job) {
    && k in t && RowOk(c, j) && SameTarget(j, t[k])
    && (Active(j) ==> Active(t[k])) && t[k].attempts <= j.attempts
  }

  lemma VerdictRewrites(c: Config, s: System, e: Event)
    requires Inv(c, s) && IsVerdict(e) && At(s, e.worker).Working?
    ensures var k := At(s, e.worker).job;
      Verdict(c, s, e) == s.rows ||
      (Holds(s.rows, k, e.worker) && e.landed && k in Verdict(c, s, e) &&
       Verdict(c, s, e) == s.rows[k := Verdict(c, s, e)[k]] &&
       Rewrites(c, s.rows, k, Verdict(c, s, e)[k]) &&
       Verdict(c, s, e)[k].leasedBy.None? && Verdict(c, s, e)[k].attempts == s.rows[k].attempts)
  {
  }

  lemma InvVerdict(c: Config, s: System, e: Event, s': System)
    requires Inv(c, s) && Next(c, s, e, s') && IsVerdict(e)
    ensures Inv(c, s')
  {
    var k := At(s, e.worker).job;
    VerdictRewrites(c, s, e);
    forall w ensures Fenced(s', w) {
      assert Fenced(s, w);
    }
    assert forall v, w :: v != w ==> Apart(s, v, w) ==> Apart(s', v, w);
    assert forall i :: 0 <= i < |s.clones| ==> CloneOk(c, s, s.clones[i]) ==> CloneOk(c, s', s.clones[i]);
  }

  lemma InvLease(c: Config, s: System, e: Event, s': System)
    requires Inv(c, s) && Next(c, s, e, s') && e.TakeLease?
    ensures Inv(c, s')
  {
    var k := e.job;
    forall w ensures Fenced(s', w) {
      assert Fenced(s, w);
    }
    forall v, w | v != w ensures Apart(s', v, w) {
      assert Apart(s, v, w) && Fenced(s, v) && Fenced(s, w);
    }
    assert forall i :: 0 <= i < |s.clones| ==> CloneOk(c, s, s.clones[i]) ==> CloneOk(c, s', s.clones[i]);
  }

  lemma InvSubmit(c: Config, s: System, e: Event, s': System)
    requires Inv(c, s) && Next(c, s, e, s') && e.Submit?
    ensures Inv(c, s')
  {
    var got :| Enqueued(s.rows, s'.rows, e.id, e.remote, e.ref, e.now, got);
    assert e.id !in s.rows;
    if s'.rows != s.rows {
      assert forall k :: !Conflicts(s.rows, k, e.remote, e.ref);
      forall a, b | a in s'.rows && b in s'.rows && Active(s'.rows[a]) && Active(s'.rows[b])
        && SameTarget(s'.rows[a], s'.rows[b]) ensures a == b
      {
        assert !Conflicts(s.rows, a, e.remote, e.ref) && !Conflicts(s.rows, b, e.remote, e.ref);
      }
    }
    forall w ensures Fenced(s', w) {
      assert Fenced(s, w);
    }
    assert forall v, w :: v != w ==> Apart(s, v, w) ==> Apart(s', v, w);
    assert forall i :: 0 <= i < |s.clones| ==> CloneOk(c, s, s.clones[i]) ==> CloneOk(c, s', s.clones[i]);
  }

  lemma InvLocal(c: Config, s: System, e: Event, s': System)
    requires Inv(c, s) && Next(c, s, e, s') && (e.StartClone? || e.Crash? || e.Sweep?)
    ensures Inv(c, s')
  {
    forall w ensures Fenced(s', w) {
      assert Fenced(s, w);
      if e.StartClone? {
        assert Fenced(s, e.worker);
        assert w != e.worker ==> Apart(s, w, e.worker);
      }
    }
    assert forall v, w :: v != w ==> Apart(s, v, w) ==> Apart(s', v, w);
    assert e.StartClone? ==> Fenced(s, e.worker);
    forall i | 0 <= i < |s'.clones| ensures CloneOk(c, s', s'.clones[i]) {
      assert i < |s.clones| ==> CloneOk(c, s, s.clones[i]);
    }
  }

  /** The protocol's invariant survives every step of every worker. */
  lemma InvStep(c: Config, s: System, e: Event, s': System)
    requires Inv(c, s) && Next(c, s, e, s')
    ensures Inv(c, s')
  {
    match e
    case Submit(_, _, _, _) => InvSubmit(c, s, e, s');
    case TakeLease(_, _, _) => InvLease(c, s, e, s');
    case StartClone(_, _) => InvLocal(c, s, e, s');
    case Crash(_) => InvLocal(c, s, e, s');
    case Sweep(_) => InvLocal(c, s, e, s');
    case _ => InvVerdict(c, s, e, s');
  }

  // ---------- whole runs ----------

  ghost predicate Run(c: Config, tr: seq<System>, evs: seq<Event>) {
    && |tr| == |evs| + 1 && tr[0] == EMPTY
    && forall i :: 0 <= i < |evs| ==> Next(c, tr[i], evs[i], tr[i + 1])
  }

  lemma {:induction false} RunInv(c: Config, tr: seq<System>, evs: seq<Event>, i: nat)
    requires Run(c, tr, evs) && i < |tr|
    ensures Inv(c, tr[i])
  {
    if i > 0 {
      RunInv(c, tr, evs, i - 1);
      InvStep(c, tr[i - 1], evs[i - 1], tr[i]);
    }
  }

  /** A verdict that reached the row: its writer was still the lessee. */
  ghost predicate Accepted(s: System, e: Event, j: JobId) {
    IsVerdict(e) && e.landed && At(s, e.worker).Working? && At(s, e.worker).job == j && Holds(s.rows, j, e.worker)
  }

  ghost predicate Leases(e: Event, j: JobId) {
    e.TakeLease? && e.job == j
  }

  /** A reachable row can be leased exactly when it never was, when its lease has run out, or
      when the wait after its last failure has passed; a finished one never can. */
  lemma ClaimableExactly(c: Config, tr: seq<System>, evs: seq<Event>, i: nat, j: JobId, now: int)
    requires Run(c, tr, evs) && i < |tr| && j in tr[i].rows
    ensures var row := tr[i].rows[j];
      Claimable(row, now) <==>
        match row.status
        case Pending => row.attempts == 0 || row.updatedAt + Backoff(c.retryBase, c.retryMax, row.attempts) < now
        case Leased => row.updatedAt + c.lease < now
        case Done => false
        case Failed => false
  {
    RunInv(c, tr, evs, i);
  }

  /** Who may change a row: the next lessee, the present lessee's verdict, or the sweep
      once a terminal row has aged out. Nobody else, however late they write. */
  lemma RowStep(c: Config, s: System, e: Event, s': System, j: JobId)
    requires Inv(c, s) && Next(c, s, e, s') && j in s.rows
    ensures
      || (j in s'.rows && s'.rows[j] == s.rows[j])
      || (j in s'.rows && Leases(e, j) && Claimable(s.rows[j], e.now))
      || (j in s'.rows && Accepted(s, e, j))
      || (j !in s'.rows && e.Sweep? && Stale(s.rows[j], c.history, e.now))
  {
    if IsVerdict(e) {
      VerdictRewrites(c, s, e);
    }
  }

  /** A worker that is no longer leased_by cannot move the table. */
  lemma LateVerdictChangesNothing(c: Config, s: System, e: Event, s': System)
    requires Next(c, s, e, s') && IsVerdict(e) && !Holds(s.rows, At(s, e.worker).job, e.worker)
    ensures s'.rows == s.rows
  {
  }

  /** An accepted verdict speaks of the row's latest lease, never an earlier one. */
  lemma AcceptedIsCurrent(c: Config, s: System, e: Event, j: JobId)
    requires Inv(c, s) && Accepted(s, e, j)
    ensures At(s, e.worker).attempt == s.rows[j].attempts && s.rows[j].status == Leased
  {
    assert Fenced(s, e.worker);
  }

  /** Nothing in [i, m) leases j or is accepted about it. */
  ghost predicate Quiet(tr: seq<System>, evs: seq<Event>, i: nat, m: nat, j: JobId)
    requires |tr| == |evs| + 1 && m <= |evs|
  {
    forall n :: i <= n < m ==> !Leases(evs[n], j) && !Accepted(tr[n], evs[n], j)
  }

  lemma {:induction false} QuietFreezes(c: Config, tr: seq<System>, evs: seq<Event>, i: nat, m: nat, j: JobId)
    requires Run(c, tr, evs) && i <= m <= |evs| && j in tr[i].rows && Active(tr[i].rows[j])
    requires Quiet(tr, evs, i, m, j)
    ensures j in tr[m].rows && tr[m].rows[j] == tr[i].rows[j]
    decreases m
  {
    if i < m {
      QuietFreezes(c, tr, evs, i, m - 1, j);
      RunInv(c, tr, evs, m - 1);
      RowStep(c, tr[m - 1], evs[m - 1], tr[m], j);
    }
  }

  /** The first accepted verdict about j in [i, m), or m when there is none. */
  lemma {:induction false} FirstAccepted(tr: seq<System>, evs: seq<Event>, i: nat, m: nat, j: JobId) returns (n: nat)
    requires |tr| == |evs| + 1 && i <= m <= |evs|
    requires forall x :: i <= x < m ==> !Leases(evs[x], j)
    ensures i <= n <= m && Quiet(tr, evs, i, n, j)
    ensures n < m ==> Accepted(tr[n], evs[n], j)
    decreases m - i
  {
    if i == m || Accepted(tr[i], evs[i], j) {
      n := i;
    } else {
      n := FirstAccepted(tr, evs, i + 1, m, j);
    }
  }

  /** Two successive leases of one job are separated by the first holder's accepted
      verdict, or by the first lease running out. */
  lemma LeasesAreSeparated(c: Config, tr: seq<System>, evs: seq<Event>, i: nat, k: nat, j: JobId)
    requires Run(c, tr, evs) && i < k < |evs| && Leases(evs[i], j) && Leases(evs[k], j)
    requires forall x :: i < x < k ==> !Leases(evs[x], j)
    ensures evs[i].now + c.lease < evs[k].now ||
      exists m :: i < m < k && Accepted(tr[m], evs[m], j) && evs[m].worker == evs[i].worker
  {
    assert Next(c, tr[i], evs[i], tr[i + 1]) && Next(c, tr[k], evs[k], tr[k + 1]);
    var n := FirstAccepted(tr, evs, i + 1, k, j);
    QuietFreezes(c, tr, evs, i + 1, n, j);
    RunInv(c, tr, evs, k);
  }

  /** No lease of a job falls inside the backoff of its last failed attempt. */
  lemma BackoffIsRespected(c: Config, tr: seq<System>, evs: seq<Event>, i: nat, k: nat, j: JobId)
    requires Run(c, tr, evs) && i < k < |evs| && Accepted(tr[i], evs[i], j) && Leases(evs[k], j)
    requires forall x :: i < x < k ==> !Leases(evs[x], j)
    ensures evs[i].Fail?
    ensures evs[i].now + Backoff(c.retryBase, c.retryMax, tr[i].rows[j].attempts) < evs[k].now
    ensures evs[i].now + Min(c.retryBase, c.retryMax) < evs[k].now
  {
    BackoffGrows(c.retryBase, c.retryMax, tr[i].rows[j].attempts, tr[i].rows[j].attempts);
    assert Next(c, tr[i], evs[i], tr[i + 1]) && Next(c, tr[k], evs[k], tr[k + 1]);
    RunInv(c, tr, evs, i);
    RunInv(c, tr, evs, i + 1);
    VerdictRewrites(c, tr[i], evs[i]);
    if Terminal(tr[i + 1].rows[j]) {
      TerminalIsFinal(c, tr, evs, i + 1, k, j);
      assert false;
    }
    StaysWaiting(c, tr, evs, i + 1, k, j);
  }

  /** A waiting row has no lessee, so only a lease can end its wait. */
  lemma {:induction false} StaysWaiting(c: Config, tr: seq<System>, evs: seq<Event>, i: nat, m: nat, j: JobId)
    requires Run(c, tr, evs) && i <= m <= |evs| && j in tr[i].rows && tr[i].rows[j].status == Pending
    requires forall x :: i <= x < m ==> !Leases(evs[x], j)
    ensures j in tr[m].rows && tr[m].rows[j] == tr[i].rows[j]
    decreases m
  {
    if i < m {
      StaysWaiting(c, tr, evs, i, m - 1, j);
      RunInv(c, tr, evs, m - 1);
      RowStep(c, tr[m - 1], evs[m - 1], tr[m], j);
    }
  }

  /** A finished job never runs again: its row stands unchanged until a sweep finds it
      older than the history window, and its id is never issued twice. */
  lemma {:induction false} TerminalIsFinal(c: Config, tr: seq<System>, evs: seq<Event>, i: nat, k: nat, j: JobId)
    requires Run(c, tr, evs) && i <= k < |tr| && j in tr[i].rows && Terminal(tr[i].rows[j])
    ensures j in tr[k].rows ==> tr[k].rows[j] == tr[i].rows[j]
    ensures j !in tr[k].rows ==>
      exists m :: i <= m < k && evs[m].Sweep? && tr[i].rows[j].updatedAt + c.history < evs[m].now
    ensures j in tr[k].issued
    decreases k
  {
    RunInv(c, tr, evs, i);
    if i < k {
      TerminalIsFinal(c, tr, evs, i, k - 1, j);
      RunInv(c, tr, evs, k - 1);
      if j in tr[k - 1].rows {
        RowStep(c, tr[k - 1], evs[k - 1], tr[k], j);
      }
    }
  }

  datatype Outcome = JobDone | JobRetried | JobFailed

  /** What the outcome counter records, from the worker's own memory of the attempt. */
  function Counted(c: Config, s: System, e: Event): Outcome
    requires IsVerdict(e) && At(s, e.worker).Working?
  {
    match e
    case Finish(w, _, _, landed) => if landed && Holds(s.rows, At(s, w).job, w) then JobDone else JobRetried
    case Fail(w, _, _, _) => if At(s, w).attempt >= c.tries then JobFailed else JobRetried
    case FailFinally(_, _, _, _) => JobFailed
  }

  /** Whenever a verdict lands, the counter says what the row says. */
  lemma CounterMatchesRow(c: Config, s: System, e: Event, s': System, j: JobId)
    requires Inv(c, s) && Next(c, s, e, s') && Accepted(s, e, j)
    ensures s'.rows[j].status ==
      (match Counted(c, s, e) case JobDone => Done case JobRetried => Pending case JobFailed => Failed)
  {
    AcceptedIsCurrent(c, s, e, j);
  }

  // ---------- the clone budget ----------

  function CloneStarts(evs: seq<Event>, j: JobId): nat {
    if evs == [] then 0
    else CloneStarts(evs[..|evs| - 1], j) + Starts(evs[|evs| - 1], j)
  }

  ghost function AttemptsOf(log: seq<(JobId, nat)>, j: JobId): set<nat> {
    set i | 0 <= i < |log| && log[i].0 == j :: log[i].1
  }

  ghost function UpTo(n: nat): set<nat> {
    if n == 0 then {} else UpTo(n - 1) + {n}
  }

  lemma {:induction false} UpToSize(n: nat)
    ensures |UpTo(n)| == n
    ensures forall a: nat :: a in UpTo(n) <==> 1 <= a <= n
  {
    if n > 0 {
      UpToSize(n - 1);
    }
  }

  function Starts(e: Event, j: JobId): nat {
    if e.StartClone? && e.job == j then 1 else 0
  }

  lemma LogStep(c: Config, s: System, e: Event, s': System, j: JobId)
    requires Next(c, s, e, s') && Inv(c, s')
    ensures |AttemptsOf(s'.clones, j)| == |AttemptsOf(s.clones, j)| + Starts(e, j)
  {
    if e.StartClone? {
      var log, last := s.clones, s'.clones[|s.clones|];
      AttemptsGrow(log, last, j);
      assert forall i :: 0 <= i < |log| ==> s'.clones[i] == log[i];
    }
  }

  lemma {:induction false} StartsAreLogged(c: Config, tr: seq<System>, evs: seq<Event>, n: nat, j: JobId)
    requires Run(c, tr, evs) && n <= |evs|
    ensures CloneStarts(evs[..n], j) == |AttemptsOf(tr[n].clones, j)|
  {
    if n == 0 {
      assert AttemptsOf(tr[0].clones, j) == {};
    } else {
      StartsAreLogged(c, tr, evs, n - 1, j);
      RunInv(c, tr, evs, n);
      assert evs[..n][..n - 1] == evs[..n - 1];
      LogStep(c, tr[n - 1], evs[n - 1], tr[n], j);
    }
  }

  lemma AttemptsGrow(log: seq<(JobId, nat)>, e: (JobId, nat), j: JobId)
    ensures AttemptsOf(log + [e], j) == AttemptsOf(log, j) + (if e.0 == j then {e.1} else {})
  {
    var longer := log + [e];
    assert longer[|log|] == e && forall i :: 0 <= i < |log| ==> longer[i] == log[i];
    forall a | a in AttemptsOf(log, j) ensures a in AttemptsOf(longer, j) {
      var i :| 0 <= i < |log| && log[i].0 == j && log[i].1 == a;
      assert longer[i].0 == j && longer[i].1 == a;
    }
  }

  /** However often workers die, hang or lose their leases, a job's repository is cloned
      at most MAX_ATTEMPTS times. */
  lemma ClonesAreBounded(c: Config, tr: seq<System>, evs: seq<Event>, j: JobId)
    requires Run(c, tr, evs)
    ensures CloneStarts(evs, j) <= Max(0, c.tries)
  {
    var n := |evs|;
    StartsAreLogged(c, tr, evs, n, j);
    RunInv(c, tr, evs, n);
    assert evs[..n] == evs;
    var log := tr[n].clones;
    assert forall i :: 0 <= i < |log| ==> CloneOk(c, tr[n], log[i]);
    UpToSize(Max(0, c.tries));
    assert AttemptsOf(log, j) <= UpTo(Max(0, c.tries));
    SubsetFits(AttemptsOf(log, j), UpTo(Max(0, c.tries)));
  }
}
