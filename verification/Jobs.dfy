/** The indexing queue of packages/shared/jobs/jobs.go: one table, five statements. */
module Jobs {
  import opened Common

  type JobId = string
  type WorkerId = string

  datatype Status = Pending | Leased | Done | Failed

  datatype Job = Job(
    remote: string, ref: string, status: Status, attempts: nat,
    leasedBy: Option<WorkerId>, leasedUntil: Option<int>,
    error: string, repoId: Option<string>, createdAt: int, updatedAt: int)

  type Table = map<JobId, Job>

  predicate Active(j: Job) {
    j.status == Pending || j.status == Leased
  }

  predicate Terminal(j: Job) {
    j.status == Done || j.status == Failed
  }

  function Lower(s: string): (r: string)
    ensures |r| == |s|
  {
    seq(|s|, i requires 0 <= i < |s| => LowerChar(s[i]))
  }

  function LowerChar(c: char): char {
    if 'A' <= c <= 'Z' then c + ('a' - 'A') else c
  }

  /** The same character, or a letter and its capital. */
  predicate SameLetter(c: char, d: char) {
    c == d || ('A' <= c <= 'Z' && d as int == c as int + 32) || ('A' <= d <= 'Z' && c as int == d as int + 32)
  }

  lemma LowerMeets(c: char, d: char)
    ensures LowerChar(c) == LowerChar(d) <==> SameLetter(c, d)
  {
    assert LowerChar(c) as int == if 'A' <= c <= 'Z' then c as int + 32 else c as int;
    assert LowerChar(d) as int == if 'A' <= d <= 'Z' then d as int + 32 else d as int;
  }

  /** Two texts fold alike when they differ in nothing but the case of ASCII letters. */
  lemma FoldsCase(s: string, t: string)
    ensures Lower(s) == Lower(t) <==> |s| == |t| && forall i :: 0 <= i < |s| ==> SameLetter(s[i], t[i])
  {
    if |s| == |t| {
      forall i | 0 <= i < |s| ensures Lower(s)[i] == Lower(t)[i] <==> SameLetter(s[i], t[i]) {
        LowerMeets(s[i], t[i]);
      }
    }
  }

  /** The partial unique index: an active job for the same folded remote and ref. */
  predicate Conflicts(t: Table, k: JobId, remote: string, ref: string) {
    k in t && Active(t[k]) && Lower(t[k].remote) == Lower(remote) && t[k].ref == ref
  }

  function Fresh(remote: string, ref: string, now: int): Job {
    Job(remote, ref, Pending, 0, None, None, "", None, now, now)
  }

  /** A row as it was inserted. */
  predicate NeverLeased(j: Job, remote: string, ref: string, now: int) {
    && j.remote == remote && j.ref == ref && j.status == Pending && j.attempts == 0 && j.leasedBy == None
    && j.leasedUntil == None && j.repoId == None && j.createdAt == j.updatedAt == now
  }

  /** What no statement changes. */
  predicate Unmoved(was: Job, j: Job) {
    j.remote == was.remote && j.ref == was.ref && j.createdAt == was.createdAt
  }

  /** The insert with its no-op conflict arm. got is None when the id itself is taken. */
  ghost predicate Enqueued(t: Table, t': Table, id: JobId, remote: string, ref: string, now: int, got: Option<JobId>) {
    if exists k :: Conflicts(t, k, remote, ref) then
      t' == t && got.Some? && Conflicts(t, got.value, remote, ref)
    else if id in t then t' == t && got == None
    else t' == t[id := Fresh(remote, ref, now)] && got == Some(id)
  }

  /** leased_until means "not before this" on a leased row and on a pending one. */
  predicate Claimable(j: Job, now: int) {
    Active(j) && (j.leasedUntil == None || j.leasedUntil.value < now)
  }

  /** k is an oldest claimable row among those no other transaction holds. */
  predicate Claims(t: Table, locked: set<JobId>, now: int, k: JobId) {
    k in t && k !in locked && Claimable(t[k], now) &&
    forall o :: o in t ==> o in locked || !Claimable(t[o], now) || t[k].createdAt <= t[o].createdAt
  }

  function Take(j: Job, worker: WorkerId, lease: nat, now: int): Job {
    j.(status := Leased, attempts := j.attempts + 1, leasedBy := Some(worker),
       leasedUntil := Some(now + lease), updatedAt := now)
  }

  predicate Holds(t: Table, id: JobId, worker: WorkerId) {
    id in t && t[id].leasedBy == Some(worker)
  }

  function Completed(t: Table, id: JobId, worker: WorkerId, repoId: string, now: int): Table {
    if Holds(t, id, worker) then
      t[id := t[id].(status := Done, leasedBy := None, leasedUntil := None, error := "",
                     repoId := Some(repoId), updatedAt := now)]
    else t
  }

  function Pow2(n: nat): (p: nat)
    ensures p >= 1
  {
    if n == 0 then 1 else 2 * Pow2(n - 1)
  }

  /** least(base * 2 ^ least(greatest(attempts - 1, 0), 16), max) */
  function Backoff(base: nat, max: nat, attempts: int): nat {
    Min(base * Pow2(Min(Max(attempts - 1, 0), 16)), max)
  }

  /** The first wait is the base, capped; each of the next sixteen is twice the one before,
      capped; and from then on it stands. So it never shrinks and never passes the cap. */
  lemma BackoffDoublesToItsCap(base: nat, max: nat, a: int)
    ensures a <= 1 ==> Backoff(base, max, a) == Min(base, max)
    ensures 1 <= a < 17 ==> Backoff(base, max, a + 1) == Min(2 * Backoff(base, max, a), max)
    ensures a >= 17 ==> Backoff(base, max, a) == Backoff(base, max, 17)
  {
    if 1 <= a < 17 {
      assert Pow2(a) == 2 * Pow2(a - 1);
      CappedDoubles(base, max, Pow2(a - 1));
    }
  }

  lemma BackoffGrows(base: nat, max: nat, a: int, b: int)
    requires a <= b
    ensures Min(base, max) <= Backoff(base, max, a) <= Backoff(base, max, b) <= max
  {
    var m, n := Min(Max(a - 1, 0), 16), Min(Max(b - 1, 0), 16);
    Pow2Grows(0, m);
    Pow2Grows(m, n);
    CappedGrows(base, max, 1, Pow2(m));
    CappedGrows(base, max, Pow2(m), Pow2(n));
  }

  lemma CappedDoubles(base: nat, max: nat, p: nat)
    ensures Min(base * (2 * p), max) == Min(2 * Min(base * p, max), max)
  {
    assert base * (2 * p) == 2 * (base * p);
  }

  lemma CappedGrows(base: nat, max: nat, p: nat, r: nat)
    requires p <= r
    ensures Min(base * p, max) <= Min(base * r, max) <= max
  {
    assert base * p <= base * r;
  }

  lemma {:induction false} Pow2Grows(m: nat, n: nat)
    requires m <= n
    ensures Pow2(m) <= Pow2(n)
  {
    if m < n {
      Pow2Grows(m, n - 1);
    }
  }

  function Refused(j: Job, base: nat, max: nat, reason: string, maxAttempts: int, now: int): Job {
    if j.attempts >= maxAttempts
    then j.(status := Failed, leasedBy := None, leasedUntil := None, error := reason, updatedAt := now)
    else j.(status := Pending, leasedBy := None,
            leasedUntil := Some(now + Backoff(base, max, j.attempts)), error := reason, updatedAt := now)
  }

  function FailedBy(t: Table, base: nat, max: nat, id: JobId, worker: WorkerId, reason: string,
                    maxAttempts: int, now: int): Table
  {
    if Holds(t, id, worker) then t[id := Refused(t[id], base, max, reason, maxAttempts, now)] else t
  }

  predicate Stale(j: Job, keepFor: int, now: int) {
    Terminal(j) && j.updatedAt < now - keepFor
  }

  function Swept(t: Table, keepFor: int, now: int): Table {
    map k | k in t && !Stale(t[k], keepFor, now) :: t[k]
  }

  lemma {:induction false} OldestExists(t: Table, ks: set<JobId>) returns (k: JobId)
    requires ks != {} && ks <= t.Keys
    ensures k in ks && forall o :: o in ks ==> t[k].createdAt <= t[o].createdAt
    decreases ks
  {
    k :| k in ks;
    if ks != {k} {
      var o := OldestExists(t, ks - {k});
      if t[o].createdAt < t[k].createdAt {
        k := o;
      }
    }
  }

  /** The queue, one statement a method. Time is the database's now(), passed in. */
  class Queue {
    var rows: Table
    const retryBase: nat
    const retryMax: nat

    constructor (retryBase: nat, retryMax: nat)
      ensures rows == map[] && this.retryBase == retryBase && this.retryMax == retryMax
    {
      rows := map[];
      this.retryBase := retryBase;
      this.retryMax := retryMax;
    }

    method Enqueue(id: JobId, remote: string, ref: string, now: int) returns (got: Option<JobId>)
      modifies this
      ensures Enqueued(old(rows), rows, id, remote, ref, now, got)
      ensures got.Some? && got.value in old(rows) ==> rows == old(rows) && !Terminal(rows[got.value])
      ensures got.Some? && got.value !in old(rows) ==>
        got.value == id && id in rows && rows == old(rows)[id := rows[id]] && NeverLeased(rows[id], remote, ref, now)
    {
      if k :| k in rows && Conflicts(rows, k, remote, ref) {
        got := Some(k);
      } else if id in rows {
        got := None;
      } else {
        rows := rows[id := Fresh(remote, ref, now)];
        got := Some(id);
      }
    }

    /** locked is what SKIP LOCKED skips. */
    method Lease(worker: WorkerId, lease: nat, locked: set<JobId>, now: int) returns (got: Option<JobId>)
      modifies this
      ensures got.Some? ==> Claims(old(rows), locked, now, got.value)
      ensures got.Some? ==> rows == old(rows)[got.value := Take(old(rows)[got.value], worker, lease, now)]
      ensures got.None? ==> rows == old(rows)
      ensures got.None? ==> forall k :: k in rows && k !in locked ==> !Claimable(rows[k], now)
      ensures got.Some? ==>
        var was, j := old(rows)[got.value], rows[got.value];
        && Unmoved(was, j) && j.status == Leased && j.attempts == was.attempts + 1
        && j.leasedBy == Some(worker) && j.leasedUntil == Some(now + lease) && j.updatedAt == now
      ensures got.Some? ==>
        forall k :: k in old(rows) && k !in locked && Claimable(old(rows)[k], now) ==>
          old(rows)[got.value].createdAt <= old(rows)[k].createdAt
    {
      var open := set k | k in rows && k !in locked && Claimable(rows[k], now);
      if open == {} {
        got := None;
        assert forall k :: k in rows && k !in locked && Claimable(rows[k], now) ==> k in open;
      } else {
        assert exists k :: k in rows && Claims(rows, locked, now, k) by {
          var k := OldestExists(rows, open);
          assert Claims(rows, locked, now, k);
        }
        var k :| k in rows && Claims(rows, locked, now, k);
        rows := rows[k := Take(rows[k], worker, lease, now)];
        got := Some(k);
      }
    }

    /** False is ErrNotLeased. */
    method Complete(id: JobId, worker: WorkerId, repoId: string, now: int) returns (ok: bool)
      modifies this
      ensures rows == Completed(old(rows), id, worker, repoId, now)
      ensures !ok ==> rows == old(rows)
      ensures ok ==>
        && id in rows && rows == old(rows)[id := rows[id]] && Unmoved(old(rows)[id], rows[id])
        && rows[id].status == Done && rows[id].repoId == Some(repoId) && rows[id].error == ""
        && rows[id].attempts == old(rows)[id].attempts && rows[id].leasedBy == None && rows[id].updatedAt == now
      ensures ok <==> id in old(rows) && old(rows)[id].leasedBy == Some(worker)
    {
      ok := id in rows && rows[id].leasedBy == Some(worker);
      if ok {
        var j := rows[id];
        rows := rows[id := j.(status := Done, leasedBy := None, leasedUntil := None, error := "",
                              repoId := Some(repoId), updatedAt := now)];
      }
    }

    method Fail(id: JobId, worker: WorkerId, reason: string, maxAttempts: int, now: int) returns (ok: bool)
      modifies this
      ensures rows == FailedBy(old(rows), retryBase, retryMax, id, worker, reason, maxAttempts, now)
      ensures ok <==> id in old(rows) && old(rows)[id].leasedBy == Some(worker)
      ensures !ok ==> rows == old(rows)
      ensures ok ==>
        var j, n := rows[id], old(rows)[id].attempts;
        && id in rows && rows == old(rows)[id := j] && Unmoved(old(rows)[id], j)
        && j.attempts == n && j.leasedBy == None && j.error == reason && j.updatedAt == now
        && j.status == (if n >= maxAttempts then Failed else Pending)
        && (n >= maxAttempts ==> j.leasedUntil == None)
        && (n < maxAttempts ==>
              j.leasedUntil.Some? && now + Min(retryBase, retryMax) <= j.leasedUntil.value <= now + retryMax)
    {
      ok := id in rows && rows[id].leasedBy == Some(worker);
      if ok {
        var j := rows[id];
        BackoffGrows(retryBase, retryMax, j.attempts, j.attempts);
        var until := if j.attempts >= maxAttempts then None
                     else Some(now + Backoff(retryBase, retryMax, j.attempts));
        rows := rows[id := j.(status := if j.attempts >= maxAttempts then Failed else Pending,
                              leasedBy := None, leasedUntil := until, error := reason, updatedAt := now)];
      }
    }

    method Sweep(keepFor: int, now: int) returns (n: nat)
      modifies this
      ensures rows == Swept(old(rows), keepFor, now)
      ensures n == |old(rows)| - |rows|
      ensures forall k :: k in rows ==> k in old(rows) && rows[k] == old(rows)[k]
      ensures forall k :: k in old(rows) ==>
        var j := old(rows)[k];
        k !in rows <==> (j.status == Done || j.status == Failed) && j.updatedAt < now - keepFor
    {
      var kept := map k | k in rows && !Stale(rows[k], keepFor, now) :: rows[k];
      assert kept.Keys <= rows.Keys;
      assert |kept| == |kept.Keys| <= |rows.Keys| == |rows| by { SubsetFits(kept.Keys, rows.Keys); }
      n := |rows| - |kept|;
      rows := kept;
    }

    method Get(id: JobId) returns (got: Option<Job>)
      ensures got == if id in rows then Some(rows[id]) else None
    {
      got := if id in rows then Some(rows[id]) else None;
    }
  }

  lemma {:induction false} SubsetFits<T>(a: set<T>, b: set<T>)
    requires a <= b
    ensures |a| <= |b|
  {
    assert b == a + (b - a);
  }
}
