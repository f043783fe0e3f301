/** Concurrent questions against one allowance: Loop.Ask's slot, reservation and settlement,
    interleaved in any order under a clock that does not run backwards. */
module Gateway {
  import opened Common
  import opened Budget

  type RequestId = int

  /** Where one request stands between taking its slot and giving it back. */
  datatype Phase = Slot | Reserved | Denied | Settled

  /** granted counts the reservations ever made; history is every settlement ever made. */
  datatype State = State(
    ledger: Ledger, slots: nat, want: nat, running: map<RequestId, Phase>,
    granted: nat, history: seq<Settlement>, clock: int)

  /** Each event is one critical section, or one select on the semaphore. */
  datatype Event =
    | Arrive(id: RequestId)
    | Allow(id: RequestId, now: int)
    | Spend(id: RequestId, used: nat, now: int, stamp: int)
    | Release(id: RequestId)
    | Gauge(now: int)

  predicate In(s: State, id: RequestId, p: Phase) {
    id in s.running && s.running[id] == p
  }

  /** Over the cap a request degrades: it changes nothing and is not queued. */
  ghost predicate Next(s: State, e: Event, s': State) {
    match e
    case Arrive(id) =>
      id !in s.running &&
      s' == (if |s.running| < s.slots then s.(running := s.running[id := Slot]) else s)
    case Allow(id, now) =>
      In(s, id, Slot) && s.clock <= now &&
      var ok := Fits(Pruned(s.ledger, now), s.want);
      s' == s.(ledger := Reserve(s.ledger, s.want, now), clock := now,
               running := s.running[id := if ok then Reserved else Denied],
               granted := s.granted + (if ok then 1 else 0))
    case Spend(id, used, now, stamp) =>
      In(s, id, Reserved) && s.clock <= now <= stamp &&
      s' == s.(ledger := Settle(s.ledger, s.want, used, now, stamp), clock := stamp,
               running := s.running[id := Settled],
               history := s.history + [Settlement(stamp, used, s.want)])
    case Release(id) =>
      (In(s, id, Denied) || In(s, id, Settled)) && s' == s.(running := s.running - {id})
    case Gauge(now) =>
      s.clock <= now && s' == s.(ledger := Pruned(s.ledger, now), clock := now)
  }

  function Boot(limit: nat, slots: nat, want: nat, clock: int): State {
    State(Ledger(limit, [], 0, 0), slots, want, map[], 0, [], clock)
  }

  function Outstanding(running: map<RequestId, Phase>): set<RequestId> {
    set id | id in running && running[id] == Reserved
  }

  function Within(e: Settlement, a: int): seq<Settlement> {
    if a < e.at <= a + WINDOW then [e] else []
  }

  /** The settlements of one hour: after a, up to and including a + WINDOW. */
  function Hour(s: seq<Settlement>, a: int): seq<Settlement> {
    if s == [] then []
    else Within(s[0], a) + Hour(s[1..], a)
  }

  ghost predicate Counts(s: seq<Settlement>) {
    forall i :: 0 <= i < |s| ==> s[i].n >= 0 && s[i].want >= 0
  }

  /** spent is the unexpired end of the history. */
  ghost predicate Tail(s: State) {
    var cut := |s.history| - |s.ledger.spent|;
    && cut >= 0 && s.history[cut..] == s.ledger.spent
    && (forall i :: 0 <= i < cut ==> s.history[i].at <= s.clock - WINDOW)
  }

  ghost predicate Inv(s: State) {
    && s.ledger.limit >= 0 && Counts(s.history) && Tail(s)
    && s.ledger.total == Total(s.ledger.spent)
    && s.ledger.reserved == s.want * |Outstanding(s.running)|
    && Covered(s.ledger.spent) + s.ledger.reserved <= s.ledger.limit
    && |s.running| <= s.slots
    && s.granted == |s.history| + |Outstanding(s.running)|
    && forall a :: Covered(Hour(s.history, a)) <= s.ledger.limit
  }

  lemma {:induction false} CoveredIsSmaller(s: seq<Settlement>)
    requires Counts(s)
    ensures 0 <= Covered(s) <= Total(s)
  {
    if s != [] {
      CoveredIsSmaller(s[1..]);
    }
  }

  lemma {:induction false} HourFits(s: seq<Settlement>, a: int)
    requires Counts(s)
    ensures Counts(Hour(s, a)) && Covered(Hour(s, a)) <= Covered(s)
  {
    if s != [] {
      HourFits(s[1..], a);
      var rest := Hour(s[1..], a);
      if a < s[0].at <= a + WINDOW {
        assert Hour(s, a) == [s[0]] + rest && Hour(s, a)[1..] == rest;
      } else {
        assert Hour(s, a) == rest;
      }
    }
  }

  lemma HourOfFront(e: Settlement, s: seq<Settlement>, a: int)
    ensures Hour([e] + s, a) == Within(e, a) + Hour(s, a)
  {
    assert ([e] + s)[1..] == s;
  }

  lemma Reassociates(x: seq<Settlement>, y: seq<Settlement>, z: seq<Settlement>)
    ensures x + (y + z) == (x + y) + z
  {
  }

  lemma {:induction false} HourSplits(s: seq<Settlement>, t: seq<Settlement>, a: int)
    ensures Hour(s + t, a) == Hour(s, a) + Hour(t, a)
  {
    if s == [] {
      assert s + t == t;
    } else {
      var e, rest := s[0], s[1..];
      assert s == [e] + rest;
      HourSplits(rest, t, a);
      HourOfFront(e, rest, a);
      HourOfFront(e, rest + t, a);
      Reassociates([e], rest, t);
      Reassociates(Within(e, a), Hour(rest, a), Hour(t, a));
    }
  }

  lemma {:induction false} HourOfOld(s: seq<Settlement>, a: int)
    requires forall i :: 0 <= i < |s| ==> s[i].at <= a
    ensures Hour(s, a) == []
  {
    if s != [] {
      HourOfOld(s[1..], a);
    }
  }

  lemma TailPrunes(s: State, now: int)
    requires Tail(s) && s.clock <= now
    ensures Tail(s.(ledger := Pruned(s.ledger, now), clock := now))
  {
    var b, p := s.ledger, Pruned(s.ledger, now);
    UnexpiredIsTail(b.spent, now - WINDOW);
    var k := |b.spent| - |p.spent|;
    var cut := |s.history| - |b.spent|;
    assert s.history[cut + k..] == b.spent[k..] == p.spent;
    forall i | 0 <= i < cut + k ensures s.history[i].at <= now - WINDOW {
      if i >= cut {
        assert s.history[i] == b.spent[i - cut];
      }
    }
  }

  lemma PruneCovers(b: Ledger, now: int)
    requires Counts(b.spent) && b.total == Total(b.spent)
    ensures Covered(Pruned(b, now).spent) <= Covered(b.spent)
    ensures Pruned(b, now).total == Total(Pruned(b, now).spent)
  {
    var p := Pruned(b, now).spent;
    UnexpiredIsTail(b.spent, now - WINDOW);
    var k := |b.spent| - |p|;
    TotalSplits(b.spent, k);
    assert b.spent[k..] == p;
    CoveredIsSmaller(b.spent[..k]);
  }

  /** Pruning keeps the tail a tail and frees no more than has expired. */
  lemma PruneKeeps(s: State, now: int)
    requires Inv(s) && s.clock <= now
    ensures Inv(s.(ledger := Pruned(s.ledger, now), clock := now))
  {
    TailPrunes(s, now);
    TailCounts(s);
    PruneCovers(s.ledger, now);
  }

  lemma HourOfOne(e: Settlement, a: int)
    ensures Hour([e], a) == Within(e, a)
  {
    HourOfFront(e, [], a);
    assert [e] + [] == [e];
  }

  /** A recent hour lies in the tail: what was pruned is too old for it. */
  lemma HourOfTail(s: State, a: int)
    requires Tail(s) && s.clock - WINDOW <= a
    ensures Hour(s.history, a) == Hour(s.ledger.spent, a)
  {
    var cut := |s.history| - |s.ledger.spent|;
    assert s.history == s.history[..cut] + s.ledger.spent;
    HourSplits(s.history[..cut], s.ledger.spent, a);
    HourOfOld(s.history[..cut], a);
  }

  /** What a new settlement adds to any hour fits beside what the tail still holds. */
  lemma HourAfterSettlement(s: State, e: Settlement, a: int)
    requires Inv(s) && e.n >= 0 && e.want >= 0 && s.clock <= e.at
    requires Covered(s.ledger.spent) + Min(e.n, e.want) <= s.ledger.limit
    ensures Covered(Hour(s.history + [e], a)) <= s.ledger.limit
  {
    HourSplits(s.history, [e], a);
    HourOfOne(e, a);
    if a < e.at <= a + WINDOW {
      HourOfTail(s, a);
      TailCounts(s);
      HourFits(s.ledger.spent, a);
      TotalAppends(Hour(s.ledger.spent, a), e);
    } else {
      assert Hour(s.history + [e], a) == Hour(s.history, a);
    }
  }

  lemma OutstandingGrows(m: map<RequestId, Phase>, id: RequestId, p: Phase)
    requires id !in m || m[id] != Reserved
    ensures p == Reserved ==> |Outstanding(m[id := p])| == |Outstanding(m)| + 1
    ensures p != Reserved ==> Outstanding(m[id := p]) == Outstanding(m)
  {
    assert Outstanding(m[id := Reserved]) == Outstanding(m) + {id};
  }

  lemma OutstandingShrinks(m: map<RequestId, Phase>, id: RequestId)
    requires id in m && m[id] == Reserved
    ensures |Outstanding(m)| == |Outstanding(m[id := Settled])| + 1
  {
    assert Outstanding(m) == Outstanding(m[id := Settled]) + {id};
  }

  lemma OneMore(want: nat, n: nat)
    ensures want * (n + 1) == want * n + want && want * n >= 0
  {
  }

  lemma TailCounts(s: State)
    requires Counts(s.history) && Tail(s)
    ensures Counts(s.ledger.spent)
  {
    var cut := |s.history| - |s.ledger.spent|;
    assert forall i :: 0 <= i < |s.ledger.spent| ==> s.ledger.spent[i] == s.history[cut + i];
  }

  lemma TailGrows(s: State, e: Settlement, s': State)
    requires Counts(s.history) && Tail(s) && s.clock <= s'.clock && e.n >= 0 && e.want >= 0
    requires s'.history == s.history + [e] && s'.ledger.spent == s.ledger.spent + [e]
    ensures Counts(s'.history) && Tail(s')
  {
    var cut := |s.history| - |s.ledger.spent|;
    assert s'.history[cut..] == s.history[cut..] + [e];
  }

  lemma SameSlots(s: State, id: RequestId, p: Phase)
    requires id in s.running
    ensures |s.running[id := p]| == |s.running|
  {
    assert s.running[id := p].Keys == s.running.Keys;
    assert |s.running[id := p]| == |s.running[id := p].Keys| && |s.running| == |s.running.Keys|;
  }

  /** Settling what a pruned ledger had reserved. */
  lemma SettleKeeps(p: State, id: RequestId, e: Settlement, s': State)
    requires Inv(p) && In(p, id, Reserved) && e.n >= 0 && e.want == p.want && p.clock <= e.at
    requires s' == p.(
      ledger := p.ledger.(reserved := p.ledger.reserved - p.want, spent := p.ledger.spent + [e],
                          total := p.ledger.total + e.n),
      clock := e.at, running := p.running[id := Settled], history := p.history + [e])
    ensures Inv(s')
  {
    OutstandingShrinks(p.running, id);
    OneMore(p.want, |Outstanding(s'.running)|);
    TotalAppends(p.ledger.spent, e);
    TailGrows(p, e, s');
    SameSlots(p, id, Settled);
    forall a ensures Covered(Hour(s'.history, a)) <= s'.ledger.limit {
      HourAfterSettlement(p, e, a);
    }
  }

  lemma SpendKeeps(s: State, e: Event, s': State)
    requires Inv(s) && Next(s, e, s') && e.Spend?
    ensures Inv(s')
  {
    PruneKeeps(s, e.now);
    var p := s.(ledger := Pruned(s.ledger, e.now), clock := e.now);
    SettleKeeps(p, e.id, Settlement(e.stamp, e.used, s.want), s');
  }

  /** Granting, or refusing, on a pruned ledger. */
  lemma GrantKeeps(p: State, id: RequestId, s': State)
    requires Inv(p) && In(p, id, Slot)
    requires s' == if Fits(p.ledger, p.want)
      then p.(ledger := p.ledger.(reserved := p.ledger.reserved + p.want),
              running := p.running[id := Reserved], granted := p.granted + 1)
      else p.(running := p.running[id := Denied])
    ensures Inv(s')
  {
    OutstandingGrows(p.running, id, s'.running[id]);
    OneMore(p.want, |Outstanding(p.running)|);
    SameSlots(p, id, s'.running[id]);
    TailCounts(p);
    CoveredIsSmaller(p.ledger.spent);
  }

  lemma AllowKeeps(s: State, e: Event, s': State)
    requires Inv(s) && Next(s, e, s') && e.Allow?
    ensures Inv(s')
  {
    PruneKeeps(s, e.now);
    GrantKeeps(s.(ledger := Pruned(s.ledger, e.now), clock := e.now), e.id, s');
  }

  lemma SlotKeeps(s: State, e: Event, s': State)
    requires Inv(s) && Next(s, e, s') && (e.Arrive? || e.Release?)
    ensures Inv(s')
  {
    if e.Arrive? {
      OutstandingGrows(s.running, e.id, Slot);
    } else {
      assert Outstanding(s'.running) == Outstanding(s.running);
      assert s'.running.Keys == s.running.Keys - {e.id};
      assert |s'.running| == |s'.running.Keys| && |s.running| == |s.running.Keys|;
    }
  }

  lemma InvStep(s: State, e: Event, s': State)
    requires Inv(s) && Next(s, e, s')
    ensures Inv(s')
  {
    match e
    case Arrive(_) => SlotKeeps(s, e, s');
    case Release(_) => SlotKeeps(s, e, s');
    case Allow(_, _) => AllowKeeps(s, e, s');
    case Spend(_, _, _, _) => SpendKeeps(s, e, s');
    case Gauge(now) => PruneKeeps(s, now);
  }

  ghost predicate Run(limit: nat, slots: nat, want: nat, tr: seq<State>, evs: seq<Event>) {
    && |tr| == |evs| + 1
    && (exists clock :: tr[0] == Boot(limit, slots, want, clock))
    && forall i :: 0 <= i < |evs| ==> Next(tr[i], evs[i], tr[i + 1])
  }

  lemma {:induction false} RunInv(limit: nat, slots: nat, want: nat, tr: seq<State>, evs: seq<Event>, i: nat)
    requires Run(limit, slots, want, tr, evs) && i < |tr|
    ensures Inv(tr[i]) && tr[i].ledger.limit == limit && tr[i].want == want && tr[i].slots == slots
  {
    if i > 0 {
      RunInv(limit, slots, want, tr, evs, i - 1);
      assert Next(tr[i - 1], evs[i - 1], tr[i]);
      InvStep(tr[i - 1], evs[i - 1], tr[i]);
    } else {
      assert Outstanding(tr[0].running) == {};
    }
  }

  /** The tokens an hour's settlements took beyond their reservations. */
  function Overrun(s: seq<Settlement>): int {
    Total(s) - Covered(s)
  }

  /** In every interleaving and every hour, the settled tokens exceed the limit by no more
      than those settlements overran their own reservations. */
  lemma HourIsBounded(limit: nat, slots: nat, want: nat, tr: seq<State>, evs: seq<Event>, i: nat, a: int)
    requires Run(limit, slots, want, tr, evs) && i < |tr|
    ensures Total(Hour(tr[i].history, a)) <= limit + Overrun(Hour(tr[i].history, a))
  {
    RunInv(limit, slots, want, tr, evs, i);
  }

  lemma {:induction false} NoOverrun(s: seq<Settlement>)
    requires forall i :: 0 <= i < |s| ==> s[i].n <= s[i].want
    ensures Overrun(s) == 0
  {
    if s != [] {
      NoOverrun(s[1..]);
    }
  }

  lemma {:induction false} HourMembers(s: seq<Settlement>, a: int)
    ensures forall e :: e in Hour(s, a) ==> e in s
  {
    if s != [] {
      HourMembers(s[1..], a);
    }
  }

  lemma {:induction false} HistoryIsSpends(limit: nat, slots: nat, want: nat, tr: seq<State>, evs: seq<Event>, i: nat)
    requires Run(limit, slots, want, tr, evs) && i < |tr|
    requires forall k :: 0 <= k < i && evs[k].Spend? ==> evs[k].used <= want
    ensures forall e :: e in tr[i].history ==> e.n <= e.want
  {
    if i > 0 {
      HistoryIsSpends(limit, slots, want, tr, evs, i - 1);
      RunInv(limit, slots, want, tr, evs, i - 1);
      assert Next(tr[i - 1], evs[i - 1], tr[i]);
    }
  }

  /** The hourly ceiling: when no request uses more than it reserved, no hour does. */
  lemma HourNeverExceedsLimit(limit: nat, slots: nat, want: nat, tr: seq<State>, evs: seq<Event>, i: nat, a: int)
    requires Run(limit, slots, want, tr, evs) && i < |tr|
    requires forall k :: 0 <= k < i && evs[k].Spend? ==> evs[k].used <= want
    ensures Total(Hour(tr[i].history, a)) <= limit
  {
    HourIsBounded(limit, slots, want, tr, evs, i, a);
    HistoryIsSpends(limit, slots, want, tr, evs, i);
    HourMembers(tr[i].history, a);
    NoOverrun(Hour(tr[i].history, a));
  }

  /** Every grant is outstanding or settled, and settled once; when nothing is running
      nothing is reserved, so no reservation outlives its request. */
  lemma GrantsSettleOnce(limit: nat, slots: nat, want: nat, tr: seq<State>, evs: seq<Event>, i: nat)
    requires Run(limit, slots, want, tr, evs) && i < |tr|
    ensures tr[i].granted == |tr[i].history| + |Outstanding(tr[i].running)|
    ensures tr[i].ledger.reserved == want * |Outstanding(tr[i].running)|
    ensures tr[i].running == map[] ==> tr[i].ledger.reserved == 0 && tr[i].granted == |tr[i].history|
    ensures |tr[i].running| <= slots
  {
    RunInv(limit, slots, want, tr, evs, i);
    if tr[i].running == map[] {
      assert Outstanding(tr[i].running) == {};
    }
  }

  // The hour closed at both ends

  /** The settlements from lo to hi, both included. */
  function Between(s: seq<Settlement>, lo: int, hi: int): seq<Settlement> {
    if s == [] then []
    else
      var rest := Between(s[1..], lo, hi);
      if lo <= s[0].at <= hi then [s[0]] + rest else rest
  }

  function Closed(s: seq<Settlement>, a: int): seq<Settlement> {
    Between(s, a, a + WINDOW)
  }

  function At(s: seq<Settlement>, a: int): seq<Settlement> {
    Between(s, a, a)
  }

  lemma TotalOfFront(e: Settlement, s: seq<Settlement>)
    ensures Total([e] + s) == e.n + Total(s)
  {
    assert ([e] + s)[1..] == s;
  }

  lemma {:induction false} BetweenSplits(s: seq<Settlement>, lo: int, mid: int, hi: int)
    requires lo <= mid + 1 && mid <= hi
    ensures Total(Between(s, lo, hi)) == Total(Between(s, lo, mid)) + Total(Between(s, mid + 1, hi))
  {
    if s != [] {
      BetweenSplits(s[1..], lo, mid, hi);
      TotalOfFront(s[0], Between(s[1..], lo, hi));
      TotalOfFront(s[0], Between(s[1..], lo, mid));
      TotalOfFront(s[0], Between(s[1..], mid + 1, hi));
    }
  }

  lemma {:induction false} BetweenIsPositive(s: seq<Settlement>, lo: int, hi: int)
    requires Counts(s)
    ensures 0 <= Total(Between(s, lo, hi))
  {
    if s != [] {
      BetweenIsPositive(s[1..], lo, hi);
      TotalOfFront(s[0], Between(s[1..], lo, hi));
    }
  }

  lemma {:induction false} HourIsBetween(s: seq<Settlement>, a: int)
    ensures Hour(s, a) == Between(s, a + 1, a + WINDOW)
  {
    if s != [] {
      HourIsBetween(s[1..], a);
    }
  }

  /** A closed hour is the half-open one and what was settled on its first instant, or the
      half-open one an instant earlier and what was settled on its last. */
  lemma ClosedHourIs(s: seq<Settlement>, a: int)
    ensures Total(Closed(s, a)) == Total(At(s, a)) + Total(Hour(s, a))
    ensures Total(Closed(s, a)) == Total(Hour(s, a - 1)) + Total(At(s, a + WINDOW))
  {
    BetweenSplits(s, a, a, a + WINDOW);
    BetweenSplits(s, a, a + WINDOW - 1, a + WINDOW);
    HourIsBetween(s, a);
    HourIsBetween(s, a - 1);
  }

  /** What the half-open ceiling says of the closed hour, in every run without overruns: it
      passes the limit by exactly the tokens settled on its first instant beyond the room the
      rest left, so only when both of its ends hold tokens, and never past twice the limit. */
  lemma ClosedHourIsBounded(limit: nat, slots: nat, want: nat, tr: seq<State>, evs: seq<Event>, i: nat, a: int)
    requires Run(limit, slots, want, tr, evs) && i < |tr|
    requires forall k :: 0 <= k < i && evs[k].Spend? ==> evs[k].used <= want
    ensures var h := tr[i].history;
      && Total(Closed(h, a)) - limit == Total(At(h, a)) - (limit - Total(Hour(h, a)))
      && Total(Hour(h, a)) <= limit
      && (Total(Closed(h, a)) > limit ==> Total(At(h, a)) > 0 && Total(At(h, a + WINDOW)) > 0)
      && Total(Closed(h, a)) <= 2 * limit
  {
    var h := tr[i].history;
    RunInv(limit, slots, want, tr, evs, i);
    HourNeverExceedsLimit(limit, slots, want, tr, evs, i, a);
    HourNeverExceedsLimit(limit, slots, want, tr, evs, i, a - 1);
    ClosedHourIs(h, a);
    HourIsBetween(h, a - 1);
    BetweenSplits(h, a, a, a + WINDOW - 1);
    BetweenIsPositive(h, a + 1, a + WINDOW - 1);
  }

  function Idle(limit: nat): Ledger {
    Ledger(limit, [], 0, 0)
  }

  function Spent(limit: nat, t: int): Ledger {
    Ledger(limit, [Settlement(t, limit, limit)], limit, 0)
  }

  lemma SpentExpires(limit: nat, t: int, now: int)
    ensures Pruned(Spent(limit, t), now) == if t <= now - WINDOW then Idle(limit) else Spent(limit, t)
  {
    var e := Settlement(t, limit, limit);
    TotalOfOne(e);
    OneSettlementExpires(e, now - WINDOW);
    assert Total([]) == 0;
  }

  function Question(id: RequestId, limit: nat, t: int): seq<Event> {
    [Arrive(id), Allow(id, t), Spend(id, limit, t, t), Release(id)]
  }

  /** One question that takes the whole allowance, all of it at one instant. */
  lemma QuestionRuns(s: State, id: RequestId, limit: nat, t: int) returns (tr: seq<State>)
    requires s.running == map[] && s.slots > 0 && s.want == limit && s.clock <= t
    requires Pruned(s.ledger, t) == Idle(limit)
    ensures |tr| == 5 && tr[0] == s
    ensures forall k :: 0 <= k < 4 ==> Next(tr[k], Question(id, limit, t)[k], tr[k + 1])
    ensures tr[4] == s.(ledger := Spent(limit, t), clock := t, granted := s.granted + 1,
                        history := s.history + [Settlement(t, limit, limit)])
  {
    var s1 := s.(running := s.running[id := Slot]);
    assert |s.running| == 0;
    var s2 := s1.(ledger := Ledger(limit, [], 0, limit), clock := t, running := s1.running[id := Reserved],
                  granted := s.granted + 1);
    var s3 := s2.(ledger := Spent(limit, t), running := s2.running[id := Settled],
                  history := s.history + [Settlement(t, limit, limit)]);
    var s4 := s3.(running := s3.running - {id});
    assert Pruned(s2.ledger, t) == s2.ledger;
    assert Next(s, Arrive(id), s1) && Next(s1, Allow(id, t), s2);
    assert Next(s2, Spend(id, limit, t, t), s3) && Next(s3, Release(id), s4);
    assert s4.running == map[];
    tr := [s, s1, s2, s3, s4];
  }

  /** The hour is half-open for a reason: a run in which two questions settle the whole limit
      exactly an hour apart, neither overrunning, so that the closed hour holds twice the
      limit; a second earlier the second would have been refused. */
  lemma ClosedHourHoldsTwice(limit: nat, slots: nat, t: int) returns (tr: seq<State>, evs: seq<Event>)
    requires limit > 0 && slots > 0
    ensures Run(limit, slots, limit, tr, evs)
    ensures forall k :: 0 <= k < |evs| && evs[k].Spend? ==> evs[k].used <= limit
    ensures |tr| == 9 && Total(Closed(tr[8].history, t)) == 2 * limit
    ensures Fits(Pruned(tr[4].ledger, t + 3600), limit) && !Fits(Pruned(tr[4].ledger, t + 3599), limit)
  {
    var u := t + WINDOW;
    var first := QuestionRuns(Boot(limit, slots, limit, t), 1, limit, t);
    SpentExpires(limit, t, u);
    SpentExpires(limit, t, u - 1);
    var second := QuestionRuns(first[4], 2, limit, u);
    tr, evs := first + second[1..], Question(1, limit, t) + Question(2, limit, u);
    var a, b := Settlement(t, limit, limit), Settlement(u, limit, limit);
    assert tr[8].history == [a, b];
    assert [a, b][1..] == [b] && [b][1..] == [];
    assert Between([b], t, u) == [b];
    TotalOfOne(b);
  }
}
