/** The corpus table: what winds its LRU clock, and what eviction keeps. */
module Corpus {
  import opened Common
  import opened Order

  /** A repos row. spans counts the dependent rows that a deletion cascades to. */
  datatype Repo = Repo(
    remote: string, ref: string, commit: string, files: nat, size: int, spans: nat,
    indexedAt: int, lastQueriedAt: int)

  datatype Tombstone = Tombstone(remote: string, ref: string, commit: string, indexedAt: int, evictedAt: int)

  type Table = map<string, Repo>

  datatype Entry = Entry(id: string, at: int)

  /** ORDER BY at DESC, id DESC: a comes first. */
  predicate Newer(a: Entry, b: Entry) {
    a.at > b.at || (a.at == b.at && TextLess(b.id, a.id))
  }

  function Clock(t: Table): map<string, int> {
    map id | id in t :: t[id].lastQueriedAt
  }

  function Ahead(clock: map<string, int>, id: string): set<string>
    requires id in clock
  {
    set o | o in clock && Newer(Entry(o, clock[o]), Entry(id, clock[id]))
  }

  /** The rows an OFFSET of keep leaves: those that keep others beat. */
  function Beyond(clock: map<string, int>, keep: nat): set<string> {
    set id | id in clock && |Ahead(clock, id)| >= keep
  }

  lemma NewerIsTotal(s: seq<Entry>)
    ensures StrictOrder(Newer) && Decides(Newer, s)
  {
    forall x: Entry ensures !Newer(x, x) {
      TextLessIrreflexive(x.id);
    }
    forall x: Entry, y: Entry, z: Entry | Newer(x, y) && Newer(y, z) ensures Newer(x, z) {
      if x.at == z.at {
        TextLessTransitive(z.id, y.id, x.id);
      }
    }
    forall x: Entry, y: Entry | x in s && y in s ensures x == y || Newer(x, y) || Newer(y, x) {
      TextLessTotal(x.id, y.id);
    }
  }

  /** s lists the rows behind clock, once each. */
  ghost predicate Lists(s: seq<Entry>, clock: map<string, int>) {
    && Distinct(s)
    && (forall e :: e in s <==> e.id in clock && e.at == clock[e.id])
  }

  function Ids(s: seq<Entry>): set<string> {
    set e | e in s :: e.id
  }

  lemma {:induction false} IdsCount(s: seq<Entry>, clock: map<string, int>)
    requires Distinct(s) && forall e :: e in s ==> e.id in clock && e.at == clock[e.id]
    ensures |Ids(s)| == |s|
  {
    if s == [] {
      assert Ids(s) == {};
    } else {
      var front, last := s[..|s| - 1], s[|s| - 1];
      assert s == front + [last];
      IdsCount(front, clock);
      assert last !in front;
      assert forall e :: e in front ==> e.id != last.id;
      assert Ids(s) == Ids(front) + {last.id};
    }
  }

  /** The row at place i of the ranked list is beaten by exactly the i before it. */
  lemma AheadIsThePrefix(s: seq<Entry>, clock: map<string, int>, i: nat)
    requires Lists(s, clock) && StrictlySorted(Newer, s) && i < |s|
    ensures s[i].id in clock && Ahead(clock, s[i].id) == Ids(s[..i]) && |Ahead(clock, s[i].id)| == i
  {
    NewerIsTotal(s);
    assert s[i] in s;
    forall o ensures o in Ahead(clock, s[i].id) <==> o in Ids(s[..i]) {
      if o in Ahead(clock, s[i].id) {
        assert Entry(o, clock[o]) in s;
        var j :| 0 <= j < |s| && s[j] == Entry(o, clock[o]);
        assert j < i;
        assert s[..i][j] == s[j];
        assert s[j] in s[..i];
      }
      if o in Ids(s[..i]) {
        var e :| e in s[..i] && e.id == o;
        assert e in s;
      }
    }
    forall e | e in s[..i] ensures e.id in clock && e.at == clock[e.id] {
      assert e in s;
    }
    IdsCount(s[..i], clock);
  }

  /** Reading a table: its rows, in whatever order the scan meets them. */
  method Scan(clock: map<string, int>) returns (s: seq<Entry>)
    ensures Lists(s, clock)
  {
    s := [];
    var left := clock.Keys;
    while left != {}
      invariant left <= clock.Keys && Distinct(s)
      invariant forall e :: e in s <==> e.id in clock && e.id !in left && e.at == clock[e.id]
      decreases left
    {
      var id :| id in left;
      s := s + [Entry(id, clock[id])];
      left := left - {id};
    }
  }

  /** ORDER BY at DESC, id DESC OFFSET offset: the same rows for every scan order. */
  method SelectBeyond(clock: map<string, int>, offset: nat) returns (gone: set<string>)
    ensures gone == Beyond(clock, offset)
  {
    var s := Scan(clock);
    var sorted := Sort(Newer, s);
    NewerIsTotal(s);
    SortDistinct(Newer, s);
    SortMembers(Newer, s);
    var tail := if offset <= |sorted| then sorted[offset..] else [];
    gone := set e | e in tail :: e.id;
    RankedListIsBeyond(sorted, clock, offset, tail);
  }

  lemma RankedListIsBeyond(s: seq<Entry>, clock: map<string, int>, offset: nat, tail: seq<Entry>)
    requires (forall e :: e in s <==> e.id in clock && e.at == clock[e.id]) && StrictlySorted(Newer, s)
    requires tail == if offset <= |s| then s[offset..] else []
    ensures Lists(s, clock) && Ids(tail) == Beyond(clock, offset)
  {
    NewerIsTotal(s);
    forall id ensures id in Ids(tail) <==> id in Beyond(clock, offset) {
      if id in Ids(tail) {
        var i :| 0 <= i < |tail| && tail[i].id == id;
        AheadIsThePrefix(s, clock, offset + i);
      }
      if id in Beyond(clock, offset) {
        assert Entry(id, clock[id]) in s;
        var i :| 0 <= i < |s| && s[i] == Entry(id, clock[id]);
        AheadIsThePrefix(s, clock, i);
        assert tail[i - offset] == s[i];
      }
    }
  }

  function Buried(repos: Table, evicted: map<string, Tombstone>, gone: set<string>, now: int): map<string, Tombstone>
    requires gone <= repos.Keys
  {
    map id | id in evicted.Keys + gone ::
      if id in gone then Tombstone(repos[id].remote, repos[id].ref, repos[id].commit, repos[id].indexedAt, now)
      else evicted[id]
  }

  function BurialClock(evicted: map<string, Tombstone>): map<string, int> {
    map id | id in evicted :: evicted[id].evictedAt
  }

  predicate Gone(repos: Table, evicted: map<string, Tombstone>, id: string) {
    id in evicted && id !in repos
  }

  /** A statement that winds or shrinks the corpus. */
  datatype Event =
    | Put(id: string, remote: string, ref: string, commit: string, files: nat, size: int, now: int)
    | Fill(id: string, spans: nat)
    | Touch(id: string, now: int)
    | Evict
    | DeleteEmpty(id: string)

  function Step(keep: nat, t: Table, e: Event): Table {
    match e
    case Put(id, remote, ref, commit, files, size, now) =>
      t[id := if id in t
              then t[id].(ref := ref, files := files, size := size, indexedAt := now, lastQueriedAt := now)
              else Repo(remote, ref, commit, files, size, 0, now, now)]
    case Fill(id, spans) => if id in t then t[id := t[id].(spans := spans)] else t
    case Touch(id, now) => if id in t then t[id := t[id].(lastQueriedAt := now)] else t
    case Evict => t - Beyond(Clock(t), keep)
    case DeleteEmpty(id) => if id in t && t[id].spans == 0 then t - {id} else t
  }

  datatype Eviction = Rejected | Untrimmed(count: nat) | Evicted(count: nat)

  class Store {
    var repos: Table
    var evicted: map<string, Tombstone>

    constructor ()
      ensures repos == map[] && evicted == map[]
    {
      repos, evicted := map[], map[];
    }

    method PutRepo(id: string, remote: string, ref: string, commit: string, files: nat, size: int, now: int)
      modifies this`repos
      ensures repos == Step(0, old(repos), Put(id, remote, ref, commit, files, size, now))
      ensures id in repos && repos == old(repos)[id := repos[id]]
      ensures var r := repos[id];
        && r.ref == ref && r.files == files && r.size == size && r.indexedAt == now && r.lastQueriedAt == now
        && (if id in old(repos)
            then var was := old(repos)[id]; r.remote == was.remote && r.commit == was.commit && r.spans == was.spans
            else r.remote == remote && r.commit == commit && r.spans == 0)
    {
      if id in repos {
        var row := repos[id];
        repos := repos[id := row.(ref := ref, files := files, size := size, indexedAt := now, lastQueriedAt := now)];
      } else {
        repos := repos[id := Repo(remote, ref, commit, files, size, 0, now, now)];
      }
    }

    method TouchRepo(id: string, now: int)
      modifies this`repos
      ensures repos == Step(0, old(repos), Touch(id, now))
      ensures repos == if id in old(repos) then old(repos)[id := old(repos)[id].(lastQueriedAt := now)] else old(repos)
    {
      if id in repos {
        repos := repos[id := repos[id].(lastQueriedAt := now)];
      }
    }

    method DeleteEmptyRepo(id: string) returns (deleted: bool)
      modifies this`repos
      ensures repos == Step(0, old(repos), DeleteEmpty(id))
      ensures deleted <==> id in old(repos) && old(repos)[id].spans == 0
      ensures repos == if deleted then old(repos) - {id} else old(repos)
    {
      deleted := id in repos && repos[id].spans == 0;
      if deleted {
        repos := repos - {id};
      }
    }

    /** A negative offset is refused by the statement that carries it. */
    method Evict(keep: int, keepTombstones: int, now: int) returns (r: Eviction)
      modifies this
      ensures keep < 0 ==> r == Rejected && repos == old(repos) && evicted == old(evicted)
      ensures keep >= 0 ==>
        var gone := Beyond(Clock(old(repos)), keep);
        var buried := Buried(old(repos), old(evicted), gone, now);
        && repos == Step(keep, old(repos), Event.Evict)
        && (keepTombstones < 0 ==> evicted == buried && r == Untrimmed(|gone|))
        && (keepTombstones >= 0 ==>
              evicted == buried - Beyond(BurialClock(buried), keepTombstones) && r == Evicted(|gone|))
    {
      if keep < 0 {
        return Rejected;
      }
      var gone := SelectBeyond(Clock(repos), keep);
      evicted := Buried(repos, evicted, gone, now);
      repos := repos - gone;
      if keepTombstones < 0 {
        return Untrimmed(|gone|);
      }
      var forgotten := SelectBeyond(BurialClock(evicted), keepTombstones);
      evicted := evicted - forgotten;
      return Evicted(|gone|);
    }

    method RepoGone(id: string) returns (gone: bool)
      ensures gone <==> Gone(repos, evicted, id)
    {
      gone := id in evicted && id !in repos;
    }
  }

  // What eviction keeps

  lemma {:induction false} Listing(clock: map<string, int>, left: set<string>) returns (s: seq<Entry>)
    requires left <= clock.Keys
    ensures Distinct(s) && forall e :: e in s <==> e.id in left && e.at == clock[e.id]
    decreases left
  {
    if left == {} {
      s := [];
    } else {
      var id :| id in left;
      s := Listing(clock, left - {id});
      s := s + [Entry(id, clock[id])];
    }
  }

  /** The rows of a table in ranked order. */
  lemma Ranking(clock: map<string, int>) returns (s: seq<Entry>)
    ensures Lists(s, clock) && StrictlySorted(Newer, s)
  {
    var rows := Listing(clock, clock.Keys);
    s := Sort(Newer, rows);
    NewerIsTotal(rows);
    SortDistinct(Newer, rows);
    SortMembers(Newer, rows);
    RankedListIsBeyond(s, clock, |s|, []);
  }

  lemma RankedCovers(s: seq<Entry>, clock: map<string, int>)
    requires Lists(s, clock)
    ensures Ids(s) == clock.Keys && |s| == |clock|
  {
    forall id | id in clock ensures id in Ids(s) {
      assert Entry(id, clock[id]) in s;
    }
    IdsCount(s, clock);
  }

  /** What stays is the head of the ranked list. */
  lemma KeptIsThePrefix(s: seq<Entry>, clock: map<string, int>, keep: nat)
    requires Lists(s, clock) && StrictlySorted(Newer, s)
    ensures |clock.Keys - Beyond(clock, keep)| == Min(keep, |clock|)
  {
    var kept := clock.Keys - Beyond(clock, keep);
    RankedCovers(s, clock);
    if keep <= |s| {
      RankedListIsBeyond(s, clock, keep, s[keep..]);
      DistinctSlice(s, clock, keep);
      assert Beyond(clock, keep) <= clock.Keys;
      assert |kept| == |clock.Keys| - |Beyond(clock, keep)|;
    } else {
      RankedListIsBeyond(s, clock, keep, []);
      assert Beyond(clock, keep) == {};
      assert kept == clock.Keys;
    }
  }

  lemma DistinctSlice(s: seq<Entry>, clock: map<string, int>, keep: nat)
    requires Lists(s, clock) && keep <= |s|
    ensures |Ids(s[keep..])| == |s| - keep
  {
    forall e | e in s[keep..] ensures e.id in clock && e.at == clock[e.id] {
      assert e in s;
    }
    IdsCount(s[keep..], clock);
  }

  lemma KeptCount(clock: map<string, int>, keep: nat)
    ensures |clock.Keys - Beyond(clock, keep)| == Min(keep, |clock|)
  {
    var ranked := Ranking(clock);
    KeptIsThePrefix(ranked, clock, keep);
  }

  /** Exactly the keep most recently used rows stay, every one ahead of every row that goes. */
  lemma EvictionKeepsTheTop(clock: map<string, int>, keep: nat)
    ensures |clock.Keys - Beyond(clock, keep)| == Min(keep, |clock|)
    ensures Beyond(clock, keep) <= clock.Keys
    ensures forall a, b :: a in clock.Keys - Beyond(clock, keep) && b in Beyond(clock, keep) ==>
      clock[a] > clock[b] || (clock[a] == clock[b] && TextLess(b, a))
  {
    var ranked := Ranking(clock);
    KeptCount(clock, keep);
    forall a, b | a in clock.Keys - Beyond(clock, keep) && b in Beyond(clock, keep)
      ensures clock[a] > clock[b] || (clock[a] == clock[b] && TextLess(b, a))
    {
      KeptBeatsGone(ranked, clock, keep, a, b);
    }
  }

  lemma KeptBeatsGone(s: seq<Entry>, clock: map<string, int>, keep: nat, a: string, b: string)
    requires Lists(s, clock) && StrictlySorted(Newer, s)
    requires a in clock.Keys - Beyond(clock, keep) && b in Beyond(clock, keep)
    ensures Newer(Entry(a, clock[a]), Entry(b, clock[b]))
  {
    assert Entry(a, clock[a]) in s && Entry(b, clock[b]) in s;
    var i :| 0 <= i < |s| && s[i] == Entry(a, clock[a]);
    var j :| 0 <= j < |s| && s[j] == Entry(b, clock[b]);
    AheadIsThePrefix(s, clock, i);
    AheadIsThePrefix(s, clock, j);
  }

  /** A tombstone says what its row said, at the time it went; one that was there already is
      replaced, and no other changes. */
  lemma TombstonesRecordTheRows(repos: Table, evicted: map<string, Tombstone>, gone: set<string>, now: int)
    requires gone <= repos.Keys
    ensures var buried := Buried(repos, evicted, gone, now);
      && buried.Keys == evicted.Keys + gone
      && (forall id :: id in gone ==>
            var t, r := buried[id], repos[id];
            && t.remote == r.remote && t.ref == r.ref && t.commit == r.commit
            && t.indexedAt == r.indexedAt && t.evictedAt == now)
      && (forall id :: id in evicted && id !in gone ==> buried[id] == evicted[id])
      && (forall id :: id in buried ==> id in BurialClock(buried) && BurialClock(buried)[id] == buried[id].evictedAt)
  {
  }

  /** A job's own eviction cannot take what it just wrote, unless something was used since. */
  lemma FreshRowSurvives(t: Table, put: Event, keep: nat)
    requires put.Put? && keep > 0
    requires forall id :: id in t ==> t[id].lastQueriedAt < put.now
    ensures put.id in Step(keep, Step(keep, t, put), Evict)
  {
    var after := Step(keep, t, put);
    assert Ahead(Clock(after), put.id) == {} by {
      TextLessIrreflexive(put.id);
    }
  }

  /** An evicted repository reads as gone for as long as its tombstone is among the newest:
      at once, when the trim has room for this eviction's own. */
  lemma EvictedReadsGone(repos: Table, evicted: map<string, Tombstone>, keep: nat, room: nat, now: int, id: string)
    requires id in Beyond(Clock(repos), keep) && |Beyond(Clock(repos), keep)| <= room
    requires forall o :: o in evicted ==> evicted[o].evictedAt < now
    ensures var buried := Buried(repos, evicted, Beyond(Clock(repos), keep), now);
      Gone(Step(keep, repos, Evict), buried - Beyond(BurialClock(buried), room), id)
  {
    var gone := Beyond(Clock(repos), keep);
    var buried := Buried(repos, evicted, gone, now);
    var ahead := Ahead(BurialClock(buried), id);
    TextLessIrreflexive(id);
    assert ahead <= gone - {id};
    SubsetCount(ahead, gone - {id});
  }

  // Inclusion: a larger corpus holds whatever a smaller one does

  function RunOn(keep: nat, t: Table, events: seq<Event>): Table {
    if events == [] then t else Step(keep, RunOn(keep, t, events[..|events| - 1]), events[|events| - 1])
  }

  /** A corpus from its first statement on. */
  function Run(keep: nat, events: seq<Event>): Table {
    RunOn(keep, map[], events)
  }

  lemma {:induction false} RunOnAppends(keep: nat, t: Table, a: seq<Event>, b: seq<Event>)
    ensures RunOn(keep, t, a + b) == RunOn(keep, RunOn(keep, t, a), b)
  {
    if b == [] {
      assert a + b == a;
    } else {
      var n := |b| - 1;
      assert (a + b)[..|a| + n] == a + b[..n];
      RunOnAppends(keep, t, a, b[..n]);
    }
  }

  lemma RunOnSnoc(keep: nat, t: Table, events: seq<Event>, e: Event)
    ensures RunOn(keep, t, events + [e]) == Step(keep, RunOn(keep, t, events), e)
  {
    assert (events + [e])[..|events|] == events;
  }

  /** small is part of large, on the same clock. */
  ghost predicate Inside(small: Table, large: Table) {
    forall id {:trigger id in small} :: id in small ==>
      id in large && small[id].lastQueriedAt == large[id].lastQueriedAt && (small[id].spans > 0 ==> large[id].spans > 0)
  }

  /** d holds at most room keys more than its subset c. */
  ghost predicate Roomy(c: set<string>, d: set<string>, room: nat) {
    c <= d && |d| <= |c| + room
  }

  /** small is part of large, which holds at most room rows more. */
  ghost predicate Within(small: Table, large: Table, room: nat) {
    Inside(small, large) && Roomy(small.Keys, large.Keys, room)
  }

  /** The one deletion that matters: the larger corpus keeps the row, for it still has the spans
      of an earlier index of the same commit, and already holds as many rows more as it may. */
  predicate Splits(small: Table, large: Table, room: nat, e: Event) {
    && e.DeleteEmpty? && e.id in small && e.id in large && small[e.id].spans == 0 && large[e.id].spans > 0
    && |large| == |small| + room
  }

  lemma SubsetCount(a: set<string>, b: set<string>)
    requires a <= b
    ensures |a| <= |b| && |b - a| == |b| - |a|
  {
    assert b == a + (b - a);
  }

  lemma RoomyAdds(c: set<string>, d: set<string>, room: nat, id: string)
    requires Roomy(c, d, room)
    ensures Roomy(c + {id}, d + {id}, room)
  {
    if id in c {
      assert c + {id} == c && d + {id} == d;
    } else if id in d {
      assert d + {id} == d;
    }
  }

  lemma RoomyRemoves(c: set<string>, d: set<string>, room: nat, id: string)
    requires Roomy(c, d, room)
    ensures Roomy(c - {id}, d - {id}, room)
    ensures id !in c ==> Roomy(c, d - {id}, room)
    ensures |d| < |c| + room ==> Roomy(c - {id}, d, room)
  {
    if id in c {
      assert |c - {id}| == |c| - 1 && |d - {id}| == |d| - 1;
    } else {
      assert c - {id} == c;
      SubsetCount(d - {id}, d);
    }
  }

  /** Eviction on clocks alone: what a smaller keep leaves, a larger keep leaves too. */
  lemma LargerKeepsMore(c: map<string, int>, d: map<string, int>, k: nat, room: nat, id: string)
    requires Roomy(c.Keys, d.Keys, room) && (forall o :: o in c ==> c[o] == d[o])
    requires id in c && id !in Beyond(c, k)
    ensures id !in Beyond(d, k + room)
  {
    var others := d.Keys - c.Keys;
    SubsetCount(c.Keys, d.Keys);
    assert Ahead(d, id) <= Ahead(c, id) + others;
    SubsetCount(Ahead(d, id), Ahead(c, id) + others);
  }

  lemma LargerLeavesLittleMore(c: map<string, int>, d: map<string, int>, k: nat, room: nat)
    requires |d| <= |c| + room
    ensures |d.Keys - Beyond(d, k + room)| <= |c.Keys - Beyond(c, k)| + room
  {
    KeptCount(c, k);
    KeptCount(d, k + room);
  }

  /** The same on whole clocks, with the count. */
  lemma ClocksStayRoomy(c: map<string, int>, d: map<string, int>, k: nat, room: nat)
    requires Roomy(c.Keys, d.Keys, room) && (forall o :: o in c ==> c[o] == d[o])
    ensures Roomy(c.Keys - Beyond(c, k), d.Keys - Beyond(d, k + room), room)
  {
    forall id | id in c && id !in Beyond(c, k) ensures id in d && id !in Beyond(d, k + room) {
      LargerKeepsMore(c, d, k, room, id);
    }
    LargerLeavesLittleMore(c, d, k, room);
  }

  lemma RemovedStayInside(small: Table, large: Table, b: set<string>, e: set<string>)
    requires Inside(small, large) && small.Keys - b <= large.Keys - e
    ensures Inside(small - b, large - e)
    ensures (small - b).Keys == small.Keys - b && (large - e).Keys == large.Keys - e
  {
  }

  lemma EvictStaysWithin(small: Table, large: Table, k: nat, room: nat)
    requires Within(small, large, room)
    ensures Within(Step(k, small, Evict), Step(k + room, large, Evict), room)
  {
    var c, d := Clock(small), Clock(large);
    assert c.Keys == small.Keys && d.Keys == large.Keys;
    ClocksStayRoomy(c, d, k, room);
    RemovedStayInside(small, large, Beyond(c, k), Beyond(d, k + room));
  }

  lemma BothUpdated(small: Table, large: Table, id: string, s: Repo, l: Repo)
    requires Inside(small, large)
    requires s.lastQueriedAt == l.lastQueriedAt && (s.spans > 0 ==> l.spans > 0)
    ensures Inside(small[id := s], large[id := l])
    ensures small[id := s].Keys == small.Keys + {id} && large[id := l].Keys == large.Keys + {id}
  {
  }

  /** A write to a row only the larger corpus holds is no event for the smaller. */
  lemma LargerUpdated(small: Table, large: Table, room: nat, id: string, l: Repo)
    requires Within(small, large, room) && id in large && id !in small
    ensures Within(small, large[id := l], room)
  {
    assert large[id := l].Keys == large.Keys;
  }

  lemma WritesStayWithin(small: Table, large: Table, room: nat, e: Event)
    requires Within(small, large, room) && (e.Put? || e.Touch? || e.Fill?)
    ensures Within(Step(0, small, e), Step(0, large, e), room)
  {
    var s, l := Step(0, small, e), Step(0, large, e);
    if e.Put? || e.id in small {
      BothUpdated(small, large, e.id, s[e.id], l[e.id]);
      RoomyAdds(small.Keys, large.Keys, room, e.id);
    } else if e.id in large {
      LargerUpdated(small, large, room, e.id, l[e.id]);
    }
  }

  lemma DeleteStaysWithin(small: Table, large: Table, room: nat, id: string)
    requires Within(small, large, room) && !Splits(small, large, room, DeleteEmpty(id))
    ensures Within(Step(0, small, DeleteEmpty(id)), Step(0, large, DeleteEmpty(id)), room)
  {
    RoomyRemoves(small.Keys, large.Keys, room, id);
    if id in small && small[id].spans == 0 {
      RemovedStayInside(small, large, {id}, if large[id].spans == 0 then {id} else {});
      assert large - {} == large;
    } else if id in large && large[id].spans == 0 {
      RemovedStayInside(small, large, {}, {id});
      assert small - {} == small;
    }
  }

  lemma StepStaysWithin(small: Table, large: Table, k: nat, room: nat, e: Event)
    requires Within(small, large, room) && !Splits(small, large, room, e)
    ensures Within(Step(k, small, e), Step(k + room, large, e), room)
  {
    if e.Evict? {
      EvictStaysWithin(small, large, k, room);
    } else if e.DeleteEmpty? {
      DeleteStaysWithin(small, large, room, e.id);
    } else {
      WritesStayWithin(small, large, room, e);
    }
  }

  /** The event at i splits the corpora that the trace has led to. */
  predicate SplitsAt(k: nat, room: nat, events: seq<Event>, i: nat)
    requires i < |events|
  {
    Splits(Run(k, events[..i]), Run(k + room, events[..i]), room, events[i])
  }

  /** No deletion of an empty row along the run splits the two corpora. */
  ghost predicate Agreeing(k: nat, room: nat, events: seq<Event>) {
    forall i {:trigger SplitsAt(k, room, events, i)} :: 0 <= i < |events| ==> !SplitsAt(k, room, events, i)
  }

  /** Over every trace, the corpus under a smaller keep is part of the corpus under a larger. */
  lemma {:induction false} CorpusIsInclusive(k: nat, room: nat, events: seq<Event>)
    requires Agreeing(k, room, events)
    ensures Within(Run(k, events), Run(k + room, events), room)
  {
    if events != [] {
      var n := |events| - 1;
      AgreeingPrefix(k, room, events, n);
      CorpusIsInclusive(k, room, events[..n]);
      assert !SplitsAt(k, room, events, n);
      StepStaysWithin(Run(k, events[..n]), Run(k + room, events[..n]), k, room, events[n]);
    }
  }

  ghost predicate DeletionFree(events: seq<Event>) {
    forall e :: e in events ==> !e.DeleteEmpty?
  }

  lemma {:induction false} DeletionFreeStaysWithin(small: Table, large: Table, k: nat, room: nat, events: seq<Event>)
    requires Within(small, large, room) && DeletionFree(events)
    ensures Within(RunOn(k, small, events), RunOn(k + room, large, events), room)
  {
    if events != [] {
      var n := |events| - 1;
      DeletionFreeStaysWithin(small, large, k, room, events[..n]);
      StepStaysWithin(RunOn(k, small, events[..n]), RunOn(k + room, large, events[..n]), k, room, events[n]);
    }
  }

  /** Puts, touches and evictions never split, whatever their clocks. */
  lemma TracesWithoutDeletionAreInclusive(k: nat, room: nat, events: seq<Event>)
    requires DeletionFree(events)
    ensures Run(k, events).Keys <= Run(k + room, events).Keys
    ensures forall id :: id in Run(k, events) ==>
      Run(k, events)[id].lastQueriedAt == Run(k + room, events)[id].lastQueriedAt
  {
    DeletionFreeStaysWithin(map[], map[], k, room, events);
  }

  // What a split deletion leads to

  lemma {:induction false} LatestUse(t: Table, ids: set<string>) returns (latest: int)
    requires ids <= t.Keys
    ensures forall id :: id in ids ==> t[id].lastQueriedAt <= latest
    decreases ids
  {
    if ids == {} {
      latest := 0;
    } else {
      var id :| id in ids;
      var rest := LatestUse(t, ids - {id});
      latest := Max(rest, t[id].lastQueriedAt);
    }
  }

  lemma {:induction false} LongestId(ids: set<string>) returns (n: nat)
    ensures forall id :: id in ids ==> |id| <= n
    decreases ids
  {
    if ids == {} {
      n := 0;
    } else {
      var id :| id in ids;
      var rest := LongestId(ids - {id});
      n := Max(rest, |id|);
    }
  }

  lemma {:induction false} FreshIds(used: set<string>, n: nat) returns (ids: set<string>)
    ensures |ids| == n && ids !! used
  {
    if n == 0 {
      ids := {};
    } else {
      ids := FreshIds(used, n - 1);
      var longest := LongestId(used + ids);
      var id := seq(longest + 1, _ => 'x');
      assert id !in used + ids;
      ids := ids + {id};
    }
  }

  lemma {:induction false} Listed(ids: set<string>) returns (s: seq<string>)
    ensures forall id :: id in s <==> id in ids
    decreases ids
  {
    if ids == {} {
      s := [];
    } else {
      var id :| id in ids;
      s := Listed(ids - {id});
      s := s + [id];
    }
  }

  function Indexed(id: string, at: int): Event {
    Put(id, "r", "main", "c", 1, 1, at)
  }

  function Puts(ids: seq<string>, at: int): seq<Event> {
    if ids == [] then [] else Puts(ids[..|ids| - 1], at) + [Indexed(ids[|ids| - 1], at)]
  }

  function Touches(ids: seq<string>, at: int): seq<Event> {
    if ids == [] then [] else Touches(ids[..|ids| - 1], at) + [Touch(ids[|ids| - 1], at)]
  }

  /** Every row of ids was last used at at; every other one of t when it was. */
  ghost predicate Used(t: Table, ids: seq<string>, at: int, t': Table) {
    forall id :: id in t' ==>
      t'[id].lastQueriedAt == if id in ids then at else if id in t then t[id].lastQueriedAt else at
  }

  lemma {:induction false} AfterPuts(keep: nat, t: Table, ids: seq<string>, at: int)
    ensures var t' := RunOn(keep, t, Puts(ids, at)); t'.Keys == t.Keys + (set id | id in ids) && Used(t, ids, at, t')
    ensures DeletionFree(Puts(ids, at))
  {
    if ids != [] {
      var front, last := ids[..|ids| - 1], ids[|ids| - 1];
      AfterPuts(keep, t, front, at);
      assert ids == front + [last];
      RunOnSnoc(keep, t, Puts(front, at), Indexed(last, at));
    }
  }

  lemma {:induction false} AfterTouches(keep: nat, t: Table, ids: seq<string>, at: int)
    ensures var t' := RunOn(keep, t, Touches(ids, at)); t'.Keys == t.Keys && Used(t, ids, at, t')
    ensures DeletionFree(Touches(ids, at))
  {
    if ids != [] {
      var front, last := ids[..|ids| - 1], ids[|ids| - 1];
      AfterTouches(keep, t, front, at);
      assert ids == front + [last];
      RunOnSnoc(keep, t, Touches(front, at), Touch(last, at));
    }
  }

  /** Index one repository, then others, read some, and evict. */
  function Crowding(id: string, others: seq<string>, reread: seq<string>, at: int): seq<Event> {
    [Indexed(id, at)] + Puts(others, at + 1) + Touches(reread, at + 2) + [Evict]
  }

  lemma CrowdingRuns(keep: nat, t: Table, id: string, others: seq<string>, reread: seq<string>, at: int)
    ensures RunOn(keep, t, Crowding(id, others, reread, at)) ==
      var puts := RunOn(keep, Step(keep, t, Indexed(id, at)), Puts(others, at + 1));
      Step(keep, RunOn(keep, puts, Touches(reread, at + 2)), Evict)
  {
    var first, puts, touches := [Indexed(id, at)], Puts(others, at + 1), Touches(reread, at + 2);
    assert first[..0] == [];
    RunOnAppends(keep, t, first, puts);
    RunOnAppends(keep, t, first + puts, touches);
    RunOnSnoc(keep, t, first + puts + touches, Evict);
  }

  /** The repository indexed first survives exactly when the others, and what was read of the
      old rows, leave it a place. */
  lemma Crowded(keep: nat, t: Table, id: string, others: seq<string>, reread: seq<string>, at: int, ahead: set<string>)
    requires id !in t && id !in others && id !in reread && (forall o :: o in others ==> o !in t && o !in reread)
    requires forall o :: o in t ==> t[o].lastQueriedAt < at
    requires forall o :: o in ahead <==> o in others || (o in reread && o in t)
    ensures id in RunOn(keep, t, Crowding(id, others, reread, at)) <==> |ahead| < keep
  {
    var t1 := Step(keep, t, Indexed(id, at));
    var t2 := RunOn(keep, t1, Puts(others, at + 1));
    var t3 := RunOn(keep, t2, Touches(reread, at + 2));
    CrowdingRuns(keep, t, id, others, reread, at);
    AfterPuts(keep, t1, others, at + 1);
    AfterTouches(keep, t2, reread, at + 2);
    TextLessIrreflexive(id);
    var clock := Clock(t3);
    AheadAfterCrowding(clock, t, id, others, reread, at, ahead);
  }

  lemma AheadAfterCrowding(clock: map<string, int>, t: Table, id: string, others: seq<string>, reread: seq<string>,
                           at: int, ahead: set<string>)
    requires id !in t && id !in others && id !in reread && (forall o :: o in others ==> o !in t && o !in reread)
    requires forall o :: o in t ==> t[o].lastQueriedAt < at
    requires forall o :: o in ahead <==> o in others || (o in reread && o in t)
    requires forall o :: o in clock <==> o == id || o in t || o in others
    requires forall o :: o in clock ==>
      clock[o] == if o in reread then at + 2 else if o in others then at + 1
                  else if o in t then t[o].lastQueriedAt else at
    ensures Ahead(clock, id) == ahead
  {
    TextLessIrreflexive(id);
  }

  /** The larger corpus holds one row more than the difference of the keeps. */
  ghost predicate Overfull(s: Table, l: Table, room: nat) {
    && s.Keys <= l.Keys && |l.Keys| == |s.Keys| + room + 1
    && forall id :: id in s ==> s[id].lastQueriedAt == l[id].lastQueriedAt
  }

  lemma SplitLeaves(small: Table, large: Table, k: nat, room: nat, e: Event)
    requires Within(small, large, room) && Splits(small, large, room, e)
    ensures Overfull(Step(k, small, e), Step(k + room, large, e), room)
  {
    var s := Step(k, small, e);
    assert s.Keys == small.Keys - {e.id} && Step(k + room, large, e) == large;
    assert |s.Keys| == |small.Keys| - 1;
  }

  lemma Union(a: set<string>, b: set<string>) returns (both: set<string>)
    requires a !! b
    ensures |both| == |a| + |b| && forall o :: o in both <==> o in a || o in b
  {
    both := a + b;
  }

  lemma Extra(a: set<string>, b: set<string>) returns (extra: set<string>)
    requires a <= b
    ensures a !! extra && a + extra == b && |extra| == |b| - |a|
  {
    extra := b - a;
    SubsetCount(a, b);
  }

  lemma FreshRows(used: set<string>, k: nat) returns (id: string, others: set<string>)
    requires k >= 1
    ensures |others| == k - 1 && id !in others && id !in used && others !! used
  {
    var unused := FreshIds(used, k);
    id :| id in unused;
    others := unused - {id};
  }

  lemma CrowdingIsDeletionFree(id: string, others: seq<string>, reread: seq<string>, at: int)
    ensures DeletionFree(Crowding(id, others, reread, at))
  {
    AfterPuts(0, map[], others, at + 1);
    AfterTouches(0, map[], reread, at + 2);
  }

  /** The others and the extra rows are one too many for the larger corpus; the smaller, which
      has none of the extra ones, has a place left. */
  lemma CrowdedApart(s: Table, l: Table, k: nat, room: nat, id: string, others: set<string>, ahead: set<string>,
                     rest: seq<string>, reread: seq<string>, at: int)
    requires |others| < k && |ahead| >= k + room
    requires id !in s && id !in l && id !in rest && id !in reread
    requires forall o :: o in rest ==> o !in s && o !in l && o !in reread
    requires forall o :: o in reread ==> o !in s && o in l
    requires (forall o :: o in others <==> o in rest) && (forall o :: o in ahead <==> o in rest || o in reread)
    requires (forall o :: o in s ==> s[o].lastQueriedAt < at) && (forall o :: o in l ==> l[o].lastQueriedAt < at)
    ensures id in RunOn(k, s, Crowding(id, rest, reread, at))
    ensures id !in RunOn(k + room, l, Crowding(id, rest, reread, at))
  {
    assert id in RunOn(k, s, Crowding(id, rest, reread, at)) by {
      Crowded(k, s, id, rest, reread, at, others);
    }
    assert id !in RunOn(k + room, l, Crowding(id, rest, reread, at)) by {
      Crowded(k + room, l, id, rest, reread, at, ahead);
    }
  }

  /** That row is enough to crowd a fresh one out of the larger corpus alone: let keep fresh
      repositories be indexed, the rows only the larger holds be read, and eviction run. */
  lemma OverfullCanBreak(s: Table, l: Table, k: nat, room: nat) returns (later: seq<Event>, id: string)
    requires k >= 1 && Overfull(s, l, room)
    ensures DeletionFree(later)
    ensures id in RunOn(k, s, later) && id !in RunOn(k + room, l, later)
  {
    var extra := Extra(s.Keys, l.Keys);
    var others;
    id, others := FreshRows(l.Keys, k);
    var rest := Listed(others);
    var reread := Listed(extra);
    var latest := LatestUse(l, l.Keys);
    var ahead := Union(others, extra);
    later := Crowding(id, rest, reread, latest + 1);
    CrowdingIsDeletionFree(id, rest, reread, latest + 1);
    CrowdedApart(s, l, k, room, id, others, ahead, rest, reread, latest + 1);
  }

  /** So a split deletion always can break inclusion, from any two nested corpora. */
  lemma SplitCanBreak(small: Table, large: Table, k: nat, room: nat, e: Event) returns (later: seq<Event>, id: string)
    requires k >= 1 && Within(small, large, room) && Splits(small, large, room, e)
    ensures DeletionFree(later)
    ensures id in RunOn(k, Step(k, small, e), later) && id !in RunOn(k + room, Step(k + room, large, e), later)
  {
    SplitLeaves(small, large, k, room, e);
    later, id := OverfullCanBreak(Step(k, small, e), Step(k + room, large, e), k, room);
  }

  ghost predicate Included(k: nat, room: nat, events: seq<Event>) {
    Run(k, events).Keys <= Run(k + room, events).Keys
  }

  /** The corpora are nested at every point of the trace, and stay so whatever is put, written,
      read and evicted from there. */
  ghost predicate Nested(k: nat, room: nat, events: seq<Event>) {
    forall i, later :: 0 <= i <= |events| && DeletionFree(later) ==> Included(k, room, events[..i] + later)
  }

  lemma AgreeingPrefix(k: nat, room: nat, events: seq<Event>, n: nat)
    requires n <= |events| && forall i :: 0 <= i < n ==> !SplitsAt(k, room, events, i)
    ensures Agreeing(k, room, events[..n])
  {
    forall i | 0 <= i < n ensures !SplitsAt(k, room, events[..n], i) {
      assert events[..n][..i] == events[..i] && events[..n][i] == events[i];
      assert !SplitsAt(k, room, events, i);
    }
  }

  lemma AgreeingIsNested(k: nat, room: nat, events: seq<Event>)
    requires Agreeing(k, room, events)
    ensures Nested(k, room, events)
  {
    forall i, later | 0 <= i <= |events| && DeletionFree(later) ensures Included(k, room, events[..i] + later) {
      AgreeingPrefix(k, room, events, i);
      CorpusIsInclusive(k, room, events[..i]);
      DeletionFreeStaysWithin(Run(k, events[..i]), Run(k + room, events[..i]), k, room, later);
      RunOnAppends(k, map[], events[..i], later);
      RunOnAppends(k + room, map[], events[..i], later);
    }
  }

  lemma StepStaysInside(small: Table, large: Table, room: nat, e: Event)
    requires Inside(small, large)
    ensures Inside(Step(0, small, e), Step(room, large, e))
  {
    match e
    case Evict =>
      assert Step(0, small, e) == map[];
    case DeleteEmpty(id) =>
      var b := if id in small && small[id].spans == 0 then {id} else {};
      var d := if id in large && large[id].spans == 0 then {id} else {};
      RemovedStayInside(small, large, b, d);
      assert small - {} == small && large - {} == large;
    case Put(id, _, _, _, _, _, _) => BothUpdated(small, large, id, Step(0, small, e)[id], Step(0, large, e)[id]);
    case _ =>
  }

  /** A corpus that keeps nothing is inside any other, split or not. */
  lemma {:induction false} KeepingNothingIsInside(room: nat, events: seq<Event>)
    ensures Inside(Run(0, events), Run(room, events))
  {
    if events != [] {
      var n := |events| - 1;
      KeepingNothingIsInside(room, events[..n]);
      StepStaysInside(Run(0, events[..n]), Run(room, events[..n]), room, events[n]);
    }
  }

  lemma {:induction false} FirstSplit(k: nat, room: nat, events: seq<Event>, n: nat) returns (i: nat)
    requires n < |events| && SplitsAt(k, room, events, n)
    ensures i < |events| && SplitsAt(k, room, events, i) && Agreeing(k, room, events[..i])
    decreases n
  {
    if m: nat :| m < n && SplitsAt(k, room, events, m) {
      i := FirstSplit(k, room, events, m);
    } else {
      i := n;
      AgreeingPrefix(k, room, events, n);
    }
  }

  lemma RunSteps(keep: nat, events: seq<Event>, n: nat)
    requires n < |events|
    ensures Run(keep, events[..n + 1]) == Step(keep, Run(keep, events[..n]), events[n])
  {
    assert events[..n + 1][..n] == events[..n];
  }

  lemma SplitOverfills(k: nat, room: nat, events: seq<Event>, i: nat)
    requires i < |events| && SplitsAt(k, room, events, i) && Agreeing(k, room, events[..i])
    ensures Overfull(Run(k, events[..i + 1]), Run(k + room, events[..i + 1]), room)
  {
    CorpusIsInclusive(k, room, events[..i]);
    SplitLeaves(Run(k, events[..i]), Run(k + room, events[..i]), k, room, events[i]);
    RunSteps(k, events, i);
    RunSteps(k + room, events, i);
  }

  lemma PrefixIsNotIncluded(k: nat, room: nat, prefix: seq<Event>, later: seq<Event>, id: string)
    requires id in RunOn(k, Run(k, prefix), later) && id !in RunOn(k + room, Run(k + room, prefix), later)
    ensures !Included(k, room, prefix + later)
  {
    RunOnAppends(k, map[], prefix, later);
    RunOnAppends(k + room, map[], prefix, later);
  }

  lemma OverfullIsNotNested(k: nat, room: nat, prefix: seq<Event>) returns (later: seq<Event>)
    requires k >= 1 && Overfull(Run(k, prefix), Run(k + room, prefix), room)
    ensures DeletionFree(later) && !Included(k, room, prefix + later)
  {
    var id;
    later, id := OverfullCanBreak(Run(k, prefix), Run(k + room, prefix), k, room);
    PrefixIsNotIncluded(k, room, prefix, later, id);
  }

  lemma SplitIsNotNested(k: nat, room: nat, events: seq<Event>, n: nat)
    requires k >= 1 && n < |events| && SplitsAt(k, room, events, n)
    ensures !Nested(k, room, events)
  {
    var i := FirstSplit(k, room, events, n);
    SplitOverfills(k, room, events, i);
    var later := OverfullIsNotNested(k, room, events[..i + 1]);
  }

  /** The condition is exact: a trace leaves the corpora nested, now and after anything but a
      deletion, exactly when no deletion along it splits them, or the smaller keeps nothing. */
  lemma NestedIffAgreeing(k: nat, room: nat, events: seq<Event>)
    ensures Nested(k, room, events) <==> k == 0 || Agreeing(k, room, events)
  {
    if k == 0 {
      forall i, later | 0 <= i <= |events| && DeletionFree(later) ensures Included(k, room, events[..i] + later) {
        KeepingNothingIsInside(room, events[..i] + later);
      }
    } else if Agreeing(k, room, events) {
      AgreeingIsNested(k, room, events);
    } else {
      var n :| 0 <= n < |events| && SplitsAt(k, room, events, n);
      SplitIsNotNested(k, room, events, n);
    }
  }

  /** a and b are indexed and filled; a is evicted where one row is kept, indexed again, and its
      job fails before it writes spans. The clean-up takes a from the smaller corpus alone; c is
      indexed, a and b are read, and eviction runs. */
  predicate Tells(events: seq<Event>) {
    && |events| == 12
    && events[0] == Indexed("a", 0) && events[1] == Fill("a", 4) && events[2] == Indexed("b", 1)
    && events[3] == Fill("b", 4) && events[4] == Evict && events[5] == Indexed("a", 2) && events[6] == Evict
    && events[7] == DeleteEmpty("a") && events[8] == Indexed("c", 3)
    && events[9] == Touch("a", 4) && events[10] == Touch("b", 5) && events[11] == Evict
  }

  lemma EvictTwo(t: Table, older: string, young: string)
    requires t.Keys == {older, young} && t[older].lastQueriedAt < t[young].lastQueriedAt
    ensures Step(1, t, Evict) == t - {older} && Step(2, t, Evict) == t
  {
    TextLessIrreflexive(young);
    TextLessIrreflexive(older);
    assert Ahead(Clock(t), young) == {} && Ahead(Clock(t), older) == {young};
    assert Beyond(Clock(t), 1) == {older} && Beyond(Clock(t), 2) == {};
  }

  lemma EvictOne(t: Table, id: string)
    requires t.Keys == {id}
    ensures Step(1, t, Evict) == t
  {
    TextLessIrreflexive(id);
    assert Ahead(Clock(t), id) == {};
    assert Beyond(Clock(t), 1) == {};
  }

  function Row(spans: nat, at: int): Repo {
    Repo("r", "main", "c", 1, 1, spans, at, at)
  }

  lemma Told(keep: nat, events: seq<Event>, n: nat, t: Table, t': Table)
    requires n < |events| && Run(keep, events[..n]) == t && t' == Step(keep, t, events[n])
    ensures Run(keep, events[..n + 1]) == t'
  {
    RunSteps(keep, events, n);
  }

  lemma BothFilled(keep: nat, events: seq<Event>)
    requires Tells(events)
    ensures Run(keep, events[..4]) == map["a" := Row(4, 0), "b" := Row(4, 1)]
  {
    Told(keep, events, 0, map[], map["a" := Row(0, 0)]);
    Told(keep, events, 1, map["a" := Row(0, 0)], map["a" := Row(4, 0)]);
    Told(keep, events, 2, map["a" := Row(4, 0)], map["a" := Row(4, 0), "b" := Row(0, 1)]);
    Told(keep, events, 3, map["a" := Row(4, 0), "b" := Row(0, 1)], map["a" := Row(4, 0), "b" := Row(4, 1)]);
  }

  lemma SmallerEvicts()
    ensures Step(1, map["a" := Row(4, 0), "b" := Row(4, 1)], Evict) == map["b" := Row(4, 1)]
    ensures Step(1, map["b" := Row(4, 1), "a" := Row(0, 2)], Evict) == map["a" := Row(0, 2)]
  {
    EvictTwo(map["a" := Row(4, 0), "b" := Row(4, 1)], "a", "b");
    EvictTwo(map["b" := Row(4, 1), "a" := Row(0, 2)], "b", "a");
  }

  lemma LargerKeeps(before: Table, after: Table)
    requires before == map["a" := Row(4, 0), "b" := Row(4, 1)] && after == map["a" := Row(4, 2), "b" := Row(4, 1)]
    ensures Step(2, before, Evict) == before && Step(2, before, Indexed("a", 2)) == after
    ensures Step(2, after, Evict) == after
  {
    EvictTwo(before, "a", "b");
    EvictTwo(after, "b", "a");
  }

  lemma SmallerStarts(events: seq<Event>)
    requires |events| > 6 && events[4] == Evict && events[5] == Indexed("a", 2) && events[6] == Evict
    requires Run(1, events[..4]) == map["a" := Row(4, 0), "b" := Row(4, 1)]
    ensures Run(1, events[..7]) == map["a" := Row(0, 2)]
  {
    SmallerEvicts();
    Told(1, events, 4, map["a" := Row(4, 0), "b" := Row(4, 1)], map["b" := Row(4, 1)]);
    Told(1, events, 5, map["b" := Row(4, 1)], map["b" := Row(4, 1), "a" := Row(0, 2)]);
    Told(1, events, 6, map["b" := Row(4, 1), "a" := Row(0, 2)], map["a" := Row(0, 2)]);
  }

  lemma LargerStarts(events: seq<Event>, before: Table, after: Table)
    requires |events| > 6 && events[4] == Evict && events[5] == Indexed("a", 2) && events[6] == Evict
    requires Step(2, before, Evict) == before && Step(2, before, Indexed("a", 2)) == after
    requires Step(2, after, Evict) == after && Run(2, events[..4]) == before
    ensures Run(2, events[..7]) == after
  {
    Told(2, events, 4, before, before);
    Told(2, events, 5, before, after);
    Told(2, events, 6, after, after);
  }

  lemma SmallerEnds(events: seq<Event>)
    requires Tells(events)
    requires Run(1, events[..7]) == map["a" := Row(0, 2)]
    ensures "c" in Run(1, events)
  {
    var last := map["c" := Row(0, 3)];
    EvictOne(last, "c");
    Told(1, events, 7, map["a" := Row(0, 2)], map[]);
    Told(1, events, 8, map[], last);
    Told(1, events, 9, last, last);
    Told(1, events, 10, last, last);
    Told(1, events, 11, last, last);
    assert events[..12] == events;
  }

  lemma LargerDropsC(t: Table)
    requires t.Keys == {"a", "b", "c"}
    requires t["a"].lastQueriedAt == 4 && t["b"].lastQueriedAt == 5 && t["c"].lastQueriedAt == 3
    ensures "c" !in Step(2, t, Evict)
  {
    TextLessIrreflexive("c");
    assert Ahead(Clock(t), "c") == {"a", "b"};
  }

  lemma LargerEnds(events: seq<Event>)
    requires |events| == 12 && events[7] == DeleteEmpty("a") && events[8] == Indexed("c", 3)
    requires events[9] == Touch("a", 4) && events[10] == Touch("b", 5) && events[11] == Evict
    requires Run(2, events[..7]) == map["a" := Row(4, 2), "b" := Row(4, 1)]
    ensures "c" !in Run(2, events)
  {
    var a, b, c := Row(4, 2), Row(4, 1), Row(0, 3);
    var t := map["a" := a, "b" := b];
    var a', b' := a.(lastQueriedAt := 4), b.(lastQueriedAt := 5);
    Told(2, events, 7, t, t);
    Told(2, events, 8, t, map["a" := a, "b" := b, "c" := c]);
    Told(2, events, 9, map["a" := a, "b" := b, "c" := c], map["a" := a', "b" := b, "c" := c]);
    Told(2, events, 10, map["a" := a', "b" := b, "c" := c], map["a" := a', "b" := b', "c" := c]);
    var last := map["a" := a', "b" := b', "c" := c];
    LargerDropsC(last);
    Told(2, events, 11, last, Step(2, last, Evict));
    assert events[..12] == events;
  }

  lemma StorySplits(events: seq<Event>)
    requires |events| > 7 && events[7] == DeleteEmpty("a")
    requires Run(1, events[..7]) == map["a" := Row(0, 2)]
    requires Run(2, events[..7]) == map["a" := Row(4, 2), "b" := Row(4, 1)]
    ensures SplitsAt(1, 1, events, 7)
  {
    var small, large := map["a" := Row(0, 2)], map["a" := Row(4, 2), "b" := Row(4, 1)];
    assert |small| == 1 && |large| == 2;
    assert Splits(small, large, 1, events[7]);
  }

  /** One such trace from the empty corpus, under keeps of one and two: the clean-up splits the
      corpora, and four statements later the smaller holds c and the larger does not. */
  lemma SplitDeletionBreaksInclusion(events: seq<Event>)
    requires Tells(events)
    ensures SplitsAt(1, 1, events, 7)
    ensures "c" in Run(1, events) && "c" !in Run(2, events)
  {
    BothFilled(1, events);
    BothFilled(2, events);
    SmallerStarts(events);
    var before, after := map["a" := Row(4, 0), "b" := Row(4, 1)], map["a" := Row(4, 2), "b" := Row(4, 1)];
    LargerKeeps(before, after);
    LargerStarts(events, before, after);
    StorySplits(events);
    SmallerEnds(events);
    LargerEnds(events);
  }
}
