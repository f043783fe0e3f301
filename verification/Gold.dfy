/** The gold spans of a declaration: every overlap, and the largest one. */
module Gold {
  import opened Common
  import opened Order

  datatype Span = Span(id: string, path: string, start: int, end: int)

  datatype Decl = Decl(path: string, start: int, end: int)

  predicate Overlaps(d: Decl, s: Span) {
    s.path == d.path && !(d.start > s.end || s.start > d.end)
  }

  function Overlap(d: Decl, s: Span): int {
    Min(d.end, s.end) - Max(d.start, s.start) + 1
  }

  predicate Earlier(a: Span, b: Span) {
    if a.start != b.start then a.start < b.start
    else if a.end != b.end then a.end < b.end
    else TextLess(a.id, b.id)
  }

  lemma EarlierIsTotal(d: Decl, s: seq<Span>)
    requires forall x :: x in s ==> Overlaps(d, x)
    ensures StrictOrder(Earlier) && Decides(Earlier, s)
  {
    forall x: Span ensures !Earlier(x, x) {
      TextLessIrreflexive(x.id);
    }
    forall x: Span, y: Span, z: Span | Earlier(x, y) && Earlier(y, z) ensures Earlier(x, z) {
      if x.start == z.start && x.end == z.end {
        TextLessTransitive(x.id, y.id, z.id);
      }
    }
    forall x: Span, y: Span | x in s && y in s ensures x == y || Earlier(x, y) || Earlier(y, x) {
      TextLessTotal(x.id, y.id);
    }
  }

  function Hits(d: Decl, spans: seq<Span>, n: nat): seq<Span>
    requires n <= |spans|
  {
    if n == 0 then []
    else if Overlaps(d, spans[n - 1]) then Hits(d, spans, n - 1) + [spans[n - 1]]
    else Hits(d, spans, n - 1)
  }

  /** The overlapping spans in order. */
  function Ranked(d: Decl, spans: seq<Span>): seq<Span> {
    Sort(Earlier, Hits(d, spans, |spans|))
  }

  function Lenient(ranked: seq<Span>): seq<string> {
    seq(|ranked|, i requires 0 <= i < |ranked| => ranked[i].id)
  }

  /** h is the largest overlap, and the earliest of those as large; one of -1 or less is no
      overlap at all, and a declaration that ends before it starts can have no other. */
  ghost predicate Largest(d: Decl, ranked: seq<Span>, h: Span) {
    && h in ranked && Overlap(d, h) > -1
    && forall s :: s in ranked ==>
         Overlap(d, s) < Overlap(d, h) || (Overlap(d, s) == Overlap(d, h) && !Earlier(s, h))
  }

  ghost predicate NoneCounts(d: Decl, ranked: seq<Span>) {
    forall s :: s in ranked ==> Overlap(d, s) <= -1
  }

  lemma {:induction false} HitsAre(d: Decl, spans: seq<Span>, n: nat)
    requires n <= |spans|
    ensures forall s :: s in Hits(d, spans, n) <==> s in spans[..n] && Overlaps(d, s)
    ensures forall s :: multiset(Hits(d, spans, n))[s] == if Overlaps(d, s) then multiset(spans[..n])[s] else 0
  {
    if n > 0 {
      HitsAre(d, spans, n - 1);
      assert spans[..n] == spans[..n - 1] + [spans[n - 1]];
    }
  }

  /** The running best over the first n: nothing yet, or the first of the largest. */
  ghost predicate Leads(d: Decl, ranked: seq<Span>, n: nat, best: string, bestOverlap: int, at: nat)
    requires n <= |ranked|
  {
    if bestOverlap == -1 then best == "" && forall j :: 0 <= j < n ==> Overlap(d, ranked[j]) <= -1
    else
      && bestOverlap > -1 && at < n && ranked[at].id == best && Overlap(d, ranked[at]) == bestOverlap
      && (forall j :: 0 <= j < at ==> Overlap(d, ranked[j]) < bestOverlap)
      && (forall j :: at <= j < n ==> Overlap(d, ranked[j]) <= bestOverlap)
  }

  lemma LeadIsLargest(d: Decl, ranked: seq<Span>, best: string, bestOverlap: int, at: nat)
    requires Leads(d, ranked, |ranked|, best, bestOverlap, at) && bestOverlap > -1 && Sorted(Earlier, ranked)
    ensures Largest(d, ranked, ranked[at])
  {
    TextLessIrreflexive(ranked[at].id);
    forall s | s in ranked
      ensures Overlap(d, s) < bestOverlap || (Overlap(d, s) == bestOverlap && !Earlier(s, ranked[at]))
    {
      var j :| 0 <= j < |ranked| && ranked[j] == s;
    }
  }

  /** One pass over the ranked hits: strictly greater, so the order breaks the tie. */
  method Pick(d: Decl, hits: seq<Span>) returns (lenient: seq<string>, best: string)
    requires Sorted(Earlier, hits)
    ensures lenient == Lenient(hits)
    ensures NoneCounts(d, hits) ==> best == ""
    ensures !NoneCounts(d, hits) ==> exists h :: Largest(d, hits, h) && h.id == best
  {
    lenient, best := [], "";
    var bestOverlap := -1;
    ghost var at := 0;
    for i := 0 to |hits|
      invariant lenient == Lenient(hits)[..i]
      invariant Leads(d, hits, i, best, bestOverlap, at)
    {
      lenient := lenient + [hits[i].id];
      var overlap := Min(d.end, hits[i].end) - Max(d.start, hits[i].start) + 1;
      if overlap > bestOverlap {
        best, bestOverlap := hits[i].id, overlap;
        at := i;
      }
    }
    if bestOverlap > -1 {
      LeadIsLargest(d, hits, best, bestOverlap, at);
    }
  }

  method Gold(d: Decl, spans: seq<Span>) returns (lenient: seq<string>, best: string)
    ensures lenient == Lenient(Ranked(d, spans))
    ensures |lenient| == |Ranked(d, spans)| && forall i :: 0 <= i < |lenient| ==> lenient[i] == Ranked(d, spans)[i].id
    ensures NoneCounts(d, Ranked(d, spans)) ==> best == ""
    ensures !NoneCounts(d, Ranked(d, spans)) ==> exists h :: Largest(d, Ranked(d, spans), h) && h.id == best
  {
    var hits := [];
    for i := 0 to |spans|
      invariant hits == Hits(d, spans, i)
    {
      if spans[i].path != d.path {
        continue;
      }
      if d.start > spans[i].end || spans[i].start > d.end {
        continue;
      }
      hits := hits + [spans[i]];
    }
    HitsAre(d, spans, |spans|);
    EarlierIsTotal(d, hits);
    SortSorts(Earlier, hits);
    hits := Sort(Earlier, hits);
    lenient, best := Pick(d, hits);
  }

  /** Both answers are the corpus's, not the query's: any order of the same rows gives them. */
  lemma GoldIgnoresRowOrder(d: Decl, a: seq<Span>, b: seq<Span>)
    requires multiset(a) == multiset(b)
    ensures Ranked(d, a) == Ranked(d, b)
  {
    var x, y := Hits(d, a, |a|), Hits(d, b, |b|);
    HitsAre(d, a, |a|);
    HitsAre(d, b, |b|);
    assert a[..|a|] == a && b[..|b|] == b;
    assert multiset(x) == multiset(y);
    EarlierIsTotal(d, x);
    EarlierIsTotal(d, y);
    SortSorts(Earlier, x);
    SortSorts(Earlier, y);
    SortPermutes(Earlier, x);
    SortPermutes(Earlier, y);
    SortMembers(Earlier, x);
    EarlierIsTotal(d, Sort(Earlier, x));
    SortedUnique(Earlier, Sort(Earlier, x), Sort(Earlier, y));
  }

  /** There is one strict answer. */
  lemma LargestIsUnique(d: Decl, spans: seq<Span>, g: Span, h: Span)
    requires Largest(d, Ranked(d, spans), g) && Largest(d, Ranked(d, spans), h)
    ensures g == h
  {
    HitsAre(d, spans, |spans|);
    SortMembers(Earlier, Hits(d, spans, |spans|));
    EarlierIsTotal(d, Ranked(d, spans));
  }

  predicate Holds(start: int, end: int, line: int) {
    start <= line <= end
  }

  ghost predicate Shares(d: Decl, s: Span) {
    s.path == d.path && exists line :: Holds(d.start, d.end, line) && Holds(s.start, s.end, line)
  }

  lemma OverlapIsSharing(d: Decl, s: Span)
    requires d.start <= d.end && s.start <= s.end
    ensures Overlaps(d, s) <==> Shares(d, s)
    ensures Overlaps(d, s) ==> Overlap(d, s) >= 1
  {
    if Overlaps(d, s) {
      assert Holds(d.start, d.end, Max(d.start, s.start)) && Holds(s.start, s.end, Max(d.start, s.start));
    }
  }

  /** The lines from a to b. */
  ghost function Lines(a: int, b: int): set<int>
    decreases b - a
  {
    if a > b then {} else Lines(a, b - 1) + {b}
  }

  lemma {:induction false} LinesAre(a: int, b: int)
    requires a <= b + 1
    ensures |Lines(a, b)| == b - a + 1 && forall line :: line in Lines(a, b) <==> a <= line <= b
    decreases b - a
  {
    if a <= b {
      LinesAre(a, b - 1);
    }
  }

  /** The size of an overlap is the number of lines in both. */
  lemma OverlapCountsLines(d: Decl, s: Span) returns (shared: set<int>)
    requires d.start <= d.end && s.start <= s.end && Overlaps(d, s)
    ensures forall line :: line in shared <==> d.start <= line <= d.end && s.start <= line <= s.end
    ensures Overlap(d, s) == |shared|
  {
    shared := Lines(Max(d.start, s.start), Min(d.end, s.end));
    LinesAre(Max(d.start, s.start), Min(d.end, s.end));
  }

  /** The lenient spans stand by first line, then last, then id. */
  lemma RankedByPlace(d: Decl, spans: seq<Span>, i: nat, k: nat)
    requires i < k < |Ranked(d, spans)|
    ensures var a, b := Ranked(d, spans)[i], Ranked(d, spans)[k];
      && a.start <= b.start && (a.start == b.start ==> a.end <= b.end)
      && (a.start == b.start && a.end == b.end ==> a.id == b.id || TextLess(a.id, b.id))
  {
    var hits := Hits(d, spans, |spans|);
    HitsAre(d, spans, |spans|);
    EarlierIsTotal(d, hits);
    SortSorts(Earlier, hits);
    assert !Earlier(Ranked(d, spans)[k], Ranked(d, spans)[i]);
    TextLessTotal(Ranked(d, spans)[i].id, Ranked(d, spans)[k].id);
  }

  /** For a declaration and spans whose lines run forwards: a span is lenient gold exactly
      when it shares a line of the declaration's file with it, and the strict answer is
      missing only when the lenient ones are. */
  lemma GoldIsOverlap(d: Decl, spans: seq<Span>)
    requires d.start <= d.end && forall s :: s in spans ==> s.start <= s.end
    ensures forall s :: s in Ranked(d, spans) <==> s in spans && Shares(d, s)
    ensures NoneCounts(d, Ranked(d, spans)) <==> Ranked(d, spans) == []
  {
    var ranked := Ranked(d, spans);
    HitsAre(d, spans, |spans|);
    assert spans[..|spans|] == spans;
    SortMembers(Earlier, Hits(d, spans, |spans|));
    forall s | s in spans ensures Overlaps(d, s) <==> Shares(d, s) {
      OverlapIsSharing(d, s);
    }
    if ranked != [] {
      assert ranked[0] in ranked && ranked[0] in spans;
      OverlapIsSharing(d, ranked[0]);
    }
  }
}
