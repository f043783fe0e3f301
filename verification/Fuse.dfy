/** Weighted reciprocal-rank fusion of the two retrieval arms, over exact reals. */
module Fuse {
  import opened Order

  datatype Params = Params(k: int, wVector: real, wLexical: real)

  predicate Valid(p: Params) {
    p.k >= 0 && p.wVector >= 0.0 && p.wLexical >= 0.0 && !(p.wVector == 0.0 && p.wLexical == 0.0)
  }

  datatype Hit = Hit(spanId: string, path: string, startLine: int, score: real)

  /** A fused hit; a rank of 0 says the arm did not return the span. */
  datatype Fused = Fused(
    spanId: string, path: string, startLine: int, score: real,
    vectorRank: nat, vectorScore: real, lexicalRank: nat)

  function Rrf(k: int, rank: int): real
    requires k + rank > 0
  {
    1.0 / ((k + rank) as real)
  }

  type Acc = map<string, Fused>

  function Entry(acc: Acc, h: Hit): Fused {
    if h.spanId in acc then acc[h.spanId] else Fused(h.spanId, h.path, h.startLine, 0.0, 0, 0.0, 0)
  }

  function WithVector(p: Params, acc: Acc, h: Hit, rank: nat): Acc
    requires p.k >= 0 && rank > 0
  {
    var f := Entry(acc, h);
    acc[h.spanId := f.(vectorRank := rank, vectorScore := h.score, score := f.score + p.wVector * Rrf(p.k, rank))]
  }

  function WithLexical(p: Params, acc: Acc, h: Hit, rank: nat): Acc
    requires p.k >= 0 && rank > 0
  {
    var f := Entry(acc, h);
    acc[h.spanId := f.(lexicalRank := rank, score := f.score + p.wLexical * Rrf(p.k, rank))]
  }

  /** The map after the first n hits of the vector arm. */
  function AddVector(p: Params, arm: seq<Hit>, n: nat): Acc
    requires p.k >= 0 && n <= |arm|
  {
    if n == 0 then map[] else WithVector(p, AddVector(p, arm, n - 1), arm[n - 1], n)
  }

  /** The map after the whole vector arm and the first n hits of the lexical one. */
  function AddLexical(p: Params, vector: seq<Hit>, arm: seq<Hit>, n: nat): Acc
    requires p.k >= 0 && n <= |arm|
  {
    if n == 0 then AddVector(p, vector, |vector|)
    else WithLexical(p, AddLexical(p, vector, arm, n - 1), arm[n - 1], n)
  }

  function Accumulated(p: Params, vector: seq<Hit>, lexical: seq<Hit>): Acc
    requires p.k >= 0
  {
    AddLexical(p, vector, lexical, |lexical|)
  }

  /** sortFused's order: better score, then path, then line, then id. */
  predicate Before(a: Fused, b: Fused) {
    if a.score != b.score then a.score > b.score
    else if a.path != b.path then TextLess(a.path, b.path)
    else if a.startLine != b.startLine then a.startLine < b.startLine
    else TextLess(a.spanId, b.spanId)
  }

  ghost predicate Keyed(acc: Acc) {
    forall id :: id in acc ==> acc[id].spanId == id
  }

  lemma BeforeIsStrict()
    ensures StrictOrder(Before)
  {
    forall a: Fused ensures !Before(a, a) {
      TextLessIrreflexive(a.spanId);
    }
    forall a: Fused, b: Fused, c: Fused | Before(a, b) && Before(b, c) ensures Before(a, c) {
      BeforeIsTransitive(a, b, c);
    }
  }

  lemma BeforeIsTransitive(a: Fused, b: Fused, c: Fused)
    requires Before(a, b) && Before(b, c)
    ensures Before(a, c)
  {
    if a.score == b.score == c.score {
      if a.path == b.path == c.path {
        if a.startLine == b.startLine == c.startLine {
          TextLessTransitive(a.spanId, b.spanId, c.spanId);
        }
      } else if a.path != b.path && b.path != c.path {
        TextLessTransitive(a.path, b.path, c.path);
        TextLessIrreflexive(a.path);
      }
    }
  }

  /** Ids decide every tie that score, path and line leave. */
  lemma BeforeDecides(s: seq<Fused>, acc: Acc)
    requires Keyed(acc) && forall f :: f in s ==> f.spanId in acc && acc[f.spanId] == f
    ensures Decides(Before, s)
  {
    forall a: Fused, b: Fused | a in s && b in s ensures a == b || Before(a, b) || Before(b, a) {
      TextLessTotal(a.path, b.path);
      TextLessTotal(a.spanId, b.spanId);
    }
  }

  /** out is acc's entries, in order. */
  ghost predicate Ranks(acc: Acc, out: seq<Fused>) {
    && StrictlySorted(Before, out)
    && (forall f :: f in out <==> f.spanId in acc && acc[f.spanId] == f)
  }

  lemma {:induction false} VectorKeyed(p: Params, arm: seq<Hit>, n: nat)
    requires p.k >= 0 && n <= |arm|
    ensures Keyed(AddVector(p, arm, n))
  {
    if n > 0 {
      VectorKeyed(p, arm, n - 1);
    }
  }

  lemma {:induction false} LexicalKeyed(p: Params, vector: seq<Hit>, arm: seq<Hit>, n: nat)
    requires p.k >= 0 && n <= |arm|
    ensures Keyed(AddLexical(p, vector, arm, n))
  {
    if n > 0 {
      LexicalKeyed(p, vector, arm, n - 1);
    } else {
      VectorKeyed(p, vector, |vector|);
    }
  }

  /** Ranging over a map: its entries, in whatever order the walk meets them. */
  method Entries(acc: Acc) returns (out: seq<Fused>)
    requires Keyed(acc)
    ensures Distinct(out) && forall f :: f in out <==> f.spanId in acc && acc[f.spanId] == f
  {
    out := [];
    var left := acc.Keys;
    while left != {}
      invariant left <= acc.Keys && Distinct(out)
      invariant forall f :: f in out <==> f.spanId in acc && f.spanId !in left && acc[f.spanId] == f
      decreases left
    {
      var id :| id in left;
      out := out + [acc[id]];
      left := left - {id};
    }
  }

  /** The same list whatever order the map is walked in: Ranks has one answer (RankingIsUnique). */
  method Fuse(p: Params, vector: seq<Hit>, lexical: seq<Hit>) returns (out: seq<Fused>)
    requires p.k >= 0
    ensures Ranks(Accumulated(p, vector, lexical), out)
  {
    var acc: Acc := map[];
    for i := 0 to |vector|
      invariant acc == AddVector(p, vector, i)
    {
      acc := WithVector(p, acc, vector[i], i + 1);
    }
    for i := 0 to |lexical|
      invariant acc == AddLexical(p, vector, lexical, i)
    {
      acc := WithLexical(p, acc, lexical[i], i + 1);
    }
    LexicalKeyed(p, vector, lexical, |lexical|);
    var rows := Entries(acc);
    out := Sort(Before, rows);
    BeforeIsStrict();
    BeforeDecides(rows, acc);
    SortDistinct(Before, rows);
    SortMembers(Before, rows);
  }

  lemma RankingIsUnique(p: Params, vector: seq<Hit>, lexical: seq<Hit>, a: seq<Fused>, b: seq<Fused>)
    requires p.k >= 0
    requires Ranks(Accumulated(p, vector, lexical), a) && Ranks(Accumulated(p, vector, lexical), b)
    ensures a == b
  {
    LexicalKeyed(p, vector, lexical, |lexical|);
    BeforeIsStrict();
    BeforeDecides(a, Accumulated(p, vector, lexical));
    StrictlySortedUnique(Before, a, b);
  }

  lemma {:induction false} AccumulatedKeys(p: Params, vector: seq<Hit>, lexical: seq<Hit>, n: nat, id: string)
    requires p.k >= 0 && n <= |lexical|
    ensures id in AddLexical(p, vector, lexical, n) <==>
      (exists i :: 0 <= i < |vector| && vector[i].spanId == id) || (exists i :: 0 <= i < n && lexical[i].spanId == id)
  {
    if n > 0 {
      AccumulatedKeys(p, vector, lexical, n - 1, id);
    } else {
      VectorKeys(p, vector, |vector|, id);
    }
  }

  lemma {:induction false} VectorKeys(p: Params, vector: seq<Hit>, n: nat, id: string)
    requires p.k >= 0 && n <= |vector|
    ensures id in AddVector(p, vector, n) <==> exists i :: 0 <= i < n && vector[i].spanId == id
  {
    if n > 0 {
      VectorKeys(p, vector, n - 1, id);
    }
  }

  // What a score is

  ghost predicate DistinctIds(arm: seq<Hit>) {
    forall i, j :: 0 <= i < j < |arm| ==> arm[i].spanId != arm[j].spanId
  }

  /** The 1-based place of id among the first n hits, or 0. */
  function Rank(arm: seq<Hit>, id: string, n: nat): (r: nat)
    requires n <= |arm|
    ensures r <= n
    ensures r > 0 ==> arm[r - 1].spanId == id
    ensures r == 0 <==> forall i :: 0 <= i < n ==> arm[i].spanId != id
  {
    if n == 0 then 0 else if arm[n - 1].spanId == id then n else Rank(arm, id, n - 1)
  }

  function RankIn(arm: seq<Hit>, id: string): nat {
    Rank(arm, id, |arm|)
  }

  lemma RankAt(arm: seq<Hit>, i: nat)
    requires DistinctIds(arm) && i < |arm|
    ensures RankIn(arm, arm[i].spanId) == i + 1
  {
  }

  /** An arm's share of a score: nothing for a span it did not return. */
  function Share(w: real, k: int, rank: nat): real
    requires k >= 0
  {
    if rank == 0 then 0.0 else w * Rrf(k, rank)
  }

  lemma {:induction false} VectorEntries(p: Params, arm: seq<Hit>, n: nat, id: string)
    requires p.k >= 0 && n <= |arm| && DistinctIds(arm)
    ensures var acc, r := AddVector(p, arm, n), Rank(arm, id, n);
      && (id in acc <==> r > 0)
      && (r > 0 ==>
            var h := arm[r - 1];
            acc[id] == Fused(id, h.path, h.startLine, Share(p.wVector, p.k, r), r, h.score, 0))
  {
    if n > 0 {
      VectorEntries(p, arm, n - 1, id);
    }
  }

  /** What the map holds for id, given its rank in each arm: path and line come from the
      vector arm's hit where there is one. */
  ghost predicate Holds(p: Params, vector: seq<Hit>, lexical: seq<Hit>, acc: Acc, id: string, v: nat, r: nat)
    requires p.k >= 0 && v <= |vector| && r <= |lexical|
  {
    && (id in acc <==> v > 0 || r > 0)
    && (v > 0 ==> acc[id] == Fused(id, vector[v - 1].path, vector[v - 1].startLine,
          Share(p.wVector, p.k, v) + Share(p.wLexical, p.k, r), v, vector[v - 1].score, r))
    && (v == 0 && r > 0 ==> acc[id] == Fused(id, lexical[r - 1].path, lexical[r - 1].startLine,
          Share(p.wLexical, p.k, r), 0, 0.0, r))
  }

  lemma WithLexicalHolds(p: Params, vector: seq<Hit>, lexical: seq<Hit>, acc: Acc, id: string, v: nat, n: nat)
    requires p.k >= 0 && v <= |vector| && 0 < n <= |lexical| && lexical[n - 1].spanId == id
    requires Holds(p, vector, lexical, acc, id, v, 0)
    ensures Holds(p, vector, lexical, WithLexical(p, acc, lexical[n - 1], n), id, v, n)
  {
  }

  lemma {:induction false} LexicalEntries(p: Params, vector: seq<Hit>, arm: seq<Hit>, n: nat, id: string)
    requires p.k >= 0 && n <= |arm| && DistinctIds(vector) && DistinctIds(arm)
    ensures Holds(p, vector, arm, AddLexical(p, vector, arm, n), id, RankIn(vector, id), Rank(arm, id, n))
  {
    var v := RankIn(vector, id);
    if n == 0 {
      VectorEntries(p, vector, |vector|, id);
    } else {
      LexicalEntries(p, vector, arm, n - 1, id);
      var acc := AddLexical(p, vector, arm, n - 1);
      if arm[n - 1].spanId == id {
        assert Rank(arm, id, n - 1) == 0;
        WithLexicalHolds(p, vector, arm, acc, id, v, n);
      } else {
        assert Rank(arm, id, n) == Rank(arm, id, n - 1);
      }
    }
  }

  /** Where f came from: its rank in each arm, and the vector arm's hit where there is one. */
  ghost predicate CameFrom(f: Fused, vector: seq<Hit>, lexical: seq<Hit>)
    requires f.vectorRank <= |vector| && f.lexicalRank <= |lexical|
  {
    if f.vectorRank > 0 then
      var h := vector[f.vectorRank - 1];
      f.path == h.path && f.startLine == h.startLine && f.vectorScore == h.score
    else
      f.lexicalRank > 0 && f.vectorScore == 0.0 &&
      var h := lexical[f.lexicalRank - 1];
      f.path == h.path && f.startLine == h.startLine
  }

  lemma FusedIsUnion(p: Params, vector: seq<Hit>, lexical: seq<Hit>, out: seq<Fused>)
    requires Valid(p) && DistinctIds(vector) && DistinctIds(lexical) && Ranks(Accumulated(p, vector, lexical), out)
    ensures forall i, j :: 0 <= i < j < |out| ==> out[i].spanId != out[j].spanId
    ensures forall id :: (exists i :: 0 <= i < |out| && out[i].spanId == id) <==>
      RankIn(vector, id) > 0 || RankIn(lexical, id) > 0
    ensures forall f :: f in out ==>
      && f.vectorRank == RankIn(vector, f.spanId) && f.lexicalRank == RankIn(lexical, f.spanId)
      && f.score == Share(p.wVector, p.k, f.vectorRank) + Share(p.wLexical, p.k, f.lexicalRank)
      && CameFrom(f, vector, lexical)
  {
    var acc := Accumulated(p, vector, lexical);
    BeforeIsStrict();
    forall i, j | 0 <= i < j < |out| ensures out[i].spanId != out[j].spanId {
      assert Before(out[i], out[j]) && out[i] in out && out[j] in out;
    }
    forall id
      ensures (exists i :: 0 <= i < |out| && out[i].spanId == id) <==>
        RankIn(vector, id) > 0 || RankIn(lexical, id) > 0
    {
      LexicalEntries(p, vector, lexical, |lexical|, id);
      if id in acc {
        assert acc[id] in out;
      }
      if i :| 0 <= i < |out| && out[i].spanId == id {
        assert out[i] in out;
      }
    }
    forall f | f in out
      ensures f.vectorRank == RankIn(vector, f.spanId) && f.lexicalRank == RankIn(lexical, f.spanId)
      ensures f.score == Share(p.wVector, p.k, f.vectorRank) + Share(p.wLexical, p.k, f.lexicalRank)
      ensures CameFrom(f, vector, lexical)
    {
      LexicalEntries(p, vector, lexical, |lexical|, f.spanId);
    }
  }

  lemma ShareIsFraction(w: real, k: int, rank: nat)
    requires k >= 0 && rank > 0
    ensures Share(w, k, rank) == w / ((k + rank) as real)
  {
  }

  /** The weight of each arm that returned f, over k and f's rank there. */
  ghost predicate Weighed(p: Params, f: Fused)
    requires p.k >= 0
  {
    f.score == (if f.vectorRank > 0 then p.wVector / ((p.k + f.vectorRank) as real) else 0.0)
               + (if f.lexicalRank > 0 then p.wLexical / ((p.k + f.lexicalRank) as real) else 0.0)
  }

  /** The fused list is the union of the arms, each span once, scored by the weighted sum of
      its reciprocal ranks over the arms that returned it. */
  lemma ScoresAreWeightedSums(p: Params, vector: seq<Hit>, lexical: seq<Hit>, out: seq<Fused>)
    requires Valid(p) && DistinctIds(vector) && DistinctIds(lexical) && Ranks(Accumulated(p, vector, lexical), out)
    ensures forall i, j :: 0 <= i < j < |out| ==> out[i].spanId != out[j].spanId
    ensures forall id :: (exists i :: 0 <= i < |out| && out[i].spanId == id) <==>
      RankIn(vector, id) > 0 || RankIn(lexical, id) > 0
    ensures forall f :: f in out ==>
      && f.vectorRank == RankIn(vector, f.spanId) && f.lexicalRank == RankIn(lexical, f.spanId)
      && Weighed(p, f)
      && CameFrom(f, vector, lexical)
  {
    FusedIsUnion(p, vector, lexical, out);
    forall f | f in out ensures Weighed(p, f) {
      if f.vectorRank > 0 {
        ShareIsFraction(p.wVector, p.k, f.vectorRank);
      }
      if f.lexicalRank > 0 {
        ShareIsFraction(p.wLexical, p.k, f.lexicalRank);
      }
    }
  }

  /** The list falls in score, and equal scores stand by path, then line, then id. */
  lemma TiesBreakByPlace(p: Params, vector: seq<Hit>, lexical: seq<Hit>, out: seq<Fused>, i: nat, j: nat)
    requires p.k >= 0 && Ranks(Accumulated(p, vector, lexical), out) && i < j < |out|
    ensures var a, b := out[i], out[j];
      && a.score >= b.score
      && (a.score == b.score ==> a.path == b.path || TextLess(a.path, b.path))
      && (a.score == b.score && a.path == b.path ==> a.startLine <= b.startLine)
      && (a.score == b.score && a.path == b.path && a.startLine == b.startLine ==> TextLess(a.spanId, b.spanId))
  {
    assert Before(out[i], out[j]);
  }

  /** A span that both arms rank in the middle passes one that only one of them ranks first: at
      k = 60, two places 28 beat a first and a hundredth. */
  lemma AgreementBeatsOneArm(vector: seq<Hit>, lexical: seq<Hit>, out: seq<Fused>, i: nat, j: nat)
    requires DistinctIds(vector) && DistinctIds(lexical)
    requires Ranks(Accumulated(Params(60, 1.0, 1.0), vector, lexical), out) && i < |out| && j < |out|
    requires RankIn(vector, out[i].spanId) == RankIn(lexical, out[i].spanId) == 28
    requires RankIn(vector, out[j].spanId) == 1 && RankIn(lexical, out[j].spanId) == 100
    ensures i < j
  {
    ScoresAreWeightedSums(Params(60, 1.0, 1.0), vector, lexical, out);
    assert out[i] in out && out[j] in out;
    assert out[i].score > out[j].score;
    if j < i {
      TiesBreakByPlace(Params(60, 1.0, 1.0), vector, lexical, out, j, i);
    }
  }

  // What the ranking respects

  lemma RrfDecreases(k: int, a: int, b: int)
    requires k + a > 0 && a < b
    ensures 0.0 < Rrf(k, b) < Rrf(k, a)
  {
    var x, y := (k + a) as real, (k + b) as real;
    assert 0.0 < x < y;
    assert 1.0 / x - 1.0 / y == (y - x) / (x * y) > 0.0;
  }

  /** Rank a is no worse than rank b: nearer the top, or b is not there at all. */
  predicate NoWorse(a: nat, b: nat) {
    b == 0 || 0 < a <= b
  }

  lemma ShareFollowsRank(w: real, k: int, a: nat, b: nat)
    requires w >= 0.0 && k >= 0 && (w > 0.0 ==> NoWorse(a, b))
    ensures Share(w, k, a) >= Share(w, k, b)
    ensures w > 0.0 && a != b ==> Share(w, k, a) > Share(w, k, b)
  {
    if w > 0.0 && a != b {
      RrfDecreases(k, a, if b > 0 then b else a + 1);
      Scales(w, Rrf(k, a), if b > 0 then Rrf(k, b) else 0.0);
    }
  }

  lemma Scales(w: real, x: real, y: real)
    requires w > 0.0 && x > y
    ensures w * x > w * y
  {
    assert w * (x - y) > 0.0;
  }

  /** No worse in every arm that weighs anything, and better in one of them: ranked ahead. */
  lemma DominanceIsRespected(p: Params, vector: seq<Hit>, lexical: seq<Hit>, out: seq<Fused>, i: nat, j: nat)
    requires Valid(p) && DistinctIds(vector) && DistinctIds(lexical) && Ranks(Accumulated(p, vector, lexical), out)
    requires i < |out| && j < |out|
    requires var a, b := out[i].spanId, out[j].spanId;
      && (p.wVector > 0.0 ==> NoWorse(RankIn(vector, a), RankIn(vector, b)))
      && (p.wLexical > 0.0 ==> NoWorse(RankIn(lexical, a), RankIn(lexical, b)))
      && ((p.wVector > 0.0 && RankIn(vector, a) != RankIn(vector, b))
          || (p.wLexical > 0.0 && RankIn(lexical, a) != RankIn(lexical, b)))
    ensures i < j
  {
    FusedIsUnion(p, vector, lexical, out);
    assert out[i] in out && out[j] in out;
    ShareFollowsRank(p.wVector, p.k, out[i].vectorRank, out[j].vectorRank);
    ShareFollowsRank(p.wLexical, p.k, out[i].lexicalRank, out[j].lexicalRank);
    assert out[i].score > out[j].score;
  }

  /** The lexical arm is empty or weighs nothing. */
  predicate Silent(p: Params, lexical: seq<Hit>) {
    p.wVector > 0.0 && (lexical == [] || p.wLexical == 0.0)
  }

  /** Then a better vector rank is a better place. */
  lemma SilentFollowsVector(p: Params, vector: seq<Hit>, lexical: seq<Hit>, out: seq<Fused>, i: nat, j: nat)
    requires Valid(p) && DistinctIds(vector) && DistinctIds(lexical) && Ranks(Accumulated(p, vector, lexical), out)
    requires Silent(p, lexical) && i < |out| && j < |out|
    requires NoWorse(RankIn(vector, out[i].spanId), RankIn(vector, out[j].spanId))
    requires RankIn(vector, out[i].spanId) != RankIn(vector, out[j].spanId)
    ensures i < j
  {
    DominanceIsRespected(p, vector, lexical, out, i, j);
  }

  lemma VectorHitIsRanked(p: Params, vector: seq<Hit>, lexical: seq<Hit>, out: seq<Fused>, m: nat) returns (j: nat)
    requires Valid(p) && DistinctIds(vector) && DistinctIds(lexical) && Ranks(Accumulated(p, vector, lexical), out)
    requires m < |vector|
    ensures j < |out| && out[j].spanId == vector[m].spanId
  {
    FusedIsUnion(p, vector, lexical, out);
    RankAt(vector, m);
    j :| 0 <= j < |out| && out[j].spanId == vector[m].spanId;
  }

  lemma NextIsNext(p: Params, vector: seq<Hit>, lexical: seq<Hit>, out: seq<Fused>, m: nat, j: nat)
    requires Valid(p) && DistinctIds(vector) && DistinctIds(lexical) && Ranks(Accumulated(p, vector, lexical), out)
    requires Silent(p, lexical) && m < |vector| && j < |out| && out[j].spanId == vector[m].spanId
    requires m <= |out| && forall i :: 0 <= i < m ==> out[i].spanId == vector[i].spanId
    ensures j == m
  {
    RankAt(vector, m);
    if m < j {
      FusedIsUnion(p, vector, lexical, out);
      var r := RankIn(vector, out[m].spanId);
      assert r == 0 || r > m + 1;
      SilentFollowsVector(p, vector, lexical, out, j, m);
    }
  }

  /** With a silent lexical arm the vector arm's order is as it was, ahead of every span that
      arm did not return. */
  lemma {:induction false} SilentLexicalKeepsVectorOrder(
    p: Params, vector: seq<Hit>, lexical: seq<Hit>, out: seq<Fused>, n: nat)
    requires Valid(p) && DistinctIds(vector) && DistinctIds(lexical) && Ranks(Accumulated(p, vector, lexical), out)
    requires Silent(p, lexical) && n <= |vector|
    ensures n <= |out| && forall i :: 0 <= i < n ==> out[i].spanId == vector[i].spanId
  {
    if n > 0 {
      SilentLexicalKeepsVectorOrder(p, vector, lexical, out, n - 1);
      var j := VectorHitIsRanked(p, vector, lexical, out, n - 1);
      NextIsNext(p, vector, lexical, out, n - 1, j);
    }
  }
}
