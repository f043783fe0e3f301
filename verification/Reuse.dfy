/** The embedding cache: vectors lent by digest, the rest embedded by batch, and the corpus the
    same either way. */
module Reuse {
  import opened Common
  import opened Order

  type Vec = seq<real>

  datatype Span = Span(id: string, text: string, digest: string, embedding: Vec)

  /** A row of spans: what was written, by which embedder, for which repository. */
  datatype Row = Row(repoId: string, text: string, digest: string, model: string, dim: nat, embedding: Vec)

  type Table = map<string, Row>

  /** An embedder as the corpus knows it: a name, a width, a vector for every text. */
  datatype Embedder = Embedder(model: string, dim: nat, vector: string -> Vec)

  ghost predicate Wide(e: Embedder) {
    e.dim > 0 && forall text :: |e.vector(text)| == e.dim
  }

  /** SHA-256, taken as telling every two texts apart. */
  type Digester = string -> string

  ghost predicate CollisionFree(digest: Digester) {
    forall a, b :: digest(a) == digest(b) ==> a == b
  }

  lemma TextLessOrders()
    ensures forall a, b :: a == b || TextLess(a, b) || TextLess(b, a)
    ensures forall a, b, c :: TextLess(a, b) && TextLess(b, c) ==> TextLess(a, c)
  {
    forall a: string, b: string ensures a == b || TextLess(a, b) || TextLess(b, a) {
      TextLessTotal(a, b);
    }
    forall a: string, b: string, c: string | TextLess(a, b) && TextLess(b, c) ensures TextLess(a, c) {
      TextLessTransitive(a, b, c);
    }
  }

  /** The smallest of some row ids. */
  ghost function MinId(ids: set<string>): (m: string)
    requires ids != {}
    ensures m in ids && forall o :: o in ids ==> o == m || TextLess(m, o)
  {
    TextLessOrders();
    var x :| x in ids;
    if ids - {x} == {} then
      assert ids == {x};
      x
    else
      var m := MinId(ids - {x});
      assert forall o :: o in ids ==> o == x || o in ids - {x};
      if TextLess(x, m) then x else m
  }

  method FindMinId(ids: set<string>) returns (m: string)
    requires ids != {}
    ensures m == MinId(ids)
  {
    var left := ids;
    m :| m in left;
    left := left - {m};
    while left != {}
      invariant left <= ids && m in ids && m !in left
      invariant forall o :: o in ids && o !in left ==> o == m || TextLess(m, o)
      decreases left
    {
      var x :| x in left;
      TextLessOrders();
      left := left - {x};
      if TextLess(x, m) {
        m := x;
      }
    }
    if m != MinId(ids) {
      TextLessAsymmetric(m, MinId(ids));
    }
  }

  function Candidates(t: Table, digest: string, model: string, dim: nat): set<string> {
    set id | id in t && t[id].digest == digest && t[id].model == model && t[id].dim == dim
  }

  /** DISTINCT ON (digest) … ORDER BY digest, id: the first row that embedder wrote for it. */
  ghost function Stored(t: Table, digest: string, model: string, dim: nat): Option<Vec> {
    var ids := Candidates(t, digest, model, dim);
    if ids == {} then None else Some(t[MinId(ids)].embedding)
  }

  ghost predicate Corrupt(t: Table, digest: string, model: string, dim: nat) {
    var v := Stored(t, digest, model, dim);
    v.Some? && |v.value| != dim
  }

  /** What one read answers for a list of digests: nothing, if any row behind it is corrupt. */
  ghost function Answer(t: Table, digests: seq<string>, model: string, dim: nat): Option<map<string, Vec>> {
    if exists d :: d in digests && Corrupt(t, d, model, dim) then None
    else Some(map d | d in digests && Stored(t, d, model, dim).Some? :: Stored(t, d, model, dim).value)
  }

  method EmbeddingsByDigest(t: Table, digests: seq<string>, model: string, dim: nat)
    returns (have: Option<map<string, Vec>>)
    ensures have == Answer(t, digests, model, dim)
  {
    var out: map<string, Vec> := map[];
    for i := 0 to |digests|
      invariant forall d :: d in digests[..i] ==> !Corrupt(t, d, model, dim)
      invariant out == map d | d in digests[..i] && Stored(t, d, model, dim).Some? :: Stored(t, d, model, dim).value
    {
      assert digests[..i + 1] == digests[..i] + [digests[i]];
      var ids := Candidates(t, digests[i], model, dim);
      if ids != {} {
        var id := FindMinId(ids);
        if |t[id].embedding| != dim {
          assert digests[i] in digests && Corrupt(t, digests[i], model, dim);
          return None;
        }
        out := out[digests[i] := t[id].embedding];
      }
    }
    assert digests[..|digests|] == digests;
    return Some(out);
  }

  // The two passes

  /** The store's read, as the indexer is handed it. */
  type Read = seq<string> -> Option<map<string, Vec>>

  /** The digests of some spans, each once, in order of first appearance. */
  function Digests(spans: seq<Span>, n: nat): seq<string>
    requires n <= |spans|
  {
    if n == 0 then []
    else
      var front := Digests(spans, n - 1);
      if spans[n - 1].digest in front then front else front + [spans[n - 1].digest]
  }

  /** What a reuse pass has to lend: nothing when it is off, or when the read failed. */
  function Have(reuse: bool, read: Read, spans: seq<Span>): map<string, Vec> {
    if !reuse || spans == [] then map[]
    else
      var answer := read(Digests(spans, |spans|));
      if answer.None? then map[] else answer.value
  }

  predicate Lends(have: map<string, Vec>, dim: nat, sp: Span) {
    sp.digest in have && |have[sp.digest]| == dim
  }

  function Lend(have: map<string, Vec>, dim: nat, sp: Span): Span {
    if Lends(have, dim, sp) then sp.(embedding := have[sp.digest]) else sp
  }

  /** How many of the first n spans were lent a vector, a repeated digest counted each time. */
  function Fills(have: map<string, Vec>, dim: nat, spans: seq<Span>, n: nat): nat
    requires n <= |spans|
  {
    if n == 0 then 0 else Fills(have, dim, spans, n - 1) + if Lends(have, dim, spans[n - 1]) then 1 else 0
  }

  lemma {:induction false} NothingLent(have: map<string, Vec>, dim: nat, spans: seq<Span>, n: nat)
    requires n <= |spans| && have == map[]
    ensures Fills(have, dim, spans, n) == 0
  {
    if n > 0 {
      NothingLent(have, dim, spans, n - 1);
    }
  }

  method Reuse(reuse: bool, read: Read, dim: nat, spans: array<Span>) returns (n: nat)
    modifies spans
    ensures var have := Have(reuse, read, old(spans[..]));
      && n == Fills(have, dim, old(spans[..]), spans.Length)
      && forall i :: 0 <= i < spans.Length ==> spans[i] == Lend(have, dim, old(spans[i]))
  {
    ghost var was := spans[..];
    n := 0;
    if !reuse || spans.Length == 0 {
      NothingLent(map[], dim, was, |was|);
      return;
    }
    var seen: set<string> := {};
    var digests := [];
    for k := 0 to spans.Length
      invariant digests == Digests(was, k) && forall d :: d in seen <==> d in digests
    {
      if spans[k].digest !in seen {
        seen := seen + {spans[k].digest};
        digests := digests + [spans[k].digest];
      }
    }
    var answer := read(digests);
    if answer.None? {
      NothingLent(map[], dim, was, |was|);
      return;
    }
    var have := answer.value;
    for i := 0 to spans.Length
      invariant forall k :: 0 <= k < i ==> spans[k] == Lend(have, dim, was[k])
      invariant forall k :: i <= k < spans.Length ==> spans[k] == was[k]
      invariant n == Fills(have, dim, was, i)
    {
      if spans[i].digest !in have {
        continue;
      }
      var v := have[spans[i].digest];
      if |v| != dim {
        continue;
      }
      spans[i] := spans[i].(embedding := v);
      n := n + 1;
    }
  }

  /** What the embedder sent back for one batch. */
  datatype Reply = Down | Vectors(vecs: seq<Vec>)

  /** Go by batch: the texts in, the reply out. */
  type Model = seq<string> -> Reply

  predicate Answers(reply: Reply, texts: seq<string>) {
    reply.Vectors? && |reply.vecs| == |texts|
  }

  /** Where the model answers at all, it answers text by text. */
  ghost predicate Pointwise(model: Model, e: Embedder) {
    forall texts :: Answers(model(texts), texts) ==>
      forall i :: 0 <= i < |texts| ==> model(texts).vecs[i] == e.vector(texts[i])
  }

  function Embed(e: Embedder, sp: Span): Span {
    sp.(embedding := e.vector(sp.text))
  }

  /** Indices into a list of n spans, each once. */
  ghost predicate Indices(todo: seq<nat>, n: nat) {
    (forall k :: 0 <= k < |todo| ==> todo[k] < n) && Distinct(todo)
  }

  function TextsOf(spans: seq<Span>, at: seq<nat>): seq<string>
    requires forall k :: 0 <= k < |at| ==> at[k] < |spans|
  {
    seq(|at|, k requires 0 <= k < |at| => spans[at[k]].text)
  }

  method WriteVectors(spans: array<Span>, at: seq<nat>, vecs: seq<Vec>)
    requires Indices(at, spans.Length) && |vecs| == |at|
    modifies spans
    ensures forall i :: 0 <= i < spans.Length && i !in at ==> spans[i] == old(spans[i])
    ensures forall k :: 0 <= k < |at| ==> spans[at[k]] == old(spans[at[k]]).(embedding := vecs[k])
  {
    for i := 0 to |vecs|
      invariant forall k :: 0 <= k < i ==> spans[at[k]] == old(spans[at[k]]).(embedding := vecs[k])
      invariant forall j :: 0 <= j < spans.Length && j !in at[..i] ==> spans[j] == old(spans[j])
    {
      assert at[..i + 1] == at[..i] + [at[i]];
      assert at[i] !in at[..i];
      spans[at[i]] := spans[at[i]].(embedding := vecs[i]);
    }
    assert at[..|at|] == at;
  }

  /** One request: a batch of spans, their vectors written in place. */
  method EmbedBatch(model: Model, ghost e: Embedder, spans: array<Span>, at: seq<nat>) returns (ok: bool)
    requires Indices(at, spans.Length)
    modifies spans
    ensures ok <==> Answers(model(TextsOf(old(spans[..]), at)), TextsOf(old(spans[..]), at))
    ensures !ok ==> spans[..] == old(spans[..])
    ensures forall i :: 0 <= i < spans.Length && i !in at ==> spans[i] == old(spans[i])
    ensures ok && Pointwise(model, e) ==> forall k :: 0 <= k < |at| ==> spans[at[k]] == Embed(e, old(spans[at[k]]))
  {
    var texts := [];
    for k := 0 to |at|
      invariant texts == TextsOf(spans[..], at)[..k]
    {
      texts := texts + [spans[at[k]].text];
    }
    assert texts == TextsOf(spans[..], at);
    var reply := model(texts);
    if reply.Down? {
      return false;
    }
    if |reply.vecs| != |texts| {
      return false;
    }
    WriteVectors(spans, at, reply.vecs);
    return true;
  }

  /** Span i has its vector once the first n of todo are embedded. */
  ghost predicate Progress(e: Embedder, was: seq<Span>, now: seq<Span>, todo: seq<nat>, n: nat)
    requires |was| == |now| && Indices(todo, |was|) && n <= |todo|
  {
    && (forall k :: 0 <= k < n ==> now[todo[k]] == Embed(e, was[todo[k]]))
    && (forall i :: 0 <= i < |was| && i !in todo[..n] ==> now[i] == was[i])
  }

  lemma ProgressAdvances(e: Embedder, was: seq<Span>, mid: seq<Span>, now: seq<Span>, todo: seq<nat>, lo: nat, hi: nat)
    requires |was| == |mid| == |now| && Indices(todo, |was|) && lo <= hi <= |todo|
    requires Progress(e, was, mid, todo, lo)
    requires forall i :: 0 <= i < |was| && i !in todo[lo..hi] ==> now[i] == mid[i]
    requires forall k :: 0 <= k < hi - lo ==> now[todo[lo..hi][k]] == Embed(e, mid[todo[lo..hi][k]])
    ensures Progress(e, was, now, todo, hi)
  {
    assert todo[..hi] == todo[..lo] + todo[lo..hi];
    forall k | 0 <= k < hi ensures now[todo[k]] == Embed(e, was[todo[k]]) {
      if k < lo {
        assert todo[k] !in todo[lo..hi];
      } else {
        assert todo[lo..hi][k - lo] == todo[k];
        assert todo[k] !in todo[..lo];
      }
    }
  }

  /** EMBED_BATCH texts a request, until todo is done or a request fails. */
  method EmbedAll(model: Model, ghost e: Embedder, spans: array<Span>, todo: seq<nat>, batch: nat) returns (ok: bool)
    requires Indices(todo, spans.Length) && batch > 0
    modifies spans
    ensures ok && Pointwise(model, e) ==> Progress(e, old(spans[..]), spans[..], todo, |todo|)
    ensures !ok ==> exists texts :: 0 < |texts| <= batch && !Answers(model(texts), texts)
  {
    var lo := 0;
    ghost var was := spans[..];
    while lo < |todo|
      invariant lo <= |todo|
      invariant Pointwise(model, e) ==> Progress(e, was, spans[..], todo, lo)
    {
      var hi := Min(lo + batch, |todo|);
      ghost var mid := spans[..];
      assert |TextsOf(mid, todo[lo..hi])| == hi - lo <= batch;
      ok := EmbedBatch(model, e, spans, todo[lo..hi]);
      if !ok {
        return;
      }
      if Pointwise(model, e) {
        ProgressAdvances(e, was, mid, spans[..], todo, lo, hi);
      }
      lo := hi;
    }
    return true;
  }

  // The tail of an index

  /** The spans as a job hands them to PutSpans: lent a vector, or embedded. */
  function Vectored(have: map<string, Vec>, e: Embedder, sp: Span): Span {
    var lent := Lend(have, e.dim, sp);
    if lent.embedding == [] then Embed(e, sp) else lent
  }

  function Unfilled(spans: seq<Span>, n: nat): seq<nat>
    requires n <= |spans|
  {
    if n == 0 then [] else Unfilled(spans, n - 1) + if spans[n - 1].embedding == [] then [n - 1] else []
  }

  lemma {:induction false} UnfilledAre(spans: seq<Span>, n: nat)
    requires n <= |spans|
    ensures Indices(Unfilled(spans, n), n)
    ensures forall i :: i in Unfilled(spans, n) <==> 0 <= i < n && spans[i].embedding == []
  {
    if n > 0 {
      UnfilledAre(spans, n - 1);
      var front := Unfilled(spans, n - 1);
      assert forall k :: 0 <= k < |front| ==> front[k] in front;
    }
  }

  /** Every span is counted once: as reused, or as still to embed. */
  lemma {:induction false} CountsAddUp(have: map<string, Vec>, dim: nat, was: seq<Span>, lent: seq<Span>, n: nat)
    requires dim > 0 && n <= |was| == |lent|
    requires forall i :: 0 <= i < |was| ==> was[i].embedding == [] && lent[i] == Lend(have, dim, was[i])
    ensures Fills(have, dim, was, n) + |Unfilled(lent, n)| == n
  {
    if n > 0 {
      CountsAddUp(have, dim, was, lent, n - 1);
    }
  }

  /** Spans straight from the chunker: no vector yet. */
  predicate Fresh(spans: seq<Span>) {
    forall i :: 0 <= i < |spans| ==> spans[i].embedding == []
  }

  method Todo(spans: array<Span>) returns (todo: seq<nat>)
    ensures todo == Unfilled(spans[..], spans.Length)
  {
    todo := [];
    for i := 0 to spans.Length
      invariant todo == Unfilled(spans[..], i)
    {
      if |spans[i].embedding| == 0 {
        todo := todo + [i];
      }
    }
  }

  /** Between chunking and PutSpans: the reuse pass, and the rest embedded. */
  method IndexTail(reuse: bool, read: Read, model: Model, e: Embedder, batch: nat, spans: array<Span>)
    returns (ok: bool, reused: nat, embedded: nat)
    requires batch > 0
    modifies spans
    ensures ok && Pointwise(model, e) ==>
      var have := Have(reuse, read, old(spans[..]));
      forall i :: 0 <= i < spans.Length ==> spans[i] == Vectored(have, e, old(spans[i]))
    ensures reused == Fills(Have(reuse, read, old(spans[..])), e.dim, old(spans[..]), spans.Length)
    ensures Fresh(old(spans[..])) && e.dim > 0 ==> reused + embedded == spans.Length
    ensures !ok ==> exists texts :: 0 < |texts| <= batch && !Answers(model(texts), texts)
  {
    ghost var was := spans[..];
    ghost var have := Have(reuse, read, was);
    reused := Reuse(reuse, read, e.dim, spans);
    ghost var lent := spans[..];
    var todo := Todo(spans);
    UnfilledAre(lent, |lent|);
    embedded := |todo|;
    if Fresh(was) && e.dim > 0 {
      CountsAddUp(have, e.dim, was, lent, |lent|);
    }
    ok := EmbedAll(model, e, spans, todo, batch);
    if ok && Pointwise(model, e) {
      TailIsVectored(have, e, was, lent, spans[..], todo);
    }
  }

  lemma TailIsVectored(have: map<string, Vec>, e: Embedder, was: seq<Span>, lent: seq<Span>, now: seq<Span>,
                       todo: seq<nat>)
    requires |was| == |lent| == |now| && Indices(todo, |lent|) && Progress(e, lent, now, todo, |todo|)
    requires forall i :: 0 <= i < |was| ==> lent[i] == Lend(have, e.dim, was[i])
    requires forall i :: i in todo <==> 0 <= i < |lent| && lent[i].embedding == []
    ensures forall i :: 0 <= i < |was| ==> now[i] == Vectored(have, e, was[i])
  {
    assert todo[..|todo|] == todo;
    forall i | 0 <= i < |was| ensures now[i] == Vectored(have, e, was[i]) {
      if i in todo {
        var k :| 0 <= k < |todo| && todo[k] == i;
      }
    }
  }

  // What the cache lends

  /** The row of the smallest id among those with this digest, by this embedder. */
  ghost predicate FirstRow(t: Table, digest: string, model: string, dim: nat, id: string) {
    && id in t && t[id].digest == digest && t[id].model == model && t[id].dim == dim
    && forall o :: o in t && t[o].digest == digest && t[o].model == model && t[o].dim == dim ==>
         o == id || TextLess(id, o)
  }

  lemma StoredIsTheFirstRow(t: Table, digest: string, model: string, dim: nat)
    ensures var v := Stored(t, digest, model, dim);
      && (v.Some? <==> exists id :: FirstRow(t, digest, model, dim, id))
      && (v.None? <==> forall o :: o in t ==> !(t[o].digest == digest && t[o].model == model && t[o].dim == dim))
      && forall id :: FirstRow(t, digest, model, dim, id) ==> v == Some(t[id].embedding)
  {
    var ids := Candidates(t, digest, model, dim);
    assert forall o :: o in ids <==> o in t && t[o].digest == digest && t[o].model == model && t[o].dim == dim;
    if ids == {} {
      assert forall id :: FirstRow(t, digest, model, dim, id) ==> id in ids;
    } else {
      var m := MinId(ids);
      assert m in ids && FirstRow(t, digest, model, dim, m);
      forall id | FirstRow(t, digest, model, dim, id) ensures id == m {
        assert id in ids;
        if id != m {
          TextLessAsymmetric(m, id);
        }
      }
    }
  }

  lemma {:induction false} DigestsAre(spans: seq<Span>, n: nat)
    requires n <= |spans|
    ensures Distinct(Digests(spans, n))
    ensures forall d :: d in Digests(spans, n) <==> exists i :: 0 <= i < n && spans[i].digest == d
  {
    if n > 0 {
      DigestsAre(spans, n - 1);
    }
  }

  /** With reuse on, a read that succeeds, and no stored vector of a wrong width, every span whose
      digest this embedder has stored is lent the first such row's vector, and no other span is. */
  lemma WhatIsStoredIsLent(t: Table, e: Embedder, spans: seq<Span>, i: nat)
    requires i < |spans| && forall k :: 0 <= k < |spans| ==> !Corrupt(t, spans[k].digest, e.model, e.dim)
    ensures var d, have := spans[i].digest, Have(true, StoreRead(t, e, false), spans);
      && (Lends(have, e.dim, spans[i]) <==> exists id :: FirstRow(t, d, e.model, e.dim, id))
      && (forall id :: FirstRow(t, d, e.model, e.dim, id) ==> Lend(have, e.dim, spans[i]).embedding == t[id].embedding)
  {
    DigestsAre(spans, |spans|);
    StoredIsTheFirstRow(t, spans[i].digest, e.model, e.dim);
    var have := Have(true, StoreRead(t, e, false), spans);
    assert spans[i].digest in Digests(spans, |spans|);
    assert spans[i].digest in have <==> Stored(t, spans[i].digest, e.model, e.dim).Some?;
  }

  /** The places among the first n that are lent to. */
  function LentTo(have: map<string, Vec>, dim: nat, spans: seq<Span>, n: nat): set<nat>
    requires n <= |spans|
  {
    set i: nat | i < n && Lends(have, dim, spans[i])
  }

  /** The count is of the spans lent to, a digest that several share counted for each. */
  lemma {:induction false} FillsCountsTheLent(have: map<string, Vec>, dim: nat, spans: seq<Span>, n: nat)
    requires n <= |spans|
    ensures Fills(have, dim, spans, n) == |LentTo(have, dim, spans, n)|
  {
    if n == 0 {
      assert LentTo(have, dim, spans, 0) == {};
    } else {
      FillsCountsTheLent(have, dim, spans, n - 1);
      var some, more := LentTo(have, dim, spans, n - 1), LentTo(have, dim, spans, n);
      assert n - 1 !in some;
      assert more == if Lends(have, dim, spans[n - 1]) then some + {n - 1} else some by {
        forall i: nat ensures i in more <==> i in some || (i == n - 1 && Lends(have, dim, spans[n - 1])) {
        }
      }
    }
  }

  // What is written

  ghost predicate Wrote(row: Row, repoId: string, e: Embedder, sp: Span) {
    && row.repoId == repoId && row.text == sp.text && row.digest == sp.digest
    && row.model == e.model && row.dim == e.dim && row.embedding == sp.embedding
  }

  lemma {:induction false} UpsertedRow(t: Table, repoId: string, e: Embedder, spans: seq<Span>, n: nat, i: nat)
    requires i < n <= |spans| && forall k :: i < k < n ==> spans[i].id != spans[k].id
    ensures var u := Upserted(t, repoId, e, spans, n); spans[i].id in u && Wrote(u[spans[i].id], repoId, e, spans[i])
  {
    if i < n - 1 {
      UpsertedRow(t, repoId, e, spans, n - 1, i);
    }
  }

  lemma {:induction false} UpsertedOther(t: Table, repoId: string, e: Embedder, spans: seq<Span>, n: nat, id: string)
    requires n <= |spans| && forall i :: 0 <= i < n ==> spans[i].id != id
    ensures var u := Upserted(t, repoId, e, spans, n); (id in u <==> id in t) && (id in t ==> u[id] == t[id])
  {
    if n > 0 {
      UpsertedOther(t, repoId, e, spans, n - 1, id);
    }
  }

  /** PutSpans replaces a repository's rows by its spans, column for column, and leaves every other
      repository's alone; a vector of a wrong width refuses the whole write. */
  lemma PutReplacesTheRows(t: Table, repoId: string, e: Embedder, spans: seq<Span>)
    requires forall i, k :: 0 <= i < k < |spans| ==> spans[i].id != spans[k].id
    ensures var u := Put(t, repoId, e, spans);
      if exists i :: 0 <= i < |spans| && |spans[i].embedding| != e.dim then u == t
      else
        && (forall i :: 0 <= i < |spans| ==> spans[i].id in u && Wrote(u[spans[i].id], repoId, e, spans[i]))
        && (forall id :: (forall i :: 0 <= i < |spans| ==> spans[i].id != id) ==>
              (id in u <==> id in t && t[id].repoId != repoId) && (id in u ==> u[id] == t[id]))
  {
    var rest := map id | id in t && t[id].repoId != repoId :: t[id];
    var u := Upserted(rest, repoId, e, spans, |spans|);
    forall i | 0 <= i < |spans| ensures spans[i].id in u && Wrote(u[spans[i].id], repoId, e, spans[i]) {
      UpsertedRow(rest, repoId, e, spans, |spans|, i);
    }
    forall id | forall i :: 0 <= i < |spans| ==> spans[i].id != id
      ensures (id in u <==> id in rest) && (id in rest ==> u[id] == rest[id])
    {
      UpsertedOther(rest, repoId, e, spans, |spans|, id);
    }
  }

  // The cache is transparent

  /** A vector of the right width under a digest is the embedder's own for the digested text. */
  ghost predicate LendsTruly(have: map<string, Vec>, e: Embedder, digest: Digester) {
    forall text :: digest(text) in have && |have[digest(text)]| == e.dim ==> have[digest(text)] == e.vector(text)
  }

  ghost predicate Digested(spans: seq<Span>, digest: Digester) {
    forall i :: 0 <= i < |spans| ==> spans[i].digest == digest(spans[i].text)
  }

  /** Whether reuse is on, off or failed, and whatever is stored, every span of a job ends with
      the vector of its own text. */
  lemma ReuseIsTransparent(reuse: bool, read: Read, e: Embedder, digest: Digester, spans: seq<Span>)
    requires Wide(e) && Fresh(spans) && Digested(spans, digest)
    requires LendsTruly(Have(reuse, read, spans), e, digest)
    ensures forall i :: 0 <= i < |spans| ==> Vectored(Have(reuse, read, spans), e, spans[i]) == Embed(e, spans[i])
  {
    var have := Have(reuse, read, spans);
    forall i | 0 <= i < |spans| ensures Vectored(have, e, spans[i]) == Embed(e, spans[i]) {
      assert spans[i].digest == digest(spans[i].text);
    }
  }

  /** Every embedder the corpus has known, by name and width. */
  type Family = (string, nat, string) -> Vec

  ghost predicate Of(e: Embedder, all: Family) {
    forall text :: e.vector(text) == all(e.model, e.dim, text)
  }

  /** Every row of the width it claims holds its embedder's vector for its own text. Rows of
      another width may be anything: the read refuses them. */
  ghost predicate Truthful(t: Table, all: Family, digest: Digester) {
    forall id :: id in t ==>
      && t[id].digest == digest(t[id].text)
      && (|t[id].embedding| == t[id].dim ==> t[id].embedding == all(t[id].model, t[id].dim, t[id].text))
  }

  /** The read of a truthful table lends truly, whichever row it picks under a digest. */
  lemma TruthfulTableLendsTruly(t: Table, all: Family, digest: Digester, e: Embedder, reuse: bool, fails: bool,
                                spans: seq<Span>)
    requires Truthful(t, all, digest) && CollisionFree(digest) && Of(e, all)
    ensures LendsTruly(Have(reuse, StoreRead(t, e, fails), spans), e, digest)
  {
    var have := Have(reuse, StoreRead(t, e, fails), spans);
    forall text | digest(text) in have && |have[digest(text)]| == e.dim
      ensures have[digest(text)] == e.vector(text)
    {
      var d := digest(text);
      assert Stored(t, d, e.model, e.dim) == Some(have[d]);
      var id := MinId(Candidates(t, d, e.model, e.dim));
      assert id in Candidates(t, d, e.model, e.dim);
      assert digest(t[id].text) == digest(text);
    }
  }

  /** The indexer's read of this table, which may fail. */
  ghost function StoreRead(t: Table, e: Embedder, fails: bool): Read {
    digests => if fails then None else Answer(t, digests, e.model, e.dim)
  }

  /** One indexing job: whose spans, by which embedder, and how the reuse pass went. */
  datatype Job = Job(repoId: string, spans: seq<Span>, embedder: Embedder, reuse: bool, readFails: bool)

  function RowOf(repoId: string, e: Embedder, sp: Span): Row {
    Row(repoId, sp.text, sp.digest, e.model, e.dim, sp.embedding)
  }

  function Upserted(t: Table, repoId: string, e: Embedder, spans: seq<Span>, n: nat): Table
    requires n <= |spans|
  {
    if n == 0 then t else Upserted(t, repoId, e, spans, n - 1)[spans[n - 1].id := RowOf(repoId, e, spans[n - 1])]
  }

  /** PutSpans: refused on any wrong width, else the repository's rows are replaced. */
  function Put(t: Table, repoId: string, e: Embedder, spans: seq<Span>): Table {
    if exists i :: 0 <= i < |spans| && |spans[i].embedding| != e.dim then t
    else Upserted(map id | id in t && t[id].repoId != repoId :: t[id], repoId, e, spans, |spans|)
  }

  /** What a job that runs to its end leaves in the table (IndexTail, then PutSpans). */
  ghost function Indexed(t: Table, j: Job): Table {
    var have := Have(j.reuse, StoreRead(t, j.embedder, j.readFails), j.spans);
    Put(t, j.repoId, j.embedder,
        seq(|j.spans|, i requires 0 <= i < |j.spans| => Vectored(have, j.embedder, j.spans[i])))
  }

  /** The same job with no cache at all. */
  function Embedded(t: Table, j: Job): Table {
    Put(t, j.repoId, j.embedder, seq(|j.spans|, i requires 0 <= i < |j.spans| => Embed(j.embedder, j.spans[i])))
  }

  ghost predicate Fair(j: Job, all: Family, digest: Digester) {
    Wide(j.embedder) && Of(j.embedder, all) && Fresh(j.spans) && Digested(j.spans, digest)
  }

  lemma {:induction false} UpsertedIsTruthful(
    t: Table, repoId: string, e: Embedder, spans: seq<Span>, n: nat, all: Family, digest: Digester)
    requires n <= |spans| && Truthful(t, all, digest) && Of(e, all) && Digested(spans, digest)
    requires forall i :: 0 <= i < |spans| ==> spans[i].embedding == e.vector(spans[i].text)
    ensures Truthful(Upserted(t, repoId, e, spans, n), all, digest)
  {
    if n > 0 {
      UpsertedIsTruthful(t, repoId, e, spans, n - 1, all, digest);
    }
  }

  lemma JobIsTransparent(t: Table, j: Job, all: Family, digest: Digester)
    requires Truthful(t, all, digest) && CollisionFree(digest) && Fair(j, all, digest)
    ensures Indexed(t, j) == Embedded(t, j) && Truthful(Indexed(t, j), all, digest)
  {
    var have := Have(j.reuse, StoreRead(t, j.embedder, j.readFails), j.spans);
    TruthfulTableLendsTruly(t, all, digest, j.embedder, j.reuse, j.readFails, j.spans);
    ReuseIsTransparent(j.reuse, StoreRead(t, j.embedder, j.readFails), j.embedder, digest, j.spans);
    var a := seq(|j.spans|, i requires 0 <= i < |j.spans| => Vectored(have, j.embedder, j.spans[i]));
    var b := seq(|j.spans|, i requires 0 <= i < |j.spans| => Embed(j.embedder, j.spans[i]));
    assert a == b;
    var rest := map id | id in t && t[id].repoId != j.repoId :: t[id];
    UpsertedIsTruthful(rest, j.repoId, j.embedder, b, |b|, all, digest);
  }

  /** What happens to the table: a job runs to its end, or rows go with an evicted, deleted or
      replaced repository. */
  datatype Event = Ran(job: Job) | Dropped(ids: set<string>)

  ghost function History(t: Table, events: seq<Event>): Table {
    if events == [] then t
    else
      var before := History(t, events[..|events| - 1]);
      match events[|events| - 1]
      case Ran(job) => Indexed(before, job)
      case Dropped(ids) => before - ids
  }

  function Uncached(t: Table, events: seq<Event>): Table {
    if events == [] then t
    else
      var before := Uncached(t, events[..|events| - 1]);
      match events[|events| - 1]
      case Ran(job) => Embedded(before, job)
      case Dropped(ids) => before - ids
  }

  ghost predicate AllFair(events: seq<Event>, all: Family, digest: Digester) {
    forall e :: e in events && e.Ran? ==> Fair(e.job, all, digest)
  }

  /** Over any history of jobs, by any workers and embedders, with reuse on, off or failing as
      each likes, and of rows dropped between them, the corpus is row for row the one that never
      reused a vector. */
  lemma {:induction false} HistoryIsTransparent(t: Table, events: seq<Event>, all: Family, digest: Digester)
    requires Truthful(t, all, digest) && CollisionFree(digest) && AllFair(events, all, digest)
    ensures History(t, events) == Uncached(t, events) && Truthful(History(t, events), all, digest)
  {
    if events != [] {
      var n := |events| - 1;
      HistoryIsTransparent(t, events[..n], all, digest);
      if events[n].Ran? {
        JobIsTransparent(History(t, events[..n]), events[n].job, all, digest);
      }
    }
  }
}
