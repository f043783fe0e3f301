/** "Who calls this": the guarded recursive query of packages/shared/store/graph_read.go,
    against breadth-first distance. */
module CallerWalk {
  import opened Common
  import opened Order

  type Id = string

  /** One row of edges. A syntactic edge has a null target. */
  datatype Edge = Edge(repo: Id, from: Id, to: Option<Id>, path: string, line: int)

  datatype Symbol = Symbol(id: Id, path: string, startLine: int)

  /** One row of the recursive term. */
  datatype Row = Row(sym: Id, depth: nat, path: seq<Id>, callPath: string, callLine: int)

  datatype Caller = Caller(symbol: Symbol, depth: nat, callPath: string, callLine: int)

  /** What one query reads: the edges table, the repository and the queried symbol. */
  datatype Query = Query(edges: seq<Edge>, repo: Id, target: Id)

  // ---------- the statement ----------

  /** The non-recursive term: the direct call sites of the target. */
  function Anchor(q: Query, edges: seq<Edge>): seq<Row> {
    if edges == [] then []
    else
      var e := edges[0];
      (if e.repo == q.repo && e.to == Some(q.target)
       then [Row(e.from, 1, [q.target, e.from], e.path, e.line)]
       else []) + Anchor(q, edges[1..])
  }

  predicate Joins(q: Query, bound: int, c: Row, e: Edge) {
    e.to == Some(c.sym) && e.repo == q.repo && c.depth < bound && e.from !in c.path
  }

  function Hop(c: Row, e: Edge): Row {
    Row(e.from, c.depth + 1, c.path + [e.from], e.path, e.line)
  }

  function ExtendRow(q: Query, edges: seq<Edge>, bound: int, c: Row): (rows: seq<Row>)
    ensures forall r :: r in rows <==> exists e :: e in edges && Joins(q, bound, c, e) && r == Hop(c, e)
    ensures c.depth >= bound ==> rows == []
  {
    if edges == [] then []
    else (if Joins(q, bound, c, edges[0]) then [Hop(c, edges[0])] else []) + ExtendRow(q, edges[1..], bound, c)
  }

  /** The recursive term over one working table. */
  function Extend(q: Query, bound: int, rows: seq<Row>): (out: seq<Row>)
    ensures forall r :: r in out <==>
      exists c, e :: c in rows && e in q.edges && Joins(q, bound, c, e) && r == Hop(c, e)
    ensures (forall c :: c in rows ==> c.depth >= bound) ==> out == []
  {
    if rows == [] then [] else ExtendRow(q, q.edges, bound, rows[0]) + Extend(q, bound, rows[1..])
  }

  ghost predicate AtDepth(rows: seq<Row>, depth: nat) {
    forall r :: r in rows ==> r.depth == depth
  }

  /** UNION ALL until a working table comes back empty. */
  function Iterate(q: Query, bound: int, working: seq<Row>, depth: nat): seq<Row>
    requires AtDepth(working, depth)
    decreases if working == [] then 0 else 1 + Max(0, bound - depth)
  {
    if working == [] then []
    else
      var next := Extend(q, bound, working);
      working + Iterate(q, bound, next, depth + 1)
  }

  lemma AnchorRows(q: Query, edges: seq<Edge>)
    ensures forall r :: r in Anchor(q, edges) <==>
      exists e :: e in edges && e.repo == q.repo && e.to == Some(q.target)
        && r == Row(e.from, 1, [q.target, e.from], e.path, e.line)
  {
    if edges != [] {
      AnchorRows(q, edges[1..]);
    }
  }

  function Walked(q: Query, bound: int): seq<Row> {
    AnchorRows(q, q.edges);
    Iterate(q, bound, Anchor(q, q.edges), 1)
  }

  /** ORDER BY depth, call_path, call_line inside array_agg. */
  predicate RowBefore(a: Row, b: Row) {
    a.depth < b.depth ||
    (a.depth == b.depth &&
     (TextLess(a.callPath, b.callPath) || (a.callPath == b.callPath && a.callLine < b.callLine)))
  }

  /** min(depth) and the head of both aggregates, for one group. */
  function Nearest(rows: seq<Row>, id: Id): Option<Row> {
    if rows == [] then None
    else
      var rest := Nearest(rows[1..], id);
      if rows[0].sym != id then rest
      else if rest.Some? && RowBefore(rest.value, rows[0]) then rest
      else Some(rows[0])
  }

  function Grouped(rows: seq<Row>, symbols: seq<Symbol>): seq<Caller> {
    if symbols == [] then []
    else
      var r := Nearest(rows, symbols[0].id);
      (if r.Some? then [Caller(symbols[0], r.value.depth, r.value.callPath, r.value.callLine)] else [])
      + Grouped(rows, symbols[1..])
  }

  /** ORDER BY depth, s.path, s.start_line, s.id. */
  predicate CallerBefore(a: Caller, b: Caller) {
    a.depth < b.depth ||
    (a.depth == b.depth &&
     (TextLess(a.symbol.path, b.symbol.path) ||
      (a.symbol.path == b.symbol.path &&
       (a.symbol.startLine < b.symbol.startLine ||
        (a.symbol.startLine == b.symbol.startLine && TextLess(a.symbol.id, b.symbol.id))))))
  }

  function AllCallers(q: Query, symbols: seq<Symbol>, bound: int): seq<Caller> {
    Sort(CallerBefore, Grouped(Walked(q, bound), symbols))
  }

  function Limited(rows: seq<Caller>, limit: nat): seq<Caller> {
    if limit < |rows| then rows[..limit] else rows
  }

  /** What a caller receives under a limit: answers in order, and everything left out comes
      after everything listed, and is left out only for want of room. */
  ghost predicate Delivered(q: Query, symbols: seq<Symbol>, bound: int, limit: nat, out: seq<Caller>) {
    && StrictlySorted(CallerBefore, out) && |out| <= limit
    && (forall c :: c in out ==> IsAnswer(q, symbols, bound, c))
    && (forall c, x :: IsAnswer(q, symbols, bound, c) && c !in out && x in out ==> CallerBefore(x, c))
    && (|out| < limit ==> forall c :: IsAnswer(q, symbols, bound, c) ==> c in out)
  }

  /** CallersOf: run the statement, then scan its rows in order. */
  method CallersOf(q: Query, symbols: seq<Symbol>, depth: int, limit: nat) returns (out: seq<Caller>)
    requires UniqueIds(symbols)
    ensures Delivered(q, symbols, depth, limit, out)
  {
    var rows := Limited(AllCallers(q, symbols, depth), limit);
    out := [];
    var i := 0;
    while i < |rows|
      invariant 0 <= i <= |rows|
      invariant out == rows[..i]
    {
      out := out + [rows[i]];
      i := i + 1;
    }
    LimitedIsDelivered(q, symbols, depth, limit);
  }

  // ---------- walks and distance ----------

  /** The node a backward walk has come to. */
  ghost function End(q: Query, w: seq<Edge>): Id {
    if w == [] then q.target else w[|w| - 1].from
  }

  /** Every node a walk stands on, the target first. */
  ghost function Path(q: Query, w: seq<Edge>): seq<Id> {
    if w == [] then [q.target] else Path(q, w[..|w| - 1]) + [w[|w| - 1].from]
  }

  /** e is a call, in this repository, into the node v. */
  ghost predicate CallsInto(q: Query, e: Edge, v: Id) {
    e in q.edges && e.repo == q.repo && e.to == Some(v)
  }

  /** w walks edges backwards from the target, revisiting what it likes. */
  ghost predicate Chain(q: Query, w: seq<Edge>) {
    w == [] || (var v := w[..|w| - 1]; Chain(q, v) && CallsInto(q, w[|w| - 1], End(q, v)))
  }

  ghost predicate Reaches(q: Query, s: Id, w: seq<Edge>) {
    Chain(q, w) && End(q, w) == s
  }

  /** n is the breadth-first distance of s from the target, against the call direction. */
  ghost predicate IsDistance(q: Query, s: Id, n: nat) {
    && (exists w :: Reaches(q, s, w) && |w| == n)
    && (forall w :: Reaches(q, s, w) ==> n <= |w|)
  }

  /** What the cycle guard lets through: past the anchor, no hop lands on the path it extends. */
  ghost predicate Guarded(q: Query, w: seq<Edge>) {
    w == [] ||
    (var v, e := w[..|w| - 1], w[|w| - 1];
     Guarded(q, v) && CallsInto(q, e, End(q, v)) && (v == [] || e.from !in Path(q, v)))
  }

  ghost function RowOf(q: Query, w: seq<Edge>): Row
    requires |w| > 0
  {
    var e := w[|w| - 1];
    Row(e.from, |w|, Path(q, w), e.path, e.line)
  }

  ghost predicate FromWalk(q: Query, r: Row, w: seq<Edge>) {
    |w| > 0 && Guarded(q, w) && RowOf(q, w) == r
  }

  lemma {:induction false} GuardedIsChain(q: Query, w: seq<Edge>)
    requires Guarded(q, w)
    ensures Chain(q, w)
  {
    if w != [] {
      GuardedIsChain(q, w[..|w| - 1]);
    }
  }

  lemma {:induction false} PrefixGuarded(q: Query, w: seq<Edge>, n: nat)
    requires Guarded(q, w) && n <= |w|
    ensures Guarded(q, w[..n])
    decreases |w|
  {
    if n < |w| {
      assert w[..|w| - 1][..n] == w[..n];
      PrefixGuarded(q, w[..|w| - 1], n);
    } else {
      assert w[..n] == w;
    }
  }

  /** A join step on a walk's row is one guarded hop of that walk, and conversely. */
  lemma HopIsGuarded(q: Query, bound: int, v: seq<Edge>, e: Edge)
    requires v != [] && Guarded(q, v) && e in q.edges
    ensures Joins(q, bound, RowOf(q, v), e) <==> |v| < bound && Guarded(q, v + [e])
    ensures RowOf(q, v + [e]) == Hop(RowOf(q, v), e)
  {
    assert (v + [e])[..|v|] == v;
  }

  ghost predicate AllFromWalks(q: Query, rows: seq<Row>) {
    forall r :: r in rows ==> exists w :: FromWalk(q, r, w)
  }

  lemma ExtendFromWalks(q: Query, bound: int, rows: seq<Row>)
    requires AllFromWalks(q, rows)
    ensures AllFromWalks(q, Extend(q, bound, rows))
  {
    forall r | r in Extend(q, bound, rows) ensures exists w :: FromWalk(q, r, w) {
      var c, e :| c in rows && e in q.edges && Joins(q, bound, c, e) && r == Hop(c, e);
      var w :| FromWalk(q, c, w);
      HopIsGuarded(q, bound, w, e);
      assert FromWalk(q, r, w + [e]);
    }
  }

  lemma {:induction false} IterateSound(q: Query, bound: int, working: seq<Row>, depth: nat)
    requires AtDepth(working, depth) && AllFromWalks(q, working)
    requires 1 <= depth <= Max(1, bound)
    ensures AllFromWalks(q, Iterate(q, bound, working, depth))
    ensures forall r :: r in Iterate(q, bound, working, depth) ==> depth <= r.depth <= Max(1, bound)
    decreases if working == [] then 0 else 1 + Max(0, bound - depth)
  {
    if working != [] {
      var next := Extend(q, bound, working);
      ExtendFromWalks(q, bound, working);
      if depth < bound {
        IterateSound(q, bound, next, depth + 1);
      }
    }
  }

  lemma {:induction false} IterateComplete(q: Query, bound: int, working: seq<Row>, depth: nat, w: seq<Edge>)
    requires AtDepth(working, depth) && Guarded(q, w)
    requires 1 <= depth <= |w| <= Max(1, bound)
    requires RowOf(q, w[..depth]) in working
    ensures RowOf(q, w) in Iterate(q, bound, working, depth)
    decreases |w| - depth
  {
    if depth == |w| {
      assert w[..depth] == w;
    } else {
      var v, e := w[..depth], w[depth];
      assert w[..depth + 1] == v + [e];
      PrefixGuarded(q, w, depth);
      PrefixGuarded(q, w, depth + 1);
      assert (v + [e])[..depth] == v;
      HopIsGuarded(q, bound, v, e);
      IterateComplete(q, bound, Extend(q, bound, working), depth + 1, w);
    }
  }

  lemma OneHop(q: Query, e: Edge)
    ensures Guarded(q, [e]) <==> CallsInto(q, e, q.target)
    ensures RowOf(q, [e]) == Row(e.from, 1, [q.target, e.from], e.path, e.line)
  {
    assert [e][..0] == [];
    assert Path(q, [e]) == Path(q, []) + [e.from] == [q.target, e.from];
  }

  /** The statement enumerates the guarded walks of at most bound hops, and nothing else. */
  lemma WalkedIsGuardedWalks(q: Query, bound: int, r: Row)
    ensures r in Walked(q, bound) <==> exists w :: FromWalk(q, r, w) && |w| <= Max(1, bound)
  {
    AnchorRows(q, q.edges);
    var anchor := Anchor(q, q.edges);
    forall a | a in anchor ensures exists w :: FromWalk(q, a, w) {
      var e :| e in q.edges && e.repo == q.repo && e.to == Some(q.target)
        && a == Row(e.from, 1, [q.target, e.from], e.path, e.line);
      OneHop(q, e);
      assert FromWalk(q, a, [e]);
    }
    IterateSound(q, bound, anchor, 1);
    if r in Walked(q, bound) {
      var w :| FromWalk(q, r, w);
      assert |w| == r.depth;
    }
    forall w: seq<Edge> | FromWalk(q, r, w) && |w| <= Max(1, bound) ensures r in Walked(q, bound) {
      OneHop(q, w[0]);
      assert w[..1] == [w[0]];
      PrefixGuarded(q, w, 1);
      IterateComplete(q, bound, anchor, 1, w);
    }
  }

  // ---------- the guard against breadth-first distance ----------

  /** A node on a walk's path is reached by that walk's own prefix. */
  lemma {:induction false} PathPrefix(q: Query, w: seq<Edge>, x: Id) returns (k: nat)
    requires Chain(q, w) && x in Path(q, w)
    ensures k <= |w| && Reaches(q, x, w[..k])
  {
    if x == End(q, w) {
      k := |w|;
      assert w[..k] == w;
    } else {
      var v := w[..|w| - 1];
      k := PathPrefix(q, v, x);
      assert v[..k] == w[..k];
    }
  }

  /** The last node before the end of a shortest walk is itself at its shortest distance. */
  lemma ShortestStep(q: Query, s: Id, w: seq<Edge>)
    requires w != [] && Reaches(q, s, w) && IsDistance(q, s, |w|)
    ensures IsDistance(q, End(q, w[..|w| - 1]), |w| - 1)
  {
    var v, e := w[..|w| - 1], w[|w| - 1];
    assert Reaches(q, End(q, v), v);
    forall u | Reaches(q, End(q, v), u) ensures |v| <= |u| {
      assert (u + [e])[..|u|] == u;
      assert Reaches(q, s, u + [e]);
    }
  }

  /** Shortest walks are simple, so the cycle guard never cuts one. */
  lemma {:induction false} ShortestIsGuarded(q: Query, s: Id, w: seq<Edge>)
    requires Reaches(q, s, w) && IsDistance(q, s, |w|)
    ensures Guarded(q, w)
    decreases |w|
  {
    if w != [] {
      var v := w[..|w| - 1];
      ShortestStep(q, s, w);
      ShortestIsGuarded(q, End(q, v), v);
      if s in Path(q, v) {
        var k := PathPrefix(q, v, s);
        assert false;
      }
    }
  }

  /** Past the anchor no row stands on the target again. */
  lemma {:induction false} TargetOnlyAtAnchor(q: Query, w: seq<Edge>)
    requires w != [] && Guarded(q, w)
    ensures q.target in Path(q, w) && (End(q, w) == q.target ==> |w| == 1)
  {
    assert Path(q, w[..|w| - 1])[0] == q.target by { PathStartsAtTarget(q, w[..|w| - 1]); }
    PathStartsAtTarget(q, w);
  }

  lemma {:induction false} PathStartsAtTarget(q: Query, w: seq<Edge>)
    ensures |Path(q, w)| == |w| + 1 && Path(q, w)[0] == q.target
  {
    if w != [] {
      PathStartsAtTarget(q, w[..|w| - 1]);
    }
  }

  /** The depth the documentation promises: hops for every other symbol, and one
      for the queried symbol, by a direct self-call only. */
  ghost predicate IsDepth(q: Query, s: Id, n: nat) {
    if s == q.target then n == 1 && CallsItself(q, s)
    else IsDistance(q, s, n)
  }

  /** e is a call made by s into a node one hop nearer than n. */
  ghost predicate NearerSite(q: Query, s: Id, n: nat, e: Edge) {
    e.from == s && n > 0 && e.to.Some? && CallsInto(q, e, e.to.value) && IsDistance(q, e.to.value, n - 1)
  }

  lemma TargetAtZero(q: Query)
    ensures IsDistance(q, q.target, 0)
    ensures forall s :: IsDistance(q, s, 0) ==> s == q.target
  {
    assert Reaches(q, q.target, []);
  }

  /** A row at a symbol's depth carries a call site into a node one hop nearer. */
  lemma RowAtDepth(q: Query, s: Id, n: nat, w: seq<Edge>)
    requires w != [] && Guarded(q, w) && End(q, w) == s && |w| == n && IsDepth(q, s, n)
    ensures NearerSite(q, s, n, w[|w| - 1])
  {
    GuardedIsChain(q, w);
    TargetAtZero(q);
    if s == q.target {
      assert w[..|w| - 1] == [];
    } else {
      ShortestStep(q, s, w);
    }
  }

  /** Every call into a node one hop nearer is the last hop of a guarded walk. */
  lemma SiteHasRow(q: Query, s: Id, n: nat, e: Edge) returns (w: seq<Edge>)
    requires IsDepth(q, s, n) && NearerSite(q, s, n, e)
    ensures Guarded(q, w) && End(q, w) == s && |w| == n && w[n - 1] == e
  {
    TargetAtZero(q);
    var v :| Reaches(q, e.to.value, v) && |v| == n - 1;
    w := v + [e];
    assert w[..|v|] == v;
    if s != q.target {
      ShortestIsGuarded(q, s, w);
    }
  }

  lemma DepthIsReached(q: Query, s: Id, n: nat) returns (e: Edge)
    requires IsDepth(q, s, n)
    ensures n > 0 && NearerSite(q, s, n, e)
  {
    TargetAtZero(q);
    if s == q.target {
      e :| CallsInto(q, e, s) && e.from == s;
    } else {
      var w :| Reaches(q, s, w) && |w| == n;
      assert w != [];
      ShortestStep(q, s, w);
      e := w[n - 1];
    }
  }

  lemma WalkHasDepth(q: Query, w: seq<Edge>) returns (n: nat)
    requires w != [] && Guarded(q, w)
    ensures n <= |w| && IsDepth(q, End(q, w), n)
  {
    GuardedIsChain(q, w);
    var s := End(q, w);
    if s == q.target {
      TargetOnlyAtAnchor(q, w);
      assert w[..|w| - 1] == [];
      n := 1;
    } else {
      n := ShortestLength(q, s, w);
    }
  }

  lemma {:induction false} ShortestLength(q: Query, s: Id, w: seq<Edge>) returns (n: nat)
    requires Reaches(q, s, w)
    ensures n <= |w| && IsDistance(q, s, n)
    decreases |w|
  {
    if v :| Reaches(q, s, v) && |v| < |w| {
      n := ShortestLength(q, s, v);
    } else {
      n := |w|;
    }
  }

  // ---------- the answer ----------

  lemma {:induction false} NearestIsLeast(rows: seq<Row>, id: Id)
    ensures var r := Nearest(rows, id);
      if r.Some? then
        r.value in rows && r.value.sym == id
        && forall x :: x in rows && x.sym == id ==> !RowBefore(x, r.value)
      else forall x :: x in rows ==> x.sym != id
  {
    if rows != [] {
      NearestIsLeast(rows[1..], id);
      var rest := Nearest(rows[1..], id);
      var r := Nearest(rows, id);
      if r.Some? {
        forall x | x in rows && x.sym == id ensures !RowBefore(x, r.value) {
          if rest.Some? && x != rows[0] {
            RowBeforeNegTrans(x, rest.value, r.value);
          }
          RowBeforeOrder(x, r.value);
        }
      }
    }
  }

  lemma RowBeforeOrder(a: Row, b: Row)
    ensures !RowBefore(a, a)
    ensures RowBefore(a, b) ==> !RowBefore(b, a)
  {
    TextLessIrreflexive(a.callPath);
    if TextLess(a.callPath, b.callPath) {
      TextLessAsymmetric(a.callPath, b.callPath);
    }
  }

  /** Not earlier than y and y not earlier than z: not earlier than z. */
  lemma RowBeforeNegTrans(x: Row, y: Row, z: Row)
    requires !RowBefore(x, y) && !RowBefore(y, z)
    ensures !RowBefore(x, z)
  {
    TextLessTotal(x.callPath, y.callPath);
    TextLessTotal(y.callPath, z.callPath);
    TextLessTotal(x.callPath, z.callPath);
    TextLessIrreflexive(x.callPath);
    if TextLess(x.callPath, z.callPath) && TextLess(z.callPath, y.callPath) {
      TextLessTransitive(x.callPath, z.callPath, y.callPath);
    }
    if TextLess(x.callPath, z.callPath) && TextLess(y.callPath, x.callPath) {
      TextLessTransitive(y.callPath, x.callPath, z.callPath);
    }
  }

  /** What a row of the answer means, with no mention of the walk: its depth is the
      breadth-first one, within the bound, and its site is the first of all calls the
      symbol makes into a node one hop nearer. */
  ghost predicate IsAnswer(q: Query, symbols: seq<Symbol>, bound: int, c: Caller) {
    && c.symbol in symbols
    && IsDepth(q, c.symbol.id, c.depth)
    && c.depth <= Max(1, bound)
    && (exists e :: NearerSite(q, c.symbol.id, c.depth, e) && e.path == c.callPath && e.line == c.callLine)
    && (forall e :: NearerSite(q, c.symbol.id, c.depth, e) ==>
          !TextLess(e.path, c.callPath) && (e.path == c.callPath ==> c.callLine <= e.line))
  }

  ghost predicate GroupOf(rows: seq<Row>, symbols: seq<Symbol>, c: Caller) {
    c.symbol in symbols &&
    var r := Nearest(rows, c.symbol.id);
    r.Some? && c == Caller(c.symbol, r.value.depth, r.value.callPath, r.value.callLine)
  }

  lemma {:induction false} GroupedMembers(rows: seq<Row>, symbols: seq<Symbol>)
    ensures forall c :: c in Grouped(rows, symbols) <==> GroupOf(rows, symbols, c)
  {
    if symbols != [] {
      GroupedMembers(rows, symbols[1..]);
    }
  }

  /** Some walk of the answer's depth ends in its call site. */
  lemma DepthHasRow(q: Query, bound: int, s: Id, n: nat, e: Edge)
    requires IsDepth(q, s, n) && NearerSite(q, s, n, e) && n <= Max(1, bound)
    ensures exists r :: (r in Walked(q, bound) && r.sym == s && r.depth == n
                         && r.callPath == e.path && r.callLine == e.line)
  {
    var v := SiteHasRow(q, s, n, e);
    WalkedIsGuardedWalks(q, bound, RowOf(q, v));
    assert FromWalk(q, RowOf(q, v), v);
  }

  lemma RowHasDepth(q: Query, bound: int, r: Row) returns (n: nat)
    requires r in Walked(q, bound)
    ensures IsDepth(q, r.sym, n) && n <= r.depth <= Max(1, bound)
    ensures n == r.depth ==>
      exists e :: NearerSite(q, r.sym, n, e) && e.path == r.callPath && e.line == r.callLine
  {
    WalkedIsGuardedWalks(q, bound, r);
    var w :| FromWalk(q, r, w) && |w| <= Max(1, bound);
    n := WalkHasDepth(q, w);
    if n == r.depth {
      RowAtDepth(q, r.sym, n, w);
    }
  }

  /** The least row of a symbol sits at the symbol's depth. */
  lemma LeastAtDepth(q: Query, bound: int, r: Row)
    requires r in Walked(q, bound)
    requires forall x :: x in Walked(q, bound) && x.sym == r.sym ==> !RowBefore(x, r)
    ensures IsDepth(q, r.sym, r.depth) && r.depth <= Max(1, bound)
    ensures exists e :: NearerSite(q, r.sym, r.depth, e) && e.path == r.callPath && e.line == r.callLine
  {
    var n := RowHasDepth(q, bound, r);
    var e := DepthIsReached(q, r.sym, n);
    DepthHasRow(q, bound, r.sym, n, e);
  }

  /** The group's nearest row is exactly the answer the distances dictate. */
  lemma NearestIsAnswer(q: Query, symbols: seq<Symbol>, bound: int, c: Caller)
    requires GroupOf(Walked(q, bound), symbols, c)
    ensures IsAnswer(q, symbols, bound, c)
  {
    NearestIsLeast(Walked(q, bound), c.symbol.id);
    var r := Nearest(Walked(q, bound), c.symbol.id).value;
    LeastAtDepth(q, bound, r);
    SitesAreRows(q, bound, r);
  }

  lemma AnswerIsNearest(q: Query, symbols: seq<Symbol>, bound: int, c: Caller)
    requires IsAnswer(q, symbols, bound, c)
    ensures GroupOf(Walked(q, bound), symbols, c)
  {
    var id := c.symbol.id;
    var e :| NearerSite(q, id, c.depth, e) && e.path == c.callPath && e.line == c.callLine;
    DepthHasRow(q, bound, id, c.depth, e);
    NearestIsLeast(Walked(q, bound), id);
    var r := Nearest(Walked(q, bound), id).value;
    LeastAtDepth(q, bound, r);
    SitesAreRows(q, bound, r);
    TextLessTotal(c.callPath, r.callPath);
  }

  lemma SitesAreRows(q: Query, bound: int, r: Row)
    requires r in Walked(q, bound) && IsDepth(q, r.sym, r.depth)
    requires forall x :: x in Walked(q, bound) && x.sym == r.sym ==> !RowBefore(x, r)
    requires r.depth <= Max(1, bound)
    ensures forall e :: NearerSite(q, r.sym, r.depth, e) ==>
              !TextLess(e.path, r.callPath) && (e.path == r.callPath ==> r.callLine <= e.line)
  {
    forall e | NearerSite(q, r.sym, r.depth, e)
      ensures !TextLess(e.path, r.callPath) && (e.path == r.callPath ==> r.callLine <= e.line)
    {
      var v := SiteHasRow(q, r.sym, r.depth, e);
      WalkedIsGuardedWalks(q, bound, RowOf(q, v));
      assert FromWalk(q, RowOf(q, v), v);
    }
  }

  lemma CallerBeforeOrders()
    ensures StrictOrder(CallerBefore)
  {
    forall a ensures !CallerBefore(a, a) {
      TextLessIrreflexive(a.symbol.path);
      TextLessIrreflexive(a.symbol.id);
    }
    forall a, b, c | CallerBefore(a, b) && CallerBefore(b, c) ensures CallerBefore(a, c) {
      if TextLess(a.symbol.path, b.symbol.path) && TextLess(b.symbol.path, c.symbol.path) {
        TextLessTransitive(a.symbol.path, b.symbol.path, c.symbol.path);
      }
      if TextLess(a.symbol.id, b.symbol.id) && TextLess(b.symbol.id, c.symbol.id) {
        TextLessTransitive(a.symbol.id, b.symbol.id, c.symbol.id);
      }
    }
  }

  ghost predicate UniqueIds(symbols: seq<Symbol>) {
    forall i, j :: 0 <= i < j < |symbols| ==> symbols[i].id != symbols[j].id
  }

  lemma GroupedDecided(rows: seq<Row>, symbols: seq<Symbol>)
    requires UniqueIds(symbols)
    ensures Decides(CallerBefore, Grouped(rows, symbols))
  {
    var g := Grouped(rows, symbols);
    GroupedMembers(rows, symbols);
    forall x, y | x in g && y in g ensures x == y || CallerBefore(x, y) || CallerBefore(y, x) {
      assert GroupOf(rows, symbols, x) && GroupOf(rows, symbols, y);
      TextLessTotal(x.symbol.path, y.symbol.path);
      TextLessTotal(x.symbol.id, y.symbol.id);
    }
  }

  lemma {:induction false} GroupedDistinct(rows: seq<Row>, symbols: seq<Symbol>)
    requires UniqueIds(symbols)
    ensures Distinct(Grouped(rows, symbols))
  {
    if symbols != [] {
      GroupedDistinct(rows, symbols[1..]);
      GroupedMembers(rows, symbols[1..]);
      forall c | c in Grouped(rows, symbols[1..]) ensures c.symbol != symbols[0] {
        assert GroupOf(rows, symbols[1..], c);
      }
    }
  }

  lemma CallersAreAnswers(q: Query, symbols: seq<Symbol>, bound: int)
    ensures forall c :: c in AllCallers(q, symbols, bound) <==> IsAnswer(q, symbols, bound, c)
  {
    var g := Grouped(Walked(q, bound), symbols);
    SortMembers(CallerBefore, g);
    GroupedMembers(Walked(q, bound), symbols);
    forall c ensures c in AllCallers(q, symbols, bound) <==> IsAnswer(q, symbols, bound, c) {
      if c in g { NearestIsAnswer(q, symbols, bound, c); }
      if IsAnswer(q, symbols, bound, c) { AnswerIsNearest(q, symbols, bound, c); }
    }
  }

  /** The caller list, read off the edges alone: it holds exactly the symbols within
      the bound, each once, nearest first, at its breadth-first depth. */
  lemma CallersAreBreadthFirst(q: Query, symbols: seq<Symbol>, bound: int)
    requires UniqueIds(symbols)
    ensures StrictlySorted(CallerBefore, AllCallers(q, symbols, bound))
    ensures forall c :: c in AllCallers(q, symbols, bound) <==> IsAnswer(q, symbols, bound, c)
  {
    CallerBeforeOrders();
    GroupedDecided(Walked(q, bound), symbols);
    GroupedDistinct(Walked(q, bound), symbols);
    SortDistinct(CallerBefore, Grouped(Walked(q, bound), symbols));
    CallersAreAnswers(q, symbols, bound);
  }

  lemma LimitedIsDelivered(q: Query, symbols: seq<Symbol>, bound: int, limit: nat)
    requires UniqueIds(symbols)
    ensures Delivered(q, symbols, bound, limit, Limited(AllCallers(q, symbols, bound), limit))
  {
    var all := AllCallers(q, symbols, bound);
    var out := Limited(all, limit);
    CallersAreBreadthFirst(q, symbols, bound);
    forall c | IsAnswer(q, symbols, bound, c) && c !in out
      ensures |out| == limit && forall x :: x in out ==> CallerBefore(x, c)
    {
      assert forall i :: 0 <= i < |out| ==> all[i] in out;
      var i :| 0 <= i < |all| && all[i] == c;
    }
  }

  /** A delivered list stands by depth, then by path, line and id of the caller. */
  lemma DeliveredByDepth(q: Query, symbols: seq<Symbol>, bound: int, limit: nat, out: seq<Caller>, i: nat, k: nat)
    requires Delivered(q, symbols, bound, limit, out) && i < k < |out|
    ensures var a, b := out[i], out[k];
      && a.depth <= b.depth
      && (a.depth == b.depth ==> a.symbol.path == b.symbol.path || TextLess(a.symbol.path, b.symbol.path))
      && (a.depth == b.depth && a.symbol.path == b.symbol.path ==> a.symbol.startLine <= b.symbol.startLine)
      && (a.depth == b.depth && a.symbol.path == b.symbol.path && a.symbol.startLine == b.symbol.startLine ==>
            TextLess(a.symbol.id, b.symbol.id))
  {
    TextLessIrreflexive(out[i].symbol.path);
    assert CallerBefore(out[i], out[k]);
  }

  /** A caller's site is a call it makes in this repository to a resolved target; and whoever calls
      the target directly, in this repository, is an answer at depth 1. */
  lemma CallSitesAreReal(q: Query, symbols: seq<Symbol>, bound: int)
    ensures forall c :: IsAnswer(q, symbols, bound, c) ==>
      exists e :: e in q.edges && e.repo == q.repo && e.to.Some?
        && e.from == c.symbol.id && e.path == c.callPath && e.line == c.callLine
    ensures forall s, e ::
      s in symbols && e in q.edges && e.repo == q.repo && e.to == Some(q.target) && e.from == s.id ==>
      exists c :: IsAnswer(q, symbols, bound, c) && c.symbol == s && c.depth == 1
  {
    forall s, e | s in symbols && e in q.edges && e.repo == q.repo && e.to == Some(q.target) && e.from == s.id
      ensures exists c :: IsAnswer(q, symbols, bound, c) && c.symbol == s && c.depth == 1
    {
      DirectCallerIsAnswer(q, symbols, bound, s, e);
    }
  }

  lemma DirectCallerIsAnswer(q: Query, symbols: seq<Symbol>, bound: int, s: Symbol, e: Edge)
    requires s in symbols && CallsInto(q, e, q.target) && e.from == s.id
    ensures exists c :: IsAnswer(q, symbols, bound, c) && c.symbol == s && c.depth == 1
  {
    DirectCallerAtOne(q, s.id, e);
    DepthHasRow(q, bound, s.id, 1, e);
    NearestIsLeast(Walked(q, bound), s.id);
    var r := Nearest(Walked(q, bound), s.id).value;
    var c := Caller(s, r.depth, r.callPath, r.callLine);
    assert GroupOf(Walked(q, bound), symbols, c);
    NearestIsAnswer(q, symbols, bound, c);
    LeastAtDepth(q, bound, r);
  }

  lemma DirectCallerAtOne(q: Query, s: Id, e: Edge)
    requires CallsInto(q, e, q.target) && e.from == s
    ensures IsDepth(q, s, 1) && NearerSite(q, s, 1, e)
    ensures forall n :: IsDepth(q, s, n) ==> n == 1
  {
    TargetAtZero(q);
    if s != q.target {
      var w := [e];
      assert w[..0] == [] && End(q, []) == q.target;
      assert Reaches(q, s, w);
      forall v | Reaches(q, s, v) ensures 1 <= |v| {
        assert v != [];
      }
    }
  }

  /** No two lists are delivered for one query. */
  lemma DeliveredIsUnique(q: Query, symbols: seq<Symbol>, bound: int, limit: nat, a: seq<Caller>, b: seq<Caller>)
    requires Delivered(q, symbols, bound, limit, a) && Delivered(q, symbols, bound, limit, b)
    ensures a == b
  {
    DeliveredAgree(q, symbols, bound, limit, a, b);
    DeliveredAgree(q, symbols, bound, limit, b, a);
    CallerBeforeOrders();
    StrictlySortedUnique(CallerBefore, a, b);
  }

  /** A row only a has would leave b full of rows before it, one of them not in a. */
  lemma DeliveredAgree(q: Query, symbols: seq<Symbol>, bound: int, limit: nat, a: seq<Caller>, b: seq<Caller>)
    requires Delivered(q, symbols, bound, limit, a) && Delivered(q, symbols, bound, limit, b)
    ensures forall c :: c in a ==> c in b
  {
    CallerBeforeOrders();
    assert forall x, y :: CallerBefore(x, y) ==> !CallerBefore(y, x);
    forall c | c in a ensures c in b {
      if c !in b {
        var others := (set x | x in a) - {c};
        SetIsSmall(a, c);
        assert forall x :: x in b ==> CallerBefore(x, c);
        assert forall x :: x in b ==> !CallerBefore(c, x);
        assert forall x :: x in b ==> x in others;
        DistinctFit(b, others);
      }
    }
  }

  lemma SetIsSmall<T(!new)>(s: seq<T>, x: T)
    requires x in s
    ensures |(set y | y in s) - {x}| < |s|
  {
    SetFits(s);
  }

  lemma {:induction false} SetFits<T(!new)>(s: seq<T>)
    ensures |set x | x in s| <= |s|
  {
    if s != [] {
      SetFits(s[1..]);
      assert (set x | x in s) == (set x | x in s[1..]) + {s[0]};
    }
  }

  // ---------- the walk ends by itself ----------

  ghost function Tails(edges: seq<Edge>): set<Id> {
    set e | e in edges :: e.from
  }

  /** The nodes a guarded walk hops to are all different callers. */
  lemma {:induction false} GuardedIsBounded(q: Query, w: seq<Edge>)
    requires Guarded(q, w)
    ensures |Path(q, w)| == |w| + 1
    ensures forall i, j :: 1 <= i < j <= |w| ==> Path(q, w)[i] != Path(q, w)[j]
    ensures forall i :: 1 <= i <= |w| ==> Path(q, w)[i] in Tails(q.edges)
  {
    if w != [] {
      var v := w[..|w| - 1];
      GuardedIsBounded(q, v);
      var p := Path(q, v);
      assert forall i :: 0 <= i < |p| ==> p[i] in p;
    }
  }

  lemma {:induction false} DistinctFit<T(!new)>(s: seq<T>, within: set<T>)
    requires Distinct(s) && forall x :: x in s ==> x in within
    ensures |s| <= |within|
  {
    if s != [] {
      DistinctFit(s[1..], within - {s[0]});
    }
  }

  /** The guard alone bounds the recursion: no row is deeper than there are callers,
      whatever depth was asked for. */
  lemma WalkIsFinite(q: Query, bound: int, r: Row)
    requires r in Walked(q, bound)
    ensures r.depth <= |Tails(q.edges)|
  {
    WalkedIsGuardedWalks(q, bound, r);
    var w :| FromWalk(q, r, w);
    GuardedIsBounded(q, w);
    assert forall i :: 0 <= i < |Path(q, w)[1..]| ==> Path(q, w)[1..][i] == Path(q, w)[i + 1];
    DistinctFit(Path(q, w)[1..], Tails(q.edges));
  }

  lemma DeepAnswerStands(q: Query, symbols: seq<Symbol>, a: int, b: int, c: Caller)
    requires |Tails(q.edges)| <= b && IsAnswer(q, symbols, a, c)
    ensures IsAnswer(q, symbols, b, c)
  {
    AnswerFits(q, symbols, a, c);
  }

  lemma AnswersDecided(q: Query, symbols: seq<Symbol>, bound: int)
    requires UniqueIds(symbols)
    ensures StrictOrder(CallerBefore) && Decides(CallerBefore, AllCallers(q, symbols, bound))
  {
    CallerBeforeOrders();
    SortMembers(CallerBefore, Grouped(Walked(q, bound), symbols));
    GroupedDecided(Walked(q, bound), symbols);
  }

  lemma SameAnswers(q: Query, symbols: seq<Symbol>, a: int, b: int)
    requires UniqueIds(symbols)
    requires |Tails(q.edges)| <= a && |Tails(q.edges)| <= b
    ensures forall c :: c in AllCallers(q, symbols, a) ==> c in AllCallers(q, symbols, b)
  {
    CallersAreBreadthFirst(q, symbols, a);
    CallersAreBreadthFirst(q, symbols, b);
    forall c | c in AllCallers(q, symbols, a) ensures c in AllCallers(q, symbols, b) {
      DeepAnswerStands(q, symbols, a, b, c);
    }
  }

  /** Hence any two bounds at least that large give one and the same answer. */
  lemma DeepBoundsAgree(q: Query, symbols: seq<Symbol>, a: int, b: int)
    requires UniqueIds(symbols)
    requires |Tails(q.edges)| <= a && |Tails(q.edges)| <= b
    ensures AllCallers(q, symbols, a) == AllCallers(q, symbols, b)
  {
    SameAnswers(q, symbols, a, b);
    SameAnswers(q, symbols, b, a);
    ListIsSorted(q, symbols, a);
    ListIsSorted(q, symbols, b);
    AnswersDecided(q, symbols, a);
    StrictlySortedUnique(CallerBefore, AllCallers(q, symbols, a), AllCallers(q, symbols, b));
  }

  lemma ListIsSorted(q: Query, symbols: seq<Symbol>, bound: int)
    requires UniqueIds(symbols)
    ensures StrictlySorted(CallerBefore, AllCallers(q, symbols, bound))
  {
    CallersAreBreadthFirst(q, symbols, bound);
  }

  lemma AnswerFits(q: Query, symbols: seq<Symbol>, bound: int, c: Caller)
    requires IsAnswer(q, symbols, bound, c)
    ensures c.depth <= |Tails(q.edges)|
  {
    AnswerIsNearest(q, symbols, bound, c);
    NearestIsLeast(Walked(q, bound), c.symbol.id);
    WalkIsFinite(q, bound, Nearest(Walked(q, bound), c.symbol.id).value);
  }

  /** f calls g and g calls f, seen from f. */
  function MutualPair(): Query {
    Query([Edge("r", "g", Some("f"), "a.go", 1), Edge("r", "f", Some("g"), "a.go", 2)], "r", "f")
  }

  ghost predicate CallsItself(q: Query, s: Id) {
    exists e :: CallsInto(q, e, s) && e.from == s
  }

  /** Where the guard does show: the queried symbol is in its own list exactly when it calls
      itself directly, and then at depth 1, however many walks lead from it back to itself. */
  lemma SelfIsListedIffDirect(q: Query, symbols: seq<Symbol>, bound: int)
    ensures (exists c :: c in AllCallers(q, symbols, bound) && c.symbol.id == q.target)
        <==> (CallsItself(q, q.target) && exists s :: s in symbols && s.id == q.target)
    ensures forall c :: c in AllCallers(q, symbols, bound) && c.symbol.id == q.target ==> c.depth == 1
  {
    CallersAreAnswers(q, symbols, bound);
    if CallsItself(q, q.target) && exists s :: s in symbols && s.id == q.target {
      var e :| CallsInto(q, e, q.target) && e.from == q.target;
      var s :| s in symbols && s.id == q.target;
      TargetAtZero(q);
      DepthHasRow(q, bound, q.target, 1, e);
      NearestIsLeast(Walked(q, bound), q.target);
      var r := Nearest(Walked(q, bound), q.target).value;
      var c := Caller(s, r.depth, r.callPath, r.callLine);
      assert GroupOf(Walked(q, bound), symbols, c);
      NearestIsAnswer(q, symbols, bound, c);
    }
  }

  /** Half of a mutually recursive pair does walk back to itself, and is in its own list at no
      depth: the guard changes the answer there. */
  lemma IndirectSelfCallIsAbsent(symbols: seq<Symbol>, bound: int)
    ensures exists w :: w != [] && Reaches(MutualPair(), "f", w)
    ensures forall c :: c in AllCallers(MutualPair(), symbols, bound) ==> c.symbol.id != "f"
  {
    var q := MutualPair();
    var e0, e1 := q.edges[0], q.edges[1];
    assert [e0][..0] == [] && [e0, e1][..1] == [e0];
    assert CallsInto(q, e0, End(q, [])) && CallsInto(q, e1, End(q, [e0]));
    assert Chain(q, [e0]);
    assert Reaches(q, "f", [e0, e1]);
    SelfIsListedIffDirect(q, symbols, bound);
  }
}
