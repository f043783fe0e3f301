/** What a built graph holds, read off the job itself: its definitions, calls, files and spans. */
module GraphLaws {
  import opened Common
  import opened Order
  import opened Ids
  import opened Graph

  /** The file and the place in it of a definition or a call. */
  type Place = (nat, nat)

  /** Files in order, and in order within a file. */
  ghost predicate InOrder(at: seq<Place>) {
    forall m, n :: 0 <= m < n < |at| ==> at[m].0 < at[n].0 || (at[m].0 == at[n].0 && at[m].1 < at[n].1)
  }

  ghost predicate HasRow(files: seq<FileRow>, path: string) {
    exists f :: f in files && f.path == path
  }

  predicate IsDef(j: Job, p: Place) {
    p.0 < |j.parsed| && p.1 < |j.parsed[p.0].defs|
  }

  function DefAt(j: Job, p: Place): Def
    requires IsDef(j, p)
  {
    j.parsed[p.0].defs[p.1]
  }

  /** A definition whose file has a row. */
  ghost predicate Eligible(j: Job, p: Place) {
    IsDef(j, p) && HasRow(j.files, DefAt(j, p).path)
  }

  // ---------- the symbols ----------

  lemma {:induction false} FileIdsAre(files: seq<FileRow>, n: nat, path: string)
    requires n <= |files|
    ensures path in FileIds(files, n) <==> exists i :: 0 <= i < n && files[i].path == path
    ensures path in FileIds(files, n) ==>
      exists i :: LastFile(files, n, path, i) && files[i].id == FileIds(files, n)[path]
  {
    if n > 0 {
      FileIdsAre(files, n - 1, path);
      if files[n - 1].path == path {
        assert LastFile(files, n, path, n - 1);
      } else if path in FileIds(files, n) {
        var i :| LastFile(files, n - 1, path, i) && files[i].id == FileIds(files, n - 1)[path];
        assert LastFile(files, n, path, i);
      }
    }
  }

  /** Of the first n rows, i is the last one of this path. */
  ghost predicate LastFile(files: seq<FileRow>, n: nat, path: string, i: int) {
    n <= |files| && 0 <= i < n && files[i].path == path && forall k :: i < k < n ==> files[k].path != path
  }

  lemma {:induction false} KeptOfPlaces(ids: map<string, string>, defs: seq<Def>, n: nat) returns (at: seq<nat>)
    requires n <= |defs|
    ensures |at| == |KeptOf(ids, defs, n)| && Increasing(at)
    ensures forall i: nat :: i in at <==> i < n && defs[i].path in ids
    ensures forall m :: 0 <= m < |at| ==> at[m] < n && KeptOf(ids, defs, n)[m] == defs[at[m]]
  {
    if n == 0 {
      at := [];
    } else {
      var before := KeptOfPlaces(ids, defs, n - 1);
      at := before;
      if defs[n - 1].path in ids {
        IncreasingGrows(before, n - 1);
        at := before + [n - 1];
      }
      forall m | 0 <= m < |at| ensures at[m] < n && KeptOf(ids, defs, n)[m] == defs[at[m]] {
        if m < |before| {
          assert at[m] == before[m] && KeptOf(ids, defs, n)[m] == KeptOf(ids, defs, n - 1)[m];
        }
      }
    }
  }

  /** The places of the first n files' kept definitions. */
  ghost predicate Places(j: Job, ids: map<string, string>, n: nat, at: seq<Place>)
    requires n <= |j.parsed|
  {
    && |at| == |Kept(ids, j.parsed, n)| && InOrder(at)
    && (forall p: Place :: p in at <==> p.0 < n && IsDef(j, p) && DefAt(j, p).path in ids)
    && (forall m :: 0 <= m < |at| ==> IsDef(j, at[m]) && Kept(ids, j.parsed, n)[m] == DefAt(j, at[m]))
  }

  /** A file's places after those of earlier files. */
  lemma Appended(before: seq<Place>, n: nat, inner: seq<nat>) returns (at: seq<Place>)
    requires InOrder(before) && forall p :: p in before ==> p.0 < n
    requires Increasing(inner)
    ensures |at| == |before| + |inner| && InOrder(at)
    ensures forall p: Place :: p in at <==> p in before || (p.0 == n && p.1 in inner)
    ensures forall m :: 0 <= m < |before| ==> at[m] == before[m]
    ensures forall m :: 0 <= m < |inner| ==> at[|before| + m] == (n, inner[m])
  {
    var tail: seq<Place> := seq(|inner|, m requires 0 <= m < |inner| => (n, inner[m]));
    at := before + tail;
    forall p: Place ensures p in tail <==> p.0 == n && p.1 in inner {
      if p.0 == n && p.1 in inner {
        var m :| 0 <= m < |inner| && inner[m] == p.1;
        assert tail[m] == p;
      }
    }
    forall m | 0 <= m < |before| ensures before[m].0 < n {
      assert before[m] in before;
    }
  }

  lemma KeptExtends(j: Job, ids: map<string, string>, n: nat, before: seq<Place>, inner: seq<nat>, at: seq<Place>)
    requires n < |j.parsed| && Places(j, ids, n, before) && |at| == |before| + |inner| && InOrder(at)
    requires |inner| == |KeptOf(ids, j.parsed[n].defs, |j.parsed[n].defs|)|
    requires forall i: nat :: i in inner <==> 0 <= i < |j.parsed[n].defs| && j.parsed[n].defs[i].path in ids
    requires forall m :: 0 <= m < |inner| ==>
      inner[m] < |j.parsed[n].defs|
      && KeptOf(ids, j.parsed[n].defs, |j.parsed[n].defs|)[m] == j.parsed[n].defs[inner[m]]
    requires forall p: Place :: p in at <==> p in before || (p.0 == n && p.1 in inner)
    requires forall m :: 0 <= m < |before| ==> at[m] == before[m]
    requires forall m :: 0 <= m < |inner| ==> at[|before| + m] == (n, inner[m])
    ensures Places(j, ids, n + 1, at)
  {
    var kept := Kept(ids, j.parsed, n + 1);
    forall m | 0 <= m < |at| ensures IsDef(j, at[m]) && kept[m] == DefAt(j, at[m]) {
      if m >= |before| {
        assert at[m] == at[|before| + (m - |before|)];
      }
    }
  }

  lemma {:induction false} KeptPlaces(j: Job, ids: map<string, string>, n: nat) returns (at: seq<Place>)
    requires n <= |j.parsed|
    ensures Places(j, ids, n, at)
  {
    if n == 0 {
      at := [];
    } else {
      var before := KeptPlaces(j, ids, n - 1);
      var defs := j.parsed[n - 1].defs;
      var inner := KeptOfPlaces(ids, defs, |defs|);
      at := Appended(before, n - 1, inner);
      KeptExtends(j, ids, n - 1, before, inner, at);
    }
  }

  /** The symbol says what the definition says, under its file's row. */
  ghost predicate Describes(j: Job, s: Symbol, d: Def) {
    && s.repoId == j.repoId && s.path == d.path && s.startLine == d.startLine && s.endLine == d.endLine
    && s.kind == d.kind && s.name == d.name && s.pkg == d.pkg
    && s.id == SymbolId(j.repoId, d.path, d.startLine, d.kind, d.name)
    && exists i :: LastFile(j.files, |j.files|, d.path, i) && s.fileId == j.files[i].id
  }

  lemma SymbolDescribes(j: Job, d: Def)
    requires HasRow(j.files, d.path)
    ensures Describes(j, SymbolOf(j, FileIds(j.files, |j.files|), d), d)
  {
    FileIdsAre(j.files, |j.files|, d.path);
  }

  /** The symbols are the definitions whose files have rows: each once, in the order of the files
      and within them, and no other. */
  lemma SymbolsAreTheDefinitions(j: Job, r: Resolution) returns (at: seq<Place>)
    ensures |at| == |Built(j, r).symbols| && InOrder(at)
    ensures forall p: Place :: p in at <==> Eligible(j, p)
    ensures forall m :: 0 <= m < |at| ==> IsDef(j, at[m]) && Describes(j, Built(j, r).symbols[m], DefAt(j, at[m]))
  {
    var ids := FileIds(j.files, |j.files|);
    at := KeptPlaces(j, ids, |j.parsed|);
    forall p: Place ensures p in at <==> Eligible(j, p) {
      if IsDef(j, p) {
        FileIdsAre(j.files, |j.files|, DefAt(j, p).path);
      }
    }
    forall m | 0 <= m < |at| ensures IsDef(j, at[m]) && Describes(j, Built(j, r).symbols[m], DefAt(j, at[m])) {
      assert at[m] in at;
      SymbolDescribes(j, DefAt(j, at[m]));
    }
  }

  // ---------- the edges ----------

  predicate IsCall(j: Job, p: Place) {
    p.0 < |j.parsed| && p.1 < |j.parsed[p.0].calls|
  }

  function CallAt(j: Job, p: Place): Call
    requires IsCall(j, p)
  {
    j.parsed[p.0].calls[p.1]
  }

  /** Some definition with a symbol starts where the call says its declaration does. */
  ghost predicate Owned(j: Job, c: Call) {
    exists p: Place :: Eligible(j, p) && DefAt(j, p).path == c.path && DefAt(j, p).startLine == c.fromStart
  }

  function OwnerOf(repoId: string, kept: seq<Def>, c: Call): Option<string> {
    Owner(repoId, kept, |kept|, c.path, c.fromStart)
  }

  /** e is the edge of the call c. */
  ghost predicate EdgeOf(repoId: string, kept: seq<Def>, r: Resolution, c: Call, e: Edge) {
    OwnerOf(repoId, kept, c).Some? && e == EdgeFor(repoId, kept, r, c, OwnerOf(repoId, kept, c).value)
  }

  lemma EdgesOfStep(repoId: string, kept: seq<Def>, r: Resolution, calls: seq<Call>, n: nat)
    returns (last: seq<Edge>)
    requires n < |calls|
    ensures EdgesOf(repoId, kept, r, calls, n + 1) == EdgesOf(repoId, kept, r, calls, n) + last
    ensures if OwnerOf(repoId, kept, calls[n]).Some? then |last| == 1 && EdgeOf(repoId, kept, r, calls[n], last[0])
            else last == []
  {
    var owner := OwnerOf(repoId, kept, calls[n]);
    last := if owner.Some? then [EdgeFor(repoId, kept, r, calls[n], owner.value)] else [];
  }

  /** The m-th edge is the call's at the m-th place. */
  ghost predicate EdgesAt(repoId: string, kept: seq<Def>, r: Resolution, calls: seq<Call>, at: seq<nat>,
                          edges: seq<Edge>) {
    |at| == |edges| && forall m :: 0 <= m < |at| ==>
      at[m] < |calls| && EdgeOf(repoId, kept, r, calls[at[m]], edges[m])
  }

  lemma EdgesAtGrows(repoId: string, kept: seq<Def>, r: Resolution, calls: seq<Call>, at: seq<nat>,
                     edges: seq<Edge>, n: nat, e: Edge)
    requires EdgesAt(repoId, kept, r, calls, at, edges) && n < |calls| && EdgeOf(repoId, kept, r, calls[n], e)
    ensures EdgesAt(repoId, kept, r, calls, at + [n], edges + [e])
  {
  }

  /** The places, among the first n calls, of those with an owner. */
  function OwnedAt(repoId: string, kept: seq<Def>, calls: seq<Call>, n: nat): seq<nat>
    requires n <= |calls|
  {
    if n == 0 then []
    else
      OwnedAt(repoId, kept, calls, n - 1) + if OwnerOf(repoId, kept, calls[n - 1]).Some? then [n - 1] else []
  }

  lemma {:induction false} OwnedAtAre(repoId: string, kept: seq<Def>, calls: seq<Call>, n: nat)
    requires n <= |calls|
    ensures Increasing(OwnedAt(repoId, kept, calls, n))
    ensures forall i: nat :: i in OwnedAt(repoId, kept, calls, n) <==> i < n && OwnerOf(repoId, kept, calls[i]).Some?
  {
    if n > 0 {
      OwnedAtAre(repoId, kept, calls, n - 1);
      var before := OwnedAt(repoId, kept, calls, n - 1);
      assert forall m :: 0 <= m < |before| ==> before[m] in before;
      IncreasingGrows(before, n - 1);
    }
  }

  lemma {:induction false} OwnedAtEdges(repoId: string, kept: seq<Def>, r: Resolution, calls: seq<Call>, n: nat)
    requires n <= |calls|
    ensures EdgesAt(repoId, kept, r, calls, OwnedAt(repoId, kept, calls, n), EdgesOf(repoId, kept, r, calls, n))
  {
    if n > 0 {
      OwnedAtEdges(repoId, kept, r, calls, n - 1);
      var last := EdgesOfStep(repoId, kept, r, calls, n - 1);
      if last != [] {
        EdgesAtGrows(repoId, kept, r, calls, OwnedAt(repoId, kept, calls, n - 1),
                     EdgesOf(repoId, kept, r, calls, n - 1), n - 1, last[0]);
        assert last == [last[0]];
      }
    }
  }

  lemma EdgesOfPlaces(repoId: string, kept: seq<Def>, r: Resolution, calls: seq<Call>) returns (at: seq<nat>)
    ensures EdgesAt(repoId, kept, r, calls, at, EdgesOf(repoId, kept, r, calls, |calls|)) && Increasing(at)
    ensures forall i: nat :: i in at <==> i < |calls| && OwnerOf(repoId, kept, calls[i]).Some?
  {
    at := OwnedAt(repoId, kept, calls, |calls|);
    OwnedAtAre(repoId, kept, calls, |calls|);
    OwnedAtEdges(repoId, kept, r, calls, |calls|);
  }

  ghost predicate HasOwner(j: Job, kept: seq<Def>, p: Place) {
    IsCall(j, p) && OwnerOf(j.repoId, kept, CallAt(j, p)).Some?
  }

  ghost predicate CallEdge(j: Job, kept: seq<Def>, r: Resolution, p: Place, e: Edge) {
    IsCall(j, p) && EdgeOf(j.repoId, kept, r, CallAt(j, p), e)
  }

  /** The places of the first n files' owned calls. */
  ghost predicate OwnedUpTo(j: Job, kept: seq<Def>, n: nat, at: seq<Place>) {
    InOrder(at) && forall p: Place :: p in at <==> p.0 < n && HasOwner(j, kept, p)
  }

  ghost predicate CallEdges(j: Job, kept: seq<Def>, r: Resolution, at: seq<Place>, edges: seq<Edge>) {
    |at| == |edges| && forall m :: 0 <= m < |at| ==> CallEdge(j, kept, r, at[m], edges[m])
  }

  lemma OwnedExtends(j: Job, kept: seq<Def>, n: nat, before: seq<Place>, inner: seq<nat>, at: seq<Place>)
    requires OwnedUpTo(j, kept, n, before) && InOrder(at)
    requires forall i: nat :: i in inner <==> HasOwner(j, kept, (n, i))
    requires forall p: Place :: p in at <==> p in before || (p.0 == n && p.1 in inner)
    ensures OwnedUpTo(j, kept, n + 1, at)
  {
    forall p: Place ensures p in at <==> p.0 < n + 1 && HasOwner(j, kept, p) {
      assert p.0 == n ==> p == (n, p.1);
    }
  }

  lemma EdgesExtend(j: Job, kept: seq<Def>, r: Resolution, before: seq<Place>, edges: seq<Edge>,
                    tail: seq<Place>, more: seq<Edge>, at: seq<Place>)
    requires CallEdges(j, kept, r, before, edges) && CallEdges(j, kept, r, tail, more) && at == before + tail
    ensures CallEdges(j, kept, r, at, edges + more)
  {
    forall m | 0 <= m < |at| ensures CallEdge(j, kept, r, at[m], (edges + more)[m]) {
      if m < |before| {
        assert CallEdge(j, kept, r, before[m], edges[m]);
      } else {
        assert CallEdge(j, kept, r, tail[m - |before|], more[m - |before|]);
      }
    }
  }

  /** One file's owned calls, edge by edge. */
  lemma FileEdges(j: Job, kept: seq<Def>, r: Resolution, n: nat) returns (inner: seq<nat>, tail: seq<Place>)
    requires n < |j.parsed|
    ensures Increasing(inner) && forall i: nat :: i in inner <==> HasOwner(j, kept, (n, i))
    ensures |tail| == |inner| && forall m :: 0 <= m < |inner| ==> tail[m] == (n, inner[m])
    ensures CallEdges(j, kept, r, tail, EdgesOf(j.repoId, kept, r, j.parsed[n].calls, |j.parsed[n].calls|))
  {
    var calls := j.parsed[n].calls;
    var more := EdgesOf(j.repoId, kept, r, calls, |calls|);
    inner := EdgesOfPlaces(j.repoId, kept, r, calls);
    tail := seq(|inner|, m requires 0 <= m < |inner| => (n, inner[m]));
    forall i: nat ensures HasOwner(j, kept, (n, i)) <==> i < |calls| && OwnerOf(j.repoId, kept, calls[i]).Some? {
    }
    forall m | 0 <= m < |tail| ensures CallEdge(j, kept, r, tail[m], more[m]) {
      assert EdgeOf(j.repoId, kept, r, calls[inner[m]], more[m]);
    }
  }

  lemma {:induction false} EdgePlaces(j: Job, kept: seq<Def>, r: Resolution, n: nat) returns (at: seq<Place>)
    requires n <= |j.parsed|
    ensures OwnedUpTo(j, kept, n, at) && CallEdges(j, kept, r, at, Edges(j.repoId, kept, r, j.parsed, n))
  {
    if n == 0 {
      at := [];
    } else {
      var before := EdgePlaces(j, kept, r, n - 1);
      var inner, tail := FileEdges(j, kept, r, n - 1);
      at := Appended(before, n - 1, inner);
      assert at == before + tail;
      OwnedExtends(j, kept, n - 1, before, inner, at);
      EdgesExtend(j, kept, r, before, Edges(j.repoId, kept, r, j.parsed, n - 1), tail,
                  EdgesOf(j.repoId, kept, r, j.parsed[n - 1].calls, |j.parsed[n - 1].calls|), at);
    }
  }

  /** The first symbol that starts on this line of this file. */
  ghost predicate FirstOn(symbols: seq<Symbol>, path: string, start: int, i: int) {
    && 0 <= i < |symbols| && symbols[i].path == path && symbols[i].startLine == start
    && forall k :: 0 <= k < i ==> !(symbols[k].path == path && symbols[k].startLine == start)
  }

  /** The edge says what the call says, under the first symbol on its declaration's line. */
  ghost predicate Traces(j: Job, symbols: seq<Symbol>, e: Edge, c: Call) {
    && e.repoId == j.repoId && e.toName == c.name && e.path == c.path && e.line == c.line
    && e.id == EdgeId(j.repoId, e.from, c.path, c.offset, c.name)
    && exists i :: FirstOn(symbols, c.path, c.fromStart, i) && e.from == symbols[i].id
  }

  predicate Spans(s: Symbol, t: Target) {
    s.path == t.path && s.startLine <= t.line <= s.endLine
  }

  /** s holds the target, and no symbol that does starts later, or with it and ends sooner. */
  ghost predicate InnermostOf(symbols: seq<Symbol>, t: Target, s: Symbol) {
    && s in symbols && Spans(s, t)
    && forall o :: o in symbols && Spans(o, t) ==>
         o.startLine < s.startLine || (o.startLine == s.startLine && o.endLine >= s.endLine)
  }

  /** The edge is resolved exactly when type information sends its call into a symbol, and then
      to the innermost one. */
  ghost predicate Targets(symbols: seq<Symbol>, r: Resolution, e: Edge, c: Call) {
    var key := Key(c.path, c.offset);
    && (e.provenance == Resolved <==> key in r && exists s :: s in symbols && Spans(s, r[key]))
    && (e.provenance == Resolved ==> exists s :: InnermostOf(symbols, r[key], s) && e.to == s.id)
    && (e.provenance == Syntactic ==> e.to == "")
  }

  /** Symbols and the definitions behind them, place for place. */
  ghost predicate Mirrors(repoId: string, kept: seq<Def>, symbols: seq<Symbol>) {
    |symbols| == |kept| && forall i :: 0 <= i < |kept| ==> Mirror(repoId, kept[i], symbols[i])
  }

  predicate Mirror(repoId: string, d: Def, s: Symbol) {
    s.id == DefId(repoId, d) && s.path == d.path && s.startLine == d.startLine && s.endLine == d.endLine
  }

  lemma EdgeTraces(j: Job, kept: seq<Def>, symbols: seq<Symbol>, r: Resolution, c: Call, e: Edge)
    requires Mirrors(j.repoId, kept, symbols) && EdgeOf(j.repoId, kept, r, c, e)
    ensures Traces(j, symbols, e, c)
  {
    OwnerIsFirst(j.repoId, kept, |kept|, c.path, c.fromStart);
    var i :| 0 <= i < |kept| && kept[i].path == c.path && kept[i].startLine == c.fromStart
      && DefId(j.repoId, kept[i]) == OwnerOf(j.repoId, kept, c).value
      && forall k :: 0 <= k < i ==> !(kept[k].path == c.path && kept[k].startLine == c.fromStart);
    assert Mirror(j.repoId, kept[i], symbols[i]);
    forall k | 0 <= k < i ensures !(symbols[k].path == c.path && symbols[k].startLine == c.fromStart) {
      assert Mirror(j.repoId, kept[k], symbols[k]);
    }
    assert FirstOn(symbols, c.path, c.fromStart, i);
  }

  lemma EdgeTargets(repoId: string, kept: seq<Def>, symbols: seq<Symbol>, r: Resolution, c: Call, e: Edge)
    requires Mirrors(repoId, kept, symbols) && EdgeOf(repoId, kept, r, c, e)
    ensures Targets(symbols, r, e, c)
  {
    var key := Key(c.path, c.offset);
    ResolvedExactly(repoId, kept, r, c, OwnerOf(repoId, kept, c).value);
    if key in r {
      var t := r[key];
      forall i | 0 <= i < |kept| ensures Locates(kept[i], t) <==> Spans(symbols[i], t) {
        assert Mirror(repoId, kept[i], symbols[i]);
      }
      TargetMirrors(repoId, kept, symbols, t);
      if e.provenance == Resolved {
        var d :| IsInnermost(kept, t, d) && e.to == DefId(repoId, d);
        var i :| 0 <= i < |kept| && kept[i] == d;
        InnermostMirrors(repoId, kept, symbols, t, i);
      }
    }
  }

  lemma TargetMirrors(repoId: string, kept: seq<Def>, symbols: seq<Symbol>, t: Target)
    requires Mirrors(repoId, kept, symbols)
    ensures (exists d :: d in kept && Locates(d, t)) <==> exists s :: s in symbols && Spans(s, t)
  {
    if d :| d in kept && Locates(d, t) {
      var i :| 0 <= i < |kept| && kept[i] == d;
      assert Mirror(repoId, kept[i], symbols[i]) && symbols[i] in symbols;
    }
    if s :| s in symbols && Spans(s, t) {
      var i :| 0 <= i < |symbols| && symbols[i] == s;
      assert Mirror(repoId, kept[i], symbols[i]) && kept[i] in kept;
    }
  }

  lemma InnermostMirrors(repoId: string, kept: seq<Def>, symbols: seq<Symbol>, t: Target, i: nat)
    requires Mirrors(repoId, kept, symbols) && i < |kept| && IsInnermost(kept, t, kept[i])
    ensures InnermostOf(symbols, t, symbols[i]) && symbols[i].id == DefId(repoId, kept[i])
  {
    assert Mirror(repoId, kept[i], symbols[i]);
    forall o | o in symbols && Spans(o, t)
      ensures o.startLine < symbols[i].startLine
        || (o.startLine == symbols[i].startLine && o.endLine >= symbols[i].endLine)
    {
      var k :| 0 <= k < |symbols| && symbols[k] == o;
      assert Mirror(repoId, kept[k], symbols[k]) && kept[k] in kept && Locates(kept[k], t);
    }
  }

  lemma OwnedHasOwner(j: Job, at: seq<Place>, c: Call)
    requires Places(j, FileIds(j.files, |j.files|), |j.parsed|, at)
    ensures OwnerOf(j.repoId, Kept(FileIds(j.files, |j.files|), j.parsed, |j.parsed|), c).Some? <==> Owned(j, c)
  {
    var ids := FileIds(j.files, |j.files|);
    var kept := Kept(ids, j.parsed, |j.parsed|);
    OwnerIsFirst(j.repoId, kept, |kept|, c.path, c.fromStart);
    FileIdsAre(j.files, |j.files|, c.path);
    if OwnerOf(j.repoId, kept, c).Some? {
      var i :| 0 <= i < |kept| && kept[i].path == c.path && kept[i].startLine == c.fromStart;
      assert at[i] in at && Eligible(j, at[i]);
    }
    if Owned(j, c) {
      var p: Place :| Eligible(j, p) && DefAt(j, p).path == c.path && DefAt(j, p).startLine == c.fromStart;
      assert p in at;
      var i :| 0 <= i < |at| && at[i] == p;
      assert kept[i] == DefAt(j, p);
    }
  }

  lemma SymbolsMirror(j: Job, ids: map<string, string>, kept: seq<Def>)
    ensures Mirrors(j.repoId, kept, SymbolsOf(j, ids, kept))
  {
    forall i | 0 <= i < |kept| ensures Mirror(j.repoId, kept[i], SymbolsOf(j, ids, kept)[i]) {
      assert SymbolsOf(j, ids, kept)[i] == SymbolOf(j, ids, kept[i]);
    }
  }

  /** The edges are the calls made inside a definition that has a symbol: each once, in the order
      of the files and within them, and no other; each says what its call says, comes from the
      first symbol on its declaration's line, and goes where type information sends it. */
  lemma EdgesAreTheOwnedCalls(j: Job, r: Resolution) returns (at: seq<Place>)
    ensures |at| == |Built(j, r).edges| && InOrder(at)
    ensures forall p: Place :: p in at <==> IsCall(j, p) && Owned(j, CallAt(j, p))
    ensures forall m :: 0 <= m < |at| ==>
      && IsCall(j, at[m]) && Traces(j, Built(j, r).symbols, Built(j, r).edges[m], CallAt(j, at[m]))
      && Targets(Built(j, r).symbols, r, Built(j, r).edges[m], CallAt(j, at[m]))
  {
    var ids := FileIds(j.files, |j.files|);
    var kept := Kept(ids, j.parsed, |j.parsed|);
    var symbols, edges := SymbolsOf(j, ids, kept), Edges(j.repoId, kept, r, j.parsed, |j.parsed|);
    var defs := KeptPlaces(j, ids, |j.parsed|);
    at := EdgePlaces(j, kept, r, |j.parsed|);
    SymbolsMirror(j, ids, kept);
    forall p: Place ensures p in at <==> IsCall(j, p) && Owned(j, CallAt(j, p)) {
      if IsCall(j, p) {
        OwnedHasOwner(j, defs, CallAt(j, p));
      }
      assert p in at <==> p.0 < |j.parsed| && HasOwner(j, kept, p);
    }
    forall m | 0 <= m < |at|
      ensures IsCall(j, at[m]) && Traces(j, symbols, edges[m], CallAt(j, at[m]))
        && Targets(symbols, r, edges[m], CallAt(j, at[m]))
    {
      assert CallEdge(j, kept, r, at[m], edges[m]);
      EdgeTraces(j, kept, symbols, r, CallAt(j, at[m]), edges[m]);
      EdgeTargets(j.repoId, kept, symbols, r, CallAt(j, at[m]), edges[m]);
    }
  }

  // ---------- the counters ----------

  /** The places, among the first n, of edges with this label. */
  ghost function With(edges: seq<Edge>, n: nat, p: Provenance): set<nat>
    requires n <= |edges|
  {
    set m: nat | m < n && edges[m].provenance == p
  }

  lemma WithGrows(edges: seq<Edge>, n: nat, p: Provenance)
    requires n < |edges|
    ensures |With(edges, n + 1, p)| == |With(edges, n, p)| + if edges[n].provenance == p then 1 else 0
  {
    var some, more := With(edges, n, p), With(edges, n + 1, p);
    assert n !in some;
    assert more == if edges[n].provenance == p then some + {n} else some by {
      forall m: nat ensures m in more <==> m in some || (m == n && edges[n].provenance == p) {
      }
    }
  }

  lemma {:induction false} LabelledIsSize(edges: seq<Edge>, n: nat, p: Provenance)
    requires n <= |edges|
    ensures Labelled(edges[..n], p) == |With(edges, n, p)|
  {
    if n == 0 {
      assert With(edges, 0, p) == {};
    } else {
      LabelledIsSize(edges, n - 1, p);
      assert edges[..n][..n - 1] == edges[..n - 1];
      WithGrows(edges, n - 1, p);
    }
  }

  /** Each counter is the number of edges with its label; what a parser could not name is counted
      file by file. */
  lemma CountersCount(j: Job, r: Resolution, f: File)
    ensures var g := Built(j, r);
      g.resolved == |With(g.edges, |g.edges|, Resolved)| && g.syntactic == |With(g.edges, |g.edges|, Syntactic)|
    ensures Built(j.(parsed := []), r).unnameable == 0
    ensures Built(j.(parsed := j.parsed + [f]), r).unnameable == Built(j, r).unnameable + f.unnameable
  {
    var edges := Built(j, r).edges;
    assert edges[..|edges|] == edges;
    LabelledIsSize(edges, |edges|, Resolved);
    LabelledIsSize(edges, |edges|, Syntactic);
    UnnameablePrefix(j.parsed, j.parsed + [f], |j.parsed|);
  }

  lemma {:induction false} UnnameablePrefix(a: seq<File>, b: seq<File>, n: nat)
    requires n <= |a| && a <= b
    ensures Unnameable(a, n) == Unnameable(b, n)
  {
    if n > 0 {
      UnnameablePrefix(a, b, n - 1);
    }
  }

  // ---------- the spans ----------

  predicate RowHolds(s: SpanRow, path: string, line: int) {
    s.path == path && s.start <= line <= s.end
  }

  predicate RowMeets(s: SpanRow, path: string, start: int, end: int) {
    s.path == path && s.start <= end && start <= s.end
  }

  /** a starts later, or with b and ends sooner, or takes the same lines under a smaller id. */
  predicate Tighter(a: SpanRow, b: SpanRow) {
    a.start > b.start || (a.start == b.start && (a.end < b.end || (a.end == b.end && TextLess(a.id, b.id))))
  }

  predicate Earlier(a: SpanRow, b: SpanRow) {
    a.start < b.start || (a.start == b.start && (a.end < b.end || (a.end == b.end && TextLess(a.id, b.id))))
  }

  ghost predicate TightestHolder(spans: seq<SpanRow>, path: string, line: int, b: SpanRow) {
    && b in spans && RowHolds(b, path, line)
    && forall s :: s in spans && RowHolds(s, path, line) ==> s == b || Tighter(b, s)
  }

  ghost predicate EarliestMeeting(spans: seq<SpanRow>, path: string, start: int, end: int, b: SpanRow) {
    && b in spans && RowMeets(b, path, start, end)
    && forall s :: s in spans && RowMeets(s, path, start, end) ==> s == b || Earlier(b, s)
  }

  /** Every symbol is cited by one of its file's spans: the tightest that holds its first line;
      failing any, the earliest that meets its lines; failing any, by none. */
  lemma SymbolsAreCited(j: Job, r: Resolution, s: Symbol)
    requires s in Built(j, r).symbols
    ensures
      if exists b :: b in j.spans && RowHolds(b, s.path, s.startLine) then
        exists b :: TightestHolder(j.spans, s.path, s.startLine, b) && s.spanId == b.id
      else if exists b :: b in j.spans && RowMeets(b, s.path, s.startLine, s.endLine) then
        exists b :: EarliestMeeting(j.spans, s.path, s.startLine, s.endLine, b) && s.spanId == b.id
      else s.spanId == ""
  {
    var kept := Kept(FileIds(j.files, |j.files|), j.parsed, |j.parsed|);
    var i :| 0 <= i < |kept| && s == SymbolOf(j, FileIds(j.files, |j.files|), kept[i]);
    LinkIsBest(j.spans, s.path, s.startLine, s.endLine);
  }

  lemma LinkIsBest(spans: seq<SpanRow>, path: string, start: int, end: int)
    ensures var link := SpanLink(SpansAt(spans, |spans|, path), start, end);
      if exists b :: b in spans && RowHolds(b, path, start) then
        exists b :: TightestHolder(spans, path, start, b) && link == b.id
      else if exists b :: b in spans && RowMeets(b, path, start, end) then
        exists b :: EarliestMeeting(spans, path, start, end, b) && link == b.id
      else link == ""
  {
    var cs := SpansAt(spans, |spans|, path);
    SpansAtAre(spans, |spans|, path);
    assert spans[..|spans|] == spans;
    ChoicesAreBest(cs, start, end);
    forall b | b in spans && b.path == path ensures Container(b.id, b.start, b.end) in cs {
      assert b == SpanRow(b.id, path, b.start, b.end);
    }
    var inner, first := Innermost(cs, start), Foremost(cs, start, end);
    if inner.Some? {
      var b := SpanRow(inner.value.id, path, inner.value.start, inner.value.end);
      assert TightestHolder(spans, path, start, b);
    } else if first.Some? {
      var b := SpanRow(first.value.id, path, first.value.start, first.value.end);
      assert EarliestMeeting(spans, path, start, end, b);
    }
  }
}
