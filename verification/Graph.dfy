/** The symbol graph: one edge per call site, upgraded where type information can name it. */
module Graph {
  import opened Common
  import opened Order
  import opened Ids

  // Containment

  datatype Container = Container(id: string, start: int, end: int)

  /** mostSpecific's order: the greatest start, then the smallest end, then the smallest id. */
  predicate Inner(a: Container, b: Container) {
    a.start > b.start || (a.start == b.start && a.end < b.end)
    || (a.start == b.start && a.end == b.end && TextLess(a.id, b.id))
  }

  /** firstOverlapping's order: the smallest start, then end, then id. */
  predicate Sooner(a: Container, b: Container) {
    a.start < b.start || (a.start == b.start && a.end < b.end)
    || (a.start == b.start && a.end == b.end && TextLess(a.id, b.id))
  }

  lemma ContainersAreOrdered(cs: seq<Container>)
    ensures StrictOrder(Inner) && Decides(Inner, cs)
    ensures StrictOrder(Sooner) && Decides(Sooner, cs)
  {
    forall x: Container ensures !Inner(x, x) && !Sooner(x, x) {
      TextLessIrreflexive(x.id);
    }
    forall x: Container, y: Container, z: Container | Inner(x, y) && Inner(y, z) ensures Inner(x, z) {
      if x.start == z.start && x.end == z.end {
        TextLessTransitive(x.id, y.id, z.id);
      }
    }
    forall x: Container, y: Container, z: Container | Sooner(x, y) && Sooner(y, z) ensures Sooner(x, z) {
      if x.start == z.start && x.end == z.end {
        TextLessTransitive(x.id, y.id, z.id);
      }
    }
    forall x: Container, y: Container | x in cs && y in cs
      ensures x == y || Inner(x, y) || Inner(y, x)
      ensures x == y || Sooner(x, y) || Sooner(y, x)
    {
      TextLessTotal(x.id, y.id);
    }
  }

  type Better = (Container, Container) -> bool
  type Fit = Container -> bool

  /** The running best over the first n rows. */
  function Choose(better: Better, fits: Fit, cs: seq<Container>, n: nat): Option<Container>
    requires n <= |cs|
  {
    if n == 0 then None
    else
      var best, c := Choose(better, fits, cs, n - 1), cs[n - 1];
      if !fits(c) then best
      else if best.None? || better(c, best.value) then Some(c)
      else best
  }

  lemma {:induction false} ChooseIsBest(better: Better, fits: Fit, cs: seq<Container>, n: nat)
    requires n <= |cs| && StrictOrder(better) && Decides(better, cs)
    ensures Choose(better, fits, cs, n).None? <==> forall i :: 0 <= i < n ==> !fits(cs[i])
    ensures Choose(better, fits, cs, n).Some? ==>
      var best := Choose(better, fits, cs, n).value;
      && best in cs[..n] && fits(best)
      && forall i :: 0 <= i < n && fits(cs[i]) ==> cs[i] == best || better(best, cs[i])
  {
    if n > 0 {
      ChooseIsBest(better, fits, cs, n - 1);
      assert cs[..n] == cs[..n - 1] + [cs[n - 1]];
    }
  }

  /** The choice is the rows', not their order's. */
  lemma ChooseIgnoresOrder(better: Better, fits: Fit, a: seq<Container>, b: seq<Container>)
    requires StrictOrder(better) && Decides(better, a) && forall c :: c in a <==> c in b
    ensures Choose(better, fits, a, |a|) == Choose(better, fits, b, |b|)
  {
    ChooseIsBest(better, fits, a, |a|);
    ChooseIsBest(better, fits, b, |b|);
    assert a[..|a|] == a && b[..|b|] == b;
    var x, y := Choose(better, fits, a, |a|), Choose(better, fits, b, |b|);
    if x.Some? {
      assert x.value in b;
    }
    if y.Some? {
      assert y.value in a;
    }
  }

  predicate Contains(c: Container, line: int) {
    !(line < c.start || line > c.end)
  }

  predicate Meets(c: Container, start: int, end: int) {
    !(c.end < start || c.start > end)
  }

  function Innermost(cs: seq<Container>, line: int): Option<Container> {
    Choose(Inner, c => Contains(c, line), cs, |cs|)
  }

  function Foremost(cs: seq<Container>, start: int, end: int): Option<Container> {
    Choose(Sooner, c => Meets(c, start, end), cs, |cs|)
  }

  /** Of the containers that fit, none is left when there is no best, and none is better. */
  ghost predicate IsBest(better: Better, fits: Fit, cs: seq<Container>, best: Option<Container>) {
    && (best.None? <==> forall c :: c in cs ==> !fits(c))
    && (best.Some? ==> best.value in cs && fits(best.value))
    && (best.Some? ==> forall c :: c in cs && fits(c) ==> c == best.value || better(best.value, c))
  }

  lemma ChoicesAreBest(cs: seq<Container>, start: int, end: int)
    ensures IsBest(Inner, c => Contains(c, start), cs, Innermost(cs, start))
    ensures IsBest(Sooner, c => Meets(c, start, end), cs, Foremost(cs, start, end))
  {
    ContainersAreOrdered(cs);
    ChooseIsBest(Inner, c => Contains(c, start), cs, |cs|);
    ChooseIsBest(Sooner, c => Meets(c, start, end), cs, |cs|);
    assert cs[..|cs|] == cs;
  }

  method MostSpecific(cs: seq<Container>, line: int) returns (best: Option<Container>)
    ensures best == Innermost(cs, line)
    ensures IsBest(Inner, c => Contains(c, line), cs, best)
  {
    ChoicesAreBest(cs, line, line);
    best := None;
    for i := 0 to |cs|
      invariant best == Choose(Inner, c => Contains(c, line), cs, i)
    {
      if line < cs[i].start || line > cs[i].end {
        continue;
      }
      if best.None? || Inner(cs[i], best.value) {
        best := Some(cs[i]);
      }
    }
  }

  method FirstOverlapping(cs: seq<Container>, start: int, end: int) returns (best: Option<Container>)
    ensures best == Foremost(cs, start, end)
    ensures IsBest(Sooner, c => Meets(c, start, end), cs, best)
  {
    ChoicesAreBest(cs, start, end);
    best := None;
    for i := 0 to |cs|
      invariant best == Choose(Sooner, c => Meets(c, start, end), cs, i)
    {
      if cs[i].end < start || cs[i].start > end {
        continue;
      }
      if best.None? || Sooner(cs[i], best.value) {
        best := Some(cs[i]);
      }
    }
  }

  /** The span a definition is cited by; "" is the null the code writes when there is none. */
  function SpanLink(cs: seq<Container>, start: int, end: int): string {
    if Innermost(cs, start).Some? then Innermost(cs, start).value.id
    else if Foremost(cs, start, end).Some? then Foremost(cs, start, end).value.id
    else ""
  }

  method SpanFor(cs: seq<Container>, start: int, end: int) returns (id: string, found: bool)
    ensures id == SpanLink(cs, start, end)
    ensures found <==> exists c :: c in cs && (Contains(c, start) || Meets(c, start, end))
  {
    var best := MostSpecific(cs, start);
    ContainersAreOrdered(cs);
    ChooseIsBest(Inner, c => Contains(c, start), cs, |cs|);
    ChooseIsBest(Sooner, c => Meets(c, start, end), cs, |cs|);
    if best.None? {
      best := FirstOverlapping(cs, start, end);
    }
    if best.None? {
      return "", false;
    }
    return best.value.id, true;
  }

  /** The link is the id of one span: among those holding the first line, the one ahead of every
      other in the inner order; failing any, among those the range meets, the foremost, which is
      what keeps a definition citable when its comment was stripped; failing any, no span's. */
  lemma SpanLinkIsBest(cs: seq<Container>, start: int, end: int)
    ensures var link := SpanLink(cs, start, end);
      if exists c :: c in cs && Contains(c, start) then
        exists b :: b in cs && b.id == link && Contains(b, start)
          && forall c :: c in cs && Contains(c, start) ==> c == b || Inner(b, c)
      else if exists c :: c in cs && Meets(c, start, end) then
        exists b :: b in cs && b.id == link && Meets(b, start, end)
          && forall c :: c in cs && Meets(c, start, end) ==> c == b || Sooner(b, c)
      else link == ""
  {
    ChoicesAreBest(cs, start, end);
  }

  // The rows

  datatype Def = Def(kind: string, name: string, pkg: string, path: string, startLine: int, endLine: int)
  datatype Call = Call(path: string, name: string, offset: int, line: int, fromStart: int)
  datatype File = File(defs: seq<Def>, calls: seq<Call>, unnameable: nat)
  datatype FileRow = FileRow(id: string, path: string)
  datatype SpanRow = SpanRow(id: string, path: string, start: int, end: int)
  datatype Key = Key(path: string, offset: int)
  datatype Target = Target(path: string, line: int)
  datatype Provenance = Syntactic | Resolved

  datatype Symbol = Symbol(
    id: string, repoId: string, fileId: string, path: string, name: string, pkg: string, kind: string,
    startLine: int, endLine: int, spanId: string)

  datatype Edge = Edge(
    id: string, repoId: string, from: string, to: string, toName: string, provenance: Provenance,
    path: string, line: int)

  datatype Job = Job(repoId: string, parsed: seq<File>, files: seq<FileRow>, spans: seq<SpanRow>)

  datatype Rows = Rows(symbols: seq<Symbol>, edges: seq<Edge>, resolved: nat, syntactic: nat, unnameable: nat)

  function FileIds(files: seq<FileRow>, n: nat): map<string, string>
    requires n <= |files|
  {
    if n == 0 then map[] else FileIds(files, n - 1)[files[n - 1].path := files[n - 1].id]
  }

  function SpansAt(spans: seq<SpanRow>, n: nat, path: string): seq<Container>
    requires n <= |spans|
  {
    if n == 0 then []
    else
      var s := spans[n - 1];
      SpansAt(spans, n - 1, path) + if s.path == path then [Container(s.id, s.start, s.end)] else []
  }

  /** A definition whose file has no row is passed over: its symbol would fail the foreign key. */
  function KeptOf(ids: map<string, string>, defs: seq<Def>, n: nat): seq<Def>
    requires n <= |defs|
  {
    if n == 0 then []
    else KeptOf(ids, defs, n - 1) + if defs[n - 1].path in ids then [defs[n - 1]] else []
  }

  /** Every definition that becomes a symbol, in file order. */
  function Kept(ids: map<string, string>, parsed: seq<File>, n: nat): seq<Def>
    requires n <= |parsed|
  {
    if n == 0 then [] else Kept(ids, parsed, n - 1) + KeptOf(ids, parsed[n - 1].defs, |parsed[n - 1].defs|)
  }

  function DefId(repoId: string, d: Def): (id: string)
    ensures id != ""
  {
    SymbolId(repoId, d.path, d.startLine, d.kind, d.name)
  }

  function SymbolOf(j: Job, ids: map<string, string>, d: Def): Symbol {
    var fileId := if d.path in ids then ids[d.path] else "";
    Symbol(DefId(j.repoId, d), j.repoId, fileId, d.path, d.name, d.pkg, d.kind, d.startLine, d.endLine,
           SpanLink(SpansAt(j.spans, |j.spans|, d.path), d.startLine, d.endLine))
  }

  function SymbolsOf(j: Job, ids: map<string, string>, kept: seq<Def>): seq<Symbol> {
    seq(|kept|, i requires 0 <= i < |kept| => SymbolOf(j, ids, kept[i]))
  }

  function DefsAt(repoId: string, kept: seq<Def>, n: nat, path: string): seq<Container>
    requires n <= |kept|
  {
    if n == 0 then []
    else
      var d := kept[n - 1];
      DefsAt(repoId, kept, n - 1, path) +
      if d.path == path then [Container(DefId(repoId, d), d.startLine, d.endLine)] else []
  }

  /** The first definition starting on a line owns the calls recorded against that line. */
  function Owner(repoId: string, kept: seq<Def>, n: nat, path: string, start: int): Option<string>
    requires n <= |kept|
  {
    if n == 0 then None
    else
      var earlier := Owner(repoId, kept, n - 1, path, start);
      if earlier.None? && kept[n - 1].path == path && kept[n - 1].startLine == start
      then Some(DefId(repoId, kept[n - 1]))
      else earlier
  }

  type Resolution = map<Key, Target>

  /** What type information says a call site reaches, if it says anything in this repository. */
  function Reached(repoId: string, kept: seq<Def>, r: Resolution, c: Call): Option<Container> {
    var key := Key(c.path, c.offset);
    if key in r then Innermost(DefsAt(repoId, kept, |kept|, r[key].path), r[key].line) else None
  }

  function EdgeFor(repoId: string, kept: seq<Def>, r: Resolution, c: Call, from: string): Edge {
    var t := Reached(repoId, kept, r, c);
    Edge(EdgeId(repoId, from, c.path, c.offset, c.name), repoId, from,
         if t.Some? then t.value.id else "", c.name, if t.Some? then Resolved else Syntactic, c.path, c.line)
  }

  function EdgesOf(repoId: string, kept: seq<Def>, r: Resolution, calls: seq<Call>, n: nat): seq<Edge>
    requires n <= |calls|
  {
    if n == 0 then []
    else
      var c := calls[n - 1];
      var owner := Owner(repoId, kept, |kept|, c.path, c.fromStart);
      EdgesOf(repoId, kept, r, calls, n - 1) +
      if owner.Some? then [EdgeFor(repoId, kept, r, c, owner.value)] else []
  }

  function Edges(repoId: string, kept: seq<Def>, r: Resolution, parsed: seq<File>, n: nat): seq<Edge>
    requires n <= |parsed|
  {
    if n == 0 then []
    else
      Edges(repoId, kept, r, parsed, n - 1) + EdgesOf(repoId, kept, r, parsed[n - 1].calls, |parsed[n - 1].calls|)
  }

  function Labelled(edges: seq<Edge>, p: Provenance): nat {
    if edges == [] then 0
    else Labelled(edges[..|edges| - 1], p) + if edges[|edges| - 1].provenance == p then 1 else 0
  }

  function Unnameable(parsed: seq<File>, n: nat): nat
    requires n <= |parsed|
  {
    if n == 0 then 0 else Unnameable(parsed, n - 1) + parsed[n - 1].unnameable
  }

  /** The whole graph of a job under one resolution map. */
  function Built(j: Job, r: Resolution): Rows {
    var ids := FileIds(j.files, |j.files|);
    var kept := Kept(ids, j.parsed, |j.parsed|);
    var edges := Edges(j.repoId, kept, r, j.parsed, |j.parsed|);
    Rows(SymbolsOf(j, ids, kept), edges, Labelled(edges, Resolved), Labelled(edges, Syntactic),
         Unnameable(j.parsed, |j.parsed|))
  }

  // Building them

  type Lists = map<string, seq<Container>>

  function Get(m: Lists, path: string): seq<Container> {
    if path in m then m[path] else []
  }

  function Append(m: Lists, path: string, c: Container): Lists {
    m[path := Get(m, path) + [c]]
  }

  datatype Line = Line(path: string, start: int)

  ghost predicate ListsDefs(repoId: string, kept: seq<Def>, defs: Lists) {
    forall path :: Get(defs, path) == DefsAt(repoId, kept, |kept|, path)
  }

  function Lookup(from: map<Line, string>, path: string, start: int): Option<string> {
    if Line(path, start) in from then Some(from[Line(path, start)]) else None
  }

  ghost predicate NamesOwners(repoId: string, kept: seq<Def>, from: map<Line, string>) {
    forall path, start :: Lookup(from, path, start) == Owner(repoId, kept, |kept|, path, start)
  }

  method GroupSpans(spans: seq<SpanRow>) returns (m: Lists)
    ensures forall path :: Get(m, path) == SpansAt(spans, |spans|, path)
  {
    m := map[];
    for i := 0 to |spans|
      invariant forall path :: Get(m, path) == SpansAt(spans, i, path)
    {
      m := Append(m, spans[i].path, Container(spans[i].id, spans[i].start, spans[i].end));
    }
  }

  lemma {:induction false} OwnerOfPrefix(repoId: string, a: seq<Def>, b: seq<Def>, n: nat, path: string, start: int)
    requires n <= |a| && a <= b
    ensures Owner(repoId, a, n, path, start) == Owner(repoId, b, n, path, start)
    ensures DefsAt(repoId, a, n, path) == DefsAt(repoId, b, n, path)
  {
    if n > 0 {
      OwnerOfPrefix(repoId, a, b, n - 1, path, start);
    }
  }

  lemma ListGrows(repoId: string, kept: seq<Def>, defs: Lists, d: Def)
    requires ListsDefs(repoId, kept, defs)
    ensures ListsDefs(repoId, kept + [d], Append(defs, d.path, Container(DefId(repoId, d), d.startLine, d.endLine)))
  {
    var more := kept + [d];
    forall path ensures DefsAt(repoId, more, |kept|, path) == DefsAt(repoId, kept, |kept|, path) {
      OwnerOfPrefix(repoId, kept, more, |kept|, path, 0);
    }
  }

  lemma OwnersGrow(repoId: string, kept: seq<Def>, from: map<Line, string>, d: Def)
    requires NamesOwners(repoId, kept, from)
    ensures NamesOwners(repoId, kept + [d],
      if Line(d.path, d.startLine) in from then from else from[Line(d.path, d.startLine) := DefId(repoId, d)])
  {
    var more, at := kept + [d], Line(d.path, d.startLine);
    var grown := if at in from then from else from[at := DefId(repoId, d)];
    forall path, start ensures Lookup(grown, path, start) == Owner(repoId, more, |more|, path, start) {
      OwnerOfPrefix(repoId, kept, more, |kept|, path, start);
      assert Lookup(from, path, start) == Owner(repoId, kept, |kept|, path, start);
      assert more[|more| - 1] == d;
    }
  }

  lemma SymbolsGrow(j: Job, ids: map<string, string>, kept: seq<Def>, d: Def)
    ensures SymbolsOf(j, ids, kept + [d]) == SymbolsOf(j, ids, kept) + [SymbolOf(j, ids, d)]
  {
    var more := SymbolsOf(j, ids, kept + [d]);
    assert forall i :: 0 <= i < |kept| ==> (kept + [d])[i] == kept[i] && more[i] == SymbolOf(j, ids, kept[i]);
  }

  /** The indexes a call is looked up in, and the definitions behind them. */
  ghost predicate Indexes(repoId: string, kept: seq<Def>, defs: Lists, from: map<Line, string>) {
    ListsDefs(repoId, kept, defs) && NamesOwners(repoId, kept, from)
  }

  /** One definition: its symbol, its range, and its first line if no other claimed it. */
  method AddDef(j: Job, fileIds: map<string, string>, spans: seq<Container>, d: Def, defs: Lists,
                from: map<Line, string>, ghost kept: seq<Def>)
    returns (symbol: Symbol, defs': Lists, from': map<Line, string>)
    requires d.path in fileIds && Indexes(j.repoId, kept, defs, from)
    requires spans == SpansAt(j.spans, |j.spans|, d.path)
    ensures symbol == SymbolOf(j, fileIds, d) && Indexes(j.repoId, kept + [d], defs', from')
  {
    var id := SymbolId(j.repoId, d.path, d.startLine, d.kind, d.name);
    var spanId, _ := SpanFor(spans, d.startLine, d.endLine);
    symbol := Symbol(id, j.repoId, fileIds[d.path], d.path, d.name, d.pkg, d.kind, d.startLine, d.endLine, spanId);
    ListGrows(j.repoId, kept, defs, d);
    OwnersGrow(j.repoId, kept, from, d);
    defs' := Append(defs, d.path, Container(id, d.startLine, d.endLine));
    from' := from;
    if Line(d.path, d.startLine) !in from {
      from' := from[Line(d.path, d.startLine) := id];
    }
  }

  method AddFile(j: Job, fileIds: map<string, string>, spans: Lists, f: File, symbols: seq<Symbol>, defs: Lists,
                 from: map<Line, string>, ghost kept: seq<Def>)
    returns (symbols': seq<Symbol>, defs': Lists, from': map<Line, string>, ghost kept': seq<Def>)
    requires Indexes(j.repoId, kept, defs, from) && symbols == SymbolsOf(j, fileIds, kept)
    requires forall path :: Get(spans, path) == SpansAt(j.spans, |j.spans|, path)
    ensures kept' == kept + KeptOf(fileIds, f.defs, |f.defs|)
    ensures Indexes(j.repoId, kept', defs', from') && symbols' == SymbolsOf(j, fileIds, kept')
  {
    symbols', defs', from', kept' := symbols, defs, from, kept;
    for k := 0 to |f.defs|
      invariant kept' == kept + KeptOf(fileIds, f.defs, k)
      invariant Indexes(j.repoId, kept', defs', from') && symbols' == SymbolsOf(j, fileIds, kept')
    {
      if f.defs[k].path !in fileIds {
        continue;
      }
      var symbol;
      symbol, defs', from' := AddDef(j, fileIds, Get(spans, f.defs[k].path), f.defs[k], defs', from', kept');
      SymbolsGrow(j, fileIds, kept', f.defs[k]);
      symbols' := symbols' + [symbol];
      kept' := kept' + [f.defs[k]];
    }
  }

  /** The first pass: a symbol per definition, and the two indexes calls are looked up in. */
  method BuildSymbols(j: Job)
    returns (symbols: seq<Symbol>, defs: Lists, from: map<Line, string>, unnameable: nat, ghost kept: seq<Def>)
    ensures var ids := FileIds(j.files, |j.files|);
      kept == Kept(ids, j.parsed, |j.parsed|) && symbols == SymbolsOf(j, ids, kept)
    ensures Indexes(j.repoId, kept, defs, from)
    ensures unnameable == Unnameable(j.parsed, |j.parsed|)
  {
    var fileIds: map<string, string> := map[];
    for i := 0 to |j.files|
      invariant fileIds == FileIds(j.files, i)
    {
      fileIds := fileIds[j.files[i].path := j.files[i].id];
    }
    var spans := GroupSpans(j.spans);
    symbols, defs, from, unnameable, kept := [], map[], map[], 0, [];
    for i := 0 to |j.parsed|
      invariant kept == Kept(fileIds, j.parsed, i) && symbols == SymbolsOf(j, fileIds, kept)
      invariant Indexes(j.repoId, kept, defs, from) && unnameable == Unnameable(j.parsed, i)
    {
      symbols, defs, from, kept := AddFile(j, fileIds, spans, j.parsed[i], symbols, defs, from, kept);
      unnameable := unnameable + j.parsed[i].unnameable;
    }
  }

  lemma LabelledAppends(edges: seq<Edge>, e: Edge, p: Provenance)
    ensures Labelled(edges + [e], p) == Labelled(edges, p) + if e.provenance == p then 1 else 0
  {
    assert (edges + [e])[..|edges|] == edges;
  }

  /** The second pass, one call: an edge, or none for a call nothing owns. */
  method BuildEdge(repoId: string, defs: Lists, from: map<Line, string>, r: Resolution, c: Call, ghost kept: seq<Def>)
    returns (e: Option<Edge>)
    requires Indexes(repoId, kept, defs, from)
    ensures var owner := Owner(repoId, kept, |kept|, c.path, c.fromStart);
      e == if owner.Some? then Some(EdgeFor(repoId, kept, r, c, owner.value)) else None
  {
    assert Lookup(from, c.path, c.fromStart) == Owner(repoId, kept, |kept|, c.path, c.fromStart);
    if Line(c.path, c.fromStart) !in from {
      return None;
    }
    var fromId := from[Line(c.path, c.fromStart)];
    var to, provenance := "", Syntactic;
    if Key(c.path, c.offset) in r {
      var t := r[Key(c.path, c.offset)];
      var best := MostSpecific(Get(defs, t.path), t.line);
      if best.Some? {
        to, provenance := best.value.id, Resolved;
      }
    }
    return Some(Edge(EdgeId(repoId, fromId, c.path, c.offset, c.name), repoId, fromId, to, c.name, provenance,
                     c.path, c.line));
  }

  /** A file's calls. */
  method AddCalls(repoId: string, defs: Lists, from: map<Line, string>, r: Resolution, calls: seq<Call>,
                  edges: seq<Edge>, resolved: nat, syntactic: nat, ghost kept: seq<Def>)
    returns (edges': seq<Edge>, resolved': nat, syntactic': nat)
    requires Indexes(repoId, kept, defs, from)
    requires resolved == Labelled(edges, Resolved) && syntactic == Labelled(edges, Syntactic)
    ensures edges' == edges + EdgesOf(repoId, kept, r, calls, |calls|)
    ensures resolved' == Labelled(edges', Resolved) && syntactic' == Labelled(edges', Syntactic)
  {
    edges', resolved', syntactic' := edges, resolved, syntactic;
    for k := 0 to |calls|
      invariant edges' == edges + EdgesOf(repoId, kept, r, calls, k)
      invariant resolved' == Labelled(edges', Resolved) && syntactic' == Labelled(edges', Syntactic)
    {
      var e := BuildEdge(repoId, defs, from, r, calls[k], kept);
      if e.None? {
        continue;
      }
      LabelledAppends(edges', e.value, Resolved);
      LabelledAppends(edges', e.value, Syntactic);
      if e.value.provenance == Resolved {
        resolved' := resolved' + 1;
      } else {
        syntactic' := syntactic' + 1;
      }
      edges' := edges' + [e.value];
    }
  }

  method BuildGraph(j: Job, r: Resolution) returns (g: Rows)
    ensures g == Built(j, r)
  {
    var symbols, defs, from, unnameable, kept := BuildSymbols(j);
    var edges: seq<Edge>, resolved: nat, syntactic: nat := [], 0, 0;
    for i := 0 to |j.parsed|
      invariant edges == Edges(j.repoId, kept, r, j.parsed, i)
      invariant resolved == Labelled(edges, Resolved) && syntactic == Labelled(edges, Syntactic)
    {
      edges, resolved, syntactic :=
        AddCalls(j.repoId, defs, from, r, j.parsed[i].calls, edges, resolved, syntactic, kept);
    }
    g := Rows(symbols, edges, resolved, syntactic, unnameable);
  }

  // What resolution can and cannot change

  /** The same call site, whatever it is said to reach. */
  predicate SameSite(a: Edge, b: Edge) {
    a.(to := "", provenance := Syntactic) == b.(to := "", provenance := Syntactic)
  }

  lemma {:induction false} SameSitesOf(repoId: string, kept: seq<Def>, r: Resolution, q: Resolution,
                                       calls: seq<Call>, n: nat)
    requires n <= |calls|
    ensures |EdgesOf(repoId, kept, r, calls, n)| == |EdgesOf(repoId, kept, q, calls, n)|
    ensures forall i :: 0 <= i < |EdgesOf(repoId, kept, r, calls, n)| ==>
      SameSite(EdgesOf(repoId, kept, r, calls, n)[i], EdgesOf(repoId, kept, q, calls, n)[i])
  {
    if n > 0 {
      SameSitesOf(repoId, kept, r, q, calls, n - 1);
    }
  }

  lemma {:induction false} SameSites(repoId: string, kept: seq<Def>, r: Resolution, q: Resolution,
                                     parsed: seq<File>, n: nat)
    requires n <= |parsed|
    ensures |Edges(repoId, kept, r, parsed, n)| == |Edges(repoId, kept, q, parsed, n)|
    ensures forall i :: 0 <= i < |Edges(repoId, kept, r, parsed, n)| ==>
      SameSite(Edges(repoId, kept, r, parsed, n)[i], Edges(repoId, kept, q, parsed, n)[i])
  {
    if n > 0 {
      SameSites(repoId, kept, r, q, parsed, n - 1);
      SameSitesOf(repoId, kept, r, q, parsed[n - 1].calls, |parsed[n - 1].calls|);
    }
  }

  /** Under any two resolution maps the symbols are the same and the edges are the same call
      sites in the same order: type information changes targets and labels, nothing else. */
  lemma ResolutionOnlyRelabels(j: Job, r: Resolution, q: Resolution)
    ensures Built(j, r).symbols == Built(j, q).symbols && Built(j, r).unnameable == Built(j, q).unnameable
    ensures |Built(j, r).edges| == |Built(j, q).edges|
    ensures forall i :: 0 <= i < |Built(j, r).edges| ==> SameSite(Built(j, r).edges[i], Built(j, q).edges[i])
    ensures Built(j, r).resolved + Built(j, r).syntactic == |Built(j, r).edges|
  {
    var kept := Kept(FileIds(j.files, |j.files|), j.parsed, |j.parsed|);
    SameSites(j.repoId, kept, r, q, j.parsed, |j.parsed|);
    LabelsCover(Built(j, r).edges);
  }

  lemma {:induction false} LabelsCover(edges: seq<Edge>)
    ensures Labelled(edges, Resolved) + Labelled(edges, Syntactic) == |edges|
  {
    if edges != [] {
      LabelsCover(edges[..|edges| - 1]);
    }
  }

  // What the rows promise each other

  ghost predicate NamesDef(repoId: string, kept: seq<Def>, id: string) {
    exists d :: d in kept && DefId(repoId, d) == id
  }

  lemma {:induction false} OwnerIsFirst(repoId: string, kept: seq<Def>, n: nat, path: string, start: int)
    requires n <= |kept|
    ensures Owner(repoId, kept, n, path, start).None? <==>
      forall i :: 0 <= i < n ==> !(kept[i].path == path && kept[i].startLine == start)
    ensures Owner(repoId, kept, n, path, start).Some? ==>
      exists i :: 0 <= i < n && kept[i].path == path && kept[i].startLine == start
        && DefId(repoId, kept[i]) == Owner(repoId, kept, n, path, start).value
        && forall k :: 0 <= k < i ==> !(kept[k].path == path && kept[k].startLine == start)
  {
    if n > 0 {
      OwnerIsFirst(repoId, kept, n - 1, path, start);
    }
  }

  predicate At(repoId: string, d: Def, path: string, c: Container) {
    d.path == path && c == Container(DefId(repoId, d), d.startLine, d.endLine)
  }

  lemma {:induction false} DefsAtAre(repoId: string, kept: seq<Def>, n: nat, path: string)
    requires n <= |kept|
    ensures forall c :: c in DefsAt(repoId, kept, n, path) <==> exists i :: 0 <= i < n && At(repoId, kept[i], path, c)
  {
    if n > 0 {
      DefsAtAre(repoId, kept, n - 1, path);
      var d := kept[n - 1];
      forall c
        ensures c in DefsAt(repoId, kept, n, path) <==> exists i :: 0 <= i < n && At(repoId, kept[i], path, c)
      {
        if c in DefsAt(repoId, kept, n, path) && c !in DefsAt(repoId, kept, n - 1, path) {
          assert At(repoId, d, path, c);
        }
      }
    }
  }

  /** d holds the target and no definition that does is further in. */
  ghost predicate IsInnermost(kept: seq<Def>, t: Target, d: Def) {
    && d in kept && Locates(d, t)
    && forall o :: o in kept && Locates(o, t) ==>
         o.startLine < d.startLine || (o.startLine == d.startLine && o.endLine >= d.endLine)
  }

  lemma TargetIsInnermost(repoId: string, kept: seq<Def>, t: Target)
    ensures var best := Innermost(DefsAt(repoId, kept, |kept|, t.path), t.line);
      && (best.Some? <==> exists d :: d in kept && Locates(d, t))
      && (best.Some? ==> exists d :: IsInnermost(kept, t, d) && best.value.id == DefId(repoId, d))
  {
    var cs := DefsAt(repoId, kept, |kept|, t.path);
    DefsAtAre(repoId, kept, |kept|, t.path);
    ContainersAreOrdered(cs);
    ChooseIsBest(Inner, c => Contains(c, t.line), cs, |cs|);
    assert cs[..|cs|] == cs;
    forall o | o in kept && Locates(o, t)
      ensures exists i :: 0 <= i < |cs| && cs[i] == Container(DefId(repoId, o), o.startLine, o.endLine)
    {
      var i :| 0 <= i < |kept| && kept[i] == o;
      assert At(repoId, kept[i], t.path, Container(DefId(repoId, o), o.startLine, o.endLine));
      assert Container(DefId(repoId, o), o.startLine, o.endLine) in cs;
    }
    var best := Innermost(cs, t.line);
    if best.Some? {
      var i :| 0 <= i < |kept| && At(repoId, kept[i], t.path, best.value);
      assert IsInnermost(kept, t, kept[i]);
    }
  }

  /** A call is resolved exactly when type information sends it to a line that some definition
      of this repository holds, and its target is the innermost of those. */
  lemma ResolvedExactly(repoId: string, kept: seq<Def>, r: Resolution, c: Call, from: string)
    ensures var e, key := EdgeFor(repoId, kept, r, c, from), Key(c.path, c.offset);
      && (e.to != "" <==> e.provenance == Resolved)
      && (e.provenance == Resolved <==> key in r && exists d :: d in kept && Locates(d, r[key]))
      && (e.provenance == Resolved ==> exists d :: IsInnermost(kept, r[key], d) && e.to == DefId(repoId, d))
  {
    var key := Key(c.path, c.offset);
    if key in r {
      TargetIsInnermost(repoId, kept, r[key]);
    }
  }

  predicate Locates(d: Def, t: Target) {
    d.path == t.path && d.startLine <= t.line <= d.endLine
  }

  /** What the schema and PutGraph ask of one edge. */
  ghost predicate Sound(repoId: string, kept: seq<Def>, e: Edge) {
    && e.repoId == repoId
    && (e.to != "" <==> e.provenance == Resolved)
    && NamesDef(repoId, kept, e.from)
    && (e.to != "" ==> NamesDef(repoId, kept, e.to))
  }

  lemma EdgeIsSound(repoId: string, kept: seq<Def>, r: Resolution, c: Call)
    requires Owner(repoId, kept, |kept|, c.path, c.fromStart).Some?
    ensures Sound(repoId, kept, EdgeFor(repoId, kept, r, c, Owner(repoId, kept, |kept|, c.path, c.fromStart).value))
  {
    var from := Owner(repoId, kept, |kept|, c.path, c.fromStart).value;
    OwnerIsFirst(repoId, kept, |kept|, c.path, c.fromStart);
    ResolvedExactly(repoId, kept, r, c, from);
    var i :| 0 <= i < |kept| && DefId(repoId, kept[i]) == from;
    assert kept[i] in kept;
  }

  lemma {:induction false} EdgesOfAreSound(repoId: string, kept: seq<Def>, r: Resolution, calls: seq<Call>, n: nat)
    requires n <= |calls|
    ensures forall e :: e in EdgesOf(repoId, kept, r, calls, n) ==> Sound(repoId, kept, e)
  {
    if n > 0 {
      EdgesOfAreSound(repoId, kept, r, calls, n - 1);
      if Owner(repoId, kept, |kept|, calls[n - 1].path, calls[n - 1].fromStart).Some? {
        EdgeIsSound(repoId, kept, r, calls[n - 1]);
      }
    }
  }

  lemma {:induction false} EdgesAreSound(repoId: string, kept: seq<Def>, r: Resolution, parsed: seq<File>, n: nat)
    requires n <= |parsed|
    ensures forall e :: e in Edges(repoId, kept, r, parsed, n) ==> Sound(repoId, kept, e)
  {
    if n > 0 {
      EdgesAreSound(repoId, kept, r, parsed, n - 1);
      EdgesOfAreSound(repoId, kept, r, parsed[n - 1].calls, |parsed[n - 1].calls|);
    }
  }

  datatype PutError = SymbolElsewhere(symbol: Symbol) | EdgeElsewhere(edge: Edge) | TargetMismatch(edge: Edge)

  ghost predicate Acceptable(repoId: string, symbols: seq<Symbol>, edges: seq<Edge>) {
    && (forall s :: s in symbols ==> s.repoId == repoId)
    && (forall e :: e in edges ==> e.repoId == repoId && (e.to != "" <==> e.provenance == Resolved))
  }

  /** The refusals PutGraph makes before it writes anything. */
  method CheckGraph(repoId: string, symbols: seq<Symbol>, edges: seq<Edge>) returns (err: Option<PutError>)
    ensures err.None? <==> Acceptable(repoId, symbols, edges)
    ensures err.Some? ==>
      match err.value
      case SymbolElsewhere(s) => s in symbols && s.repoId != repoId
      case EdgeElsewhere(e) => e in edges && e.repoId != repoId
      case TargetMismatch(e) => e in edges && (e.to != "") != (e.provenance == Resolved)
  {
    for i := 0 to |symbols|
      invariant forall k :: 0 <= k < i ==> symbols[k].repoId == repoId
    {
      if symbols[i].repoId != repoId {
        return Some(SymbolElsewhere(symbols[i]));
      }
    }
    for i := 0 to |edges|
      invariant forall k :: 0 <= k < i ==>
        edges[k].repoId == repoId && (edges[k].to != "" <==> edges[k].provenance == Resolved)
    {
      if edges[i].repoId != repoId {
        return Some(EdgeElsewhere(edges[i]));
      }
      if (edges[i].to != "") != (edges[i].provenance == Resolved) {
        return Some(TargetMismatch(edges[i]));
      }
    }
    return None;
  }

  ghost predicate HasSymbol(symbols: seq<Symbol>, id: string) {
    exists i :: 0 <= i < |symbols| && symbols[i].id == id
  }

  lemma SoundEdgesAreAcceptable(j: Job, ids: map<string, string>, kept: seq<Def>, edges: seq<Edge>)
    requires forall e :: e in edges ==> Sound(j.repoId, kept, e)
    ensures Acceptable(j.repoId, SymbolsOf(j, ids, kept), edges)
    ensures forall e :: e in edges ==>
      HasSymbol(SymbolsOf(j, ids, kept), e.from) && (e.to != "" ==> HasSymbol(SymbolsOf(j, ids, kept), e.to))
  {
    forall e | e in edges
      ensures HasSymbol(SymbolsOf(j, ids, kept), e.from) && (e.to != "" ==> HasSymbol(SymbolsOf(j, ids, kept), e.to))
    {
      DefIsASymbol(j, ids, kept, e.from);
      if e.to != "" {
        DefIsASymbol(j, ids, kept, e.to);
      }
    }
  }

  ghost predicate HasFile(files: seq<FileRow>, s: Symbol) {
    exists f :: f in files && f.path == s.path && f.id == s.fileId
  }

  lemma SymbolsHaveFiles(j: Job, kept: seq<Def>)
    requires forall d :: d in kept ==> d.path in FileIds(j.files, |j.files|)
    ensures forall s :: s in SymbolsOf(j, FileIds(j.files, |j.files|), kept) ==> HasFile(j.files, s)
  {
    var ids := FileIds(j.files, |j.files|);
    forall s | s in SymbolsOf(j, ids, kept) ensures HasFile(j.files, s) {
      var i :| 0 <= i < |kept| && s == SymbolOf(j, ids, kept[i]);
      assert kept[i] in kept;
      FileIdsAreRows(j.files, |j.files|, s.path);
    }
  }

  /** Whatever the type-checker answered, PutGraph takes the rows: every one belongs to this
      repository, a target is set exactly on the resolved edges, and both ends of every edge
      are symbols of the same graph, each with a file row. */
  lemma BuiltGraphIsAccepted(j: Job, r: Resolution)
    ensures var g := Built(j, r);
      && Acceptable(j.repoId, g.symbols, g.edges)
      && (forall e :: e in g.edges ==> HasSymbol(g.symbols, e.from) && (e.to != "" ==> HasSymbol(g.symbols, e.to)))
      && (forall s :: s in g.symbols ==> HasFile(j.files, s))
  {
    var ids := FileIds(j.files, |j.files|);
    var kept := Kept(ids, j.parsed, |j.parsed|);
    EdgesAreSound(j.repoId, kept, r, j.parsed, |j.parsed|);
    SoundEdgesAreAcceptable(j, ids, kept, Built(j, r).edges);
    KeptHaveFiles(ids, j.parsed, |j.parsed|);
    SymbolsHaveFiles(j, kept);
  }

  lemma DefIsASymbol(j: Job, ids: map<string, string>, kept: seq<Def>, id: string)
    requires NamesDef(j.repoId, kept, id)
    ensures HasSymbol(SymbolsOf(j, ids, kept), id)
  {
    var d :| d in kept && DefId(j.repoId, d) == id;
    var i :| 0 <= i < |kept| && kept[i] == d;
    assert SymbolsOf(j, ids, kept)[i].id == id;
  }

  lemma {:induction false} FileIdsAreRows(files: seq<FileRow>, n: nat, path: string)
    requires n <= |files|
    ensures path in FileIds(files, n) ==> exists f :: f in files && f.path == path && f.id == FileIds(files, n)[path]
  {
    if n > 0 {
      FileIdsAreRows(files, n - 1, path);
    }
  }

  lemma {:induction false} KeptOfHaveFiles(ids: map<string, string>, defs: seq<Def>, n: nat)
    requires n <= |defs|
    ensures forall d :: d in KeptOf(ids, defs, n) <==> d in defs[..n] && d.path in ids
  {
    if n > 0 {
      KeptOfHaveFiles(ids, defs, n - 1);
      assert defs[..n] == defs[..n - 1] + [defs[n - 1]];
    }
  }

  lemma {:induction false} KeptHaveFiles(ids: map<string, string>, parsed: seq<File>, n: nat)
    requires n <= |parsed|
    ensures forall d :: d in Kept(ids, parsed, n) ==> d.path in ids
  {
    if n > 0 {
      KeptHaveFiles(ids, parsed, n - 1);
      KeptOfHaveFiles(ids, parsed[n - 1].defs, |parsed[n - 1].defs|);
    }
  }

  // What the ids keep apart

  /** Every call of the job, in file order. */
  function Calls(parsed: seq<File>, n: nat): seq<Call>
    requires n <= |parsed|
  {
    if n == 0 then [] else Calls(parsed, n - 1) + parsed[n - 1].calls
  }

  /** The edge is this call's, under the definition that owns it. */
  ghost predicate Sited(repoId: string, kept: seq<Def>, r: Resolution, c: Call, e: Edge) {
    var owner := Owner(repoId, kept, |kept|, c.path, c.fromStart);
    owner.Some? && e == EdgeFor(repoId, kept, r, c, owner.value)
  }

  lemma {:induction false} EdgesOfAppend(repoId: string, kept: seq<Def>, r: Resolution, a: seq<Call>, b: seq<Call>,
                                         n: nat)
    requires n <= |b|
    ensures EdgesOf(repoId, kept, r, a + b, |a| + n) ==
      EdgesOf(repoId, kept, r, a, |a|) + EdgesOf(repoId, kept, r, b, n)
  {
    if n > 0 {
      EdgesOfAppend(repoId, kept, r, a, b, n - 1);
    } else {
      EdgesOfPrefix(repoId, kept, r, a, a + b, |a|);
    }
  }

  lemma {:induction false} EdgesOfPrefix(repoId: string, kept: seq<Def>, r: Resolution, a: seq<Call>, b: seq<Call>,
                                         n: nat)
    requires n <= |a| && a <= b
    ensures EdgesOf(repoId, kept, r, a, n) == EdgesOf(repoId, kept, r, b, n)
  {
    if n > 0 {
      EdgesOfPrefix(repoId, kept, r, a, b, n - 1);
    }
  }

  lemma {:induction false} EdgesAreOfCalls(repoId: string, kept: seq<Def>, r: Resolution, parsed: seq<File>, n: nat)
    requires n <= |parsed|
    ensures Edges(repoId, kept, r, parsed, n) == EdgesOf(repoId, kept, r, Calls(parsed, n), |Calls(parsed, n)|)
  {
    if n > 0 {
      EdgesAreOfCalls(repoId, kept, r, parsed, n - 1);
      EdgesOfAppend(repoId, kept, r, Calls(parsed, n - 1), parsed[n - 1].calls, |parsed[n - 1].calls|);
    }
  }

  lemma {:induction false} EdgesOfAreSited(repoId: string, kept: seq<Def>, r: Resolution, calls: seq<Call>, n: nat)
    requires n <= |calls|
    ensures forall e :: e in EdgesOf(repoId, kept, r, calls, n) ==>
      exists i :: 0 <= i < n && Sited(repoId, kept, r, calls[i], e)
  {
    if n > 0 {
      EdgesOfAreSited(repoId, kept, r, calls, n - 1);
      forall e | e in EdgesOf(repoId, kept, r, calls, n)
        ensures exists i :: 0 <= i < n && Sited(repoId, kept, r, calls[i], e)
      {
        if e !in EdgesOf(repoId, kept, r, calls, n - 1) {
          assert Sited(repoId, kept, r, calls[n - 1], e);
        }
      }
    }
  }

  predicate NulFreeCall(c: Call) {
    NulFree(c.path) && NulFree(c.name)
  }

  ghost predicate NulFreeCalls(repoId: string, calls: seq<Call>) {
    NulFree(repoId) && forall c :: c in calls ==> NulFreeCall(c)
  }

  /** An owner is a symbol id, so it is hexadecimal and has no NUL whatever it was hashed from. */
  lemma OwnerIsNulFree(repoId: string, kept: seq<Def>, path: string, start: int)
    ensures var owner := Owner(repoId, kept, |kept|, path, start); owner.Some? ==> NulFree(owner.value)
  {
    OwnerIsFirst(repoId, kept, |kept|, path, start);
    forall d: Def ensures NulFree(DefId(repoId, d)) {
      HexIsNulFree(Terminated([repoId, d.path, Itoa(d.startLine), d.kind, d.name]));
    }
  }

  lemma SitesAreIdentified(repoId: string, kept: seq<Def>, r: Resolution, c: Call, c': Call, e: Edge, e': Edge)
    requires Sited(repoId, kept, r, c, e) && Sited(repoId, kept, r, c', e')
    requires NulFree(repoId) && NulFreeCall(c) && NulFreeCall(c')
    ensures e.id == e'.id <==> SameKey(c, c', e, e')
  {
    OwnerIsNulFree(repoId, kept, c.path, c.fromStart);
    OwnerIsNulFree(repoId, kept, c'.path, c'.fromStart);
    EdgeIdsIdentify(repoId, e.from, c.path, c.offset, c.name, repoId, e'.from, c'.path, c'.offset, c'.name);
  }

  predicate SameKey(c: Call, c': Call, e: Edge, e': Edge) {
    e.from == e'.from && c.path == c'.path && c.offset == c'.offset && c.name == c'.name
  }

  /** The edges are two calls' of the list, with one id exactly when they agree on the key. */
  ghost predicate Identified(repoId: string, kept: seq<Def>, r: Resolution, calls: seq<Call>, e: Edge, e': Edge) {
    exists i, k :: 0 <= i < |calls| && 0 <= k < |calls|
      && Sited(repoId, kept, r, calls[i], e) && Sited(repoId, kept, r, calls[k], e')
      && (e.id == e'.id <==> SameKey(calls[i], calls[k], e, e'))
  }

  lemma EdgesOfAreIdentified(repoId: string, kept: seq<Def>, r: Resolution, calls: seq<Call>, e: Edge, e': Edge)
    requires NulFreeCalls(repoId, calls)
    requires e in EdgesOf(repoId, kept, r, calls, |calls|) && e' in EdgesOf(repoId, kept, r, calls, |calls|)
    ensures Identified(repoId, kept, r, calls, e, e')
    ensures e.id == e'.id ==> e.(line := e'.line) == e'
  {
    EdgesOfAreSited(repoId, kept, r, calls, |calls|);
    var i :| 0 <= i < |calls| && Sited(repoId, kept, r, calls[i], e);
    var k :| 0 <= k < |calls| && Sited(repoId, kept, r, calls[k], e');
    assert calls[i] in calls && calls[k] in calls;
    SitesAreIdentified(repoId, kept, r, calls[i], calls[k], e, e');
  }

  /** Every edge of a built graph is some call's, and two of them share an id exactly when they
      share their tail and their calls' path, offset and name; they then share their target too,
      whatever the type-checker answered. */
  lemma BuiltEdgesAreIdentified(j: Job, r: Resolution, e: Edge, e': Edge)
    requires e in Built(j, r).edges && e' in Built(j, r).edges
    requires NulFreeCalls(j.repoId, Calls(j.parsed, |j.parsed|))
    ensures Identified(j.repoId, Kept(FileIds(j.files, |j.files|), j.parsed, |j.parsed|), r,
                       Calls(j.parsed, |j.parsed|), e, e')
    ensures e.id == e'.id ==> e.(line := e'.line) == e'
  {
    var kept := Kept(FileIds(j.files, |j.files|), j.parsed, |j.parsed|);
    EdgesAreOfCalls(j.repoId, kept, r, j.parsed, |j.parsed|);
    EdgesOfAreIdentified(j.repoId, kept, r, Calls(j.parsed, |j.parsed|), e, e');
  }

  /** No two calls at one offset of one file. */
  ghost predicate Apart(calls: seq<Call>) {
    forall i, k :: 0 <= i < k < |calls| ==> calls[i].path != calls[k].path || calls[i].offset != calls[k].offset
  }

  ghost predicate UniqueIds(edges: seq<Edge>) {
    forall i, k :: 0 <= i < k < |edges| ==> edges[i].id != edges[k].id
  }

  lemma {:induction false} EdgesOfAreUnique(repoId: string, kept: seq<Def>, r: Resolution, calls: seq<Call>, n: nat)
    requires n <= |calls| && NulFreeCalls(repoId, calls) && Apart(calls)
    ensures UniqueIds(EdgesOf(repoId, kept, r, calls, n))
  {
    if n > 0 {
      EdgesOfAreUnique(repoId, kept, r, calls, n - 1);
      EdgesOfAreSited(repoId, kept, r, calls, n - 1);
      var before, c := EdgesOf(repoId, kept, r, calls, n - 1), calls[n - 1];
      var owner := Owner(repoId, kept, |kept|, c.path, c.fromStart);
      if owner.Some? {
        var e := EdgeFor(repoId, kept, r, c, owner.value);
        forall b | b in before ensures b.id != e.id {
          var i :| 0 <= i < n - 1 && Sited(repoId, kept, r, calls[i], b);
          assert calls[i] in calls && c in calls;
          SitesAreIdentified(repoId, kept, r, calls[i], c, b, e);
        }
        assert EdgesOf(repoId, kept, r, calls, n) == before + [e];
      }
    }
  }

  /** Keying by offset loses no call site: when no two calls stand at one offset of one file, no
      two edges have one id, however many calls share a line. */
  lemma NoCallSiteIsLost(j: Job, r: Resolution)
    requires NulFreeCalls(j.repoId, Calls(j.parsed, |j.parsed|)) && Apart(Calls(j.parsed, |j.parsed|))
    ensures UniqueIds(Built(j, r).edges)
  {
    var kept, calls := Kept(FileIds(j.files, |j.files|), j.parsed, |j.parsed|), Calls(j.parsed, |j.parsed|);
    EdgesAreOfCalls(j.repoId, kept, r, j.parsed, |j.parsed|);
    EdgesOfAreUnique(j.repoId, kept, r, calls, |calls|);
  }

  // What the order of the input rows does not change

  lemma {:induction false} SpansAtAre(spans: seq<SpanRow>, n: nat, path: string)
    requires n <= |spans|
    ensures forall c :: c in SpansAt(spans, n, path) <==> SpanRow(c.id, path, c.start, c.end) in spans[..n]
  {
    if n > 0 {
      SpansAtAre(spans, n - 1, path);
      assert spans[..n] == spans[..n - 1] + [spans[n - 1]];
    }
  }

  /** A definition's span is the same whatever order the span rows came in. */
  lemma SpanLinkIgnoresRowOrder(a: seq<SpanRow>, b: seq<SpanRow>, path: string, start: int, end: int)
    requires forall s :: s in a <==> s in b
    ensures SpanLink(SpansAt(a, |a|, path), start, end) == SpanLink(SpansAt(b, |b|, path), start, end)
  {
    SpansAtAre(a, |a|, path);
    SpansAtAre(b, |b|, path);
    assert a[..|a|] == a && b[..|b|] == b;
    var x, y := SpansAt(a, |a|, path), SpansAt(b, |b|, path);
    ContainersAreOrdered(x);
    ChooseIgnoresOrder(Inner, c => Contains(c, start), x, y);
    ChooseIgnoresOrder(Sooner, c => Meets(c, start, end), x, y);
  }

  /** A call's target is the same whatever order the definitions were parsed in. */
  lemma TargetIgnoresDefOrder(repoId: string, a: seq<Def>, b: seq<Def>, r: Resolution, c: Call)
    requires forall d :: d in a <==> d in b
    ensures Reached(repoId, a, r, c) == Reached(repoId, b, r, c)
  {
    var key := Key(c.path, c.offset);
    if key in r {
      var t := r[key];
      var x, y := DefsAt(repoId, a, |a|, t.path), DefsAt(repoId, b, |b|, t.path);
      SameDefsAt(repoId, a, b, t.path);
      SameDefsAt(repoId, b, a, t.path);
      ContainersAreOrdered(x);
      ChooseIgnoresOrder(Inner, c => Contains(c, t.line), x, y);
    }
  }

  lemma SameDefsAt(repoId: string, a: seq<Def>, b: seq<Def>, path: string)
    requires forall d :: d in a ==> d in b
    ensures forall c :: c in DefsAt(repoId, a, |a|, path) ==> c in DefsAt(repoId, b, |b|, path)
  {
    DefsAtAre(repoId, a, |a|, path);
    DefsAtAre(repoId, b, |b|, path);
    forall c | c in DefsAt(repoId, a, |a|, path) ensures c in DefsAt(repoId, b, |b|, path) {
      var i :| 0 <= i < |a| && At(repoId, a[i], path, c);
      assert a[i] in b;
      var k :| 0 <= k < |b| && b[k] == a[i];
      assert At(repoId, b[k], path, c);
    }
  }
}
