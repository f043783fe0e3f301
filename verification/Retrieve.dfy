/** One retrieval, and the extractive answer assembled from it. */
module Retrieve {
  import opened Common
  import opened Fuse
  import opened Ids
  import opened Order
  import Cite

  datatype Span = Span(
    id: string, path: string, startLine: nat, endLine: nat, kind: string, symbol: string, text: string)

  /** A row of one arm: a span and that arm's own score for it. */
  datatype Row = Row(span: Span, score: real)

  datatype Mode = ModeVector | ModeLexical | ModeHybrid | ModeUnknown

  datatype Retriever = Retriever(mode: Mode, fusion: Params, candidates: int)

  predicate Accepts(r: Retriever, limit: int) {
    !r.mode.ModeUnknown? && Fuse.Valid(r.fusion) && r.candidates >= 1 && limit >= 1
  }

  /** What an arm answered; Down also stands for a query that could not be embedded. */
  datatype Arm = Down | Rows(rows: seq<Row>)

  datatype Result = Result(
    hits: seq<Fused>, spans: map<string, Span>, topScore: Option<real>, vectorRan: bool, mode: Mode)

  datatype Outcome = Rejected | Failed(result: Result) | Found(result: Result)

  function HitsOf(rows: seq<Row>): seq<Hit> {
    seq(|rows|, i requires 0 <= i < |rows| =>
      Hit(rows[i].span.id, rows[i].span.path, rows[i].span.startLine, rows[i].score))
  }

  function HitIds(hits: seq<Fused>): set<string> {
    set h | h in hits :: h.spanId
  }

  /** The last of the first n rows that carries id: later rows overwrite earlier ones. */
  function LastRow(rows: seq<Row>, id: string, n: nat): Option<Span>
    requires n <= |rows|
  {
    if n == 0 then None else if rows[n - 1].span.id == id then Some(rows[n - 1].span) else LastRow(rows, id, n - 1)
  }

  predicate NoneAfter(rows: seq<Row>, id: string, i: nat, n: nat)
    requires n <= |rows|
  {
    forall j :: i < j < n ==> rows[j].span.id != id
  }

  lemma {:induction false} LastRowIsARow(rows: seq<Row>, id: string, n: nat)
    requires n <= |rows|
    ensures LastRow(rows, id, n).Some? <==> exists i :: 0 <= i < n && rows[i].span.id == id
    ensures LastRow(rows, id, n).Some? ==> LastRow(rows, id, n).value.id == id
    ensures LastRow(rows, id, n).Some? ==>
      exists i :: 0 <= i < n && rows[i].span == LastRow(rows, id, n).value && NoneAfter(rows, id, i, n)
  {
    if n > 0 {
      LastRowIsARow(rows, id, n - 1);
      if rows[n - 1].span.id == id {
        assert NoneAfter(rows, id, n - 1, n);
      } else if LastRow(rows, id, n - 1).Some? {
        var i: nat :| i < n - 1 && rows[i].span == LastRow(rows, id, n - 1).value && NoneAfter(rows, id, i, n - 1);
        assert NoneAfter(rows, id, i, n);
      }
    }
  }

  /** The rows behind the wanted hits, from the arms in order, and only those. */
  method SpansOf(hits: seq<Fused>, rows: seq<Row>) returns (out: map<string, Span>)
    ensures forall id :: id in out <==> id in HitIds(hits) && LastRow(rows, id, |rows|).Some?
    ensures forall id :: id in out ==> LastRow(rows, id, |rows|) == Some(out[id])
  {
    var want := set h | h in hits :: h.spanId;
    out := map[];
    for i := 0 to |rows|
      invariant forall id :: id in out <==> id in want && LastRow(rows, id, i).Some?
      invariant forall id :: id in out ==> LastRow(rows, id, i) == Some(out[id])
    {
      if rows[i].span.id in want {
        out := out[rows[i].span.id := rows[i].span];
      }
    }
  }

  /** What the arms a mode runs were asked for. */
  function VectorRows(r: Retriever, vector: Arm): seq<Row> {
    if r.mode.ModeLexical? || vector.Down? then [] else vector.rows
  }

  function LexicalRows(r: Retriever, lexical: Arm): seq<Row> {
    if r.mode.ModeVector? || lexical.Down? then [] else lexical.rows
  }

  function Empty(r: Retriever, top: Option<real>): Result {
    Result([], map[], top, !r.mode.ModeLexical?, r.mode)
  }

  function TopScore(rows: seq<Row>): Option<real> {
    if rows == [] then None else Some(rows[0].score)
  }

  /** Fusion over the full depth, trimmed afterwards. */
  ghost predicate Trimmed(r: Retriever, limit: int, v: seq<Row>, l: seq<Row>, hits: seq<Fused>)
    requires Accepts(r, limit)
  {
    exists full :: Ranks(Accumulated(r.fusion, HitsOf(v), HitsOf(l)), full) && hits == full[..Min(limit, |full|)]
  }

  /** Every hit's span travels, and no other. */
  ghost predicate Carried(hits: seq<Fused>, rows: seq<Row>, spans: map<string, Span>) {
    && spans.Keys == HitIds(hits)
    && forall id :: id in spans ==> LastRow(rows, id, |rows|) == Some(spans[id]) && spans[id].id == id
  }

  ghost predicate Retrieved(r: Retriever, limit: int, v: seq<Row>, l: seq<Row>, res: Result)
    requires Accepts(r, limit)
  {
    && Trimmed(r, limit, v, l, res.hits)
    && Carried(res.hits, v + l, res.spans)
    && res.topScore == TopScore(v) && res.vectorRan == !r.mode.ModeLexical? && res.mode == r.mode
  }

  lemma HitsHaveRows(p: Params, v: seq<Row>, l: seq<Row>, full: seq<Fused>, id: string)
    requires p.k >= 0 && Ranks(Accumulated(p, HitsOf(v), HitsOf(l)), full) && id in HitIds(full)
    ensures LastRow(v + l, id, |v + l|).Some? && LastRow(v + l, id, |v + l|).value.id == id
  {
    LastRowIsARow(v + l, id, |v + l|);
    AccumulatedKeys(p, HitsOf(v), HitsOf(l), |l|, id);
    if i :| 0 <= i < |v| && HitsOf(v)[i].spanId == id {
      assert (v + l)[i].span.id == id;
    } else {
      var i :| 0 <= i < |l| && HitsOf(l)[i].spanId == id;
      assert (v + l)[|v| + i].span.id == id;
    }
  }

  /** The tail of a search, once both arms have answered. */
  method FuseAndTrim(r: Retriever, limit: int, v: seq<Row>, l: seq<Row>)
    returns (hits: seq<Fused>, spans: map<string, Span>)
    requires Accepts(r, limit)
    ensures Trimmed(r, limit, v, l, hits) && Carried(hits, v + l, spans)
  {
    var full := Fuse.Fuse(r.fusion, HitsOf(v), HitsOf(l));
    hits := full;
    if |hits| > limit {
      hits := hits[..limit];
    }
    assert hits == full[..Min(limit, |full|)];
    spans := SpansOf(hits, v + l);
    forall id | id in HitIds(hits) ensures id in spans && spans[id].id == id {
      HitsHaveRows(r.fusion, v, l, full, id);
    }
  }

  method Search(r: Retriever, limit: int, vector: Arm, lexical: Arm) returns (out: Outcome)
    ensures out.Rejected? <==>
      || r.mode.ModeUnknown? || r.candidates < 1 || limit < 1
      || r.fusion.k < 0 || r.fusion.wVector < 0.0 || r.fusion.wLexical < 0.0
      || (r.fusion.wVector == 0.0 && r.fusion.wLexical == 0.0)
    ensures out.Rejected? <==> !Accepts(r, limit)
    ensures Accepts(r, limit) ==>
      if !r.mode.ModeLexical? && vector.Down? then out == Failed(Empty(r, None))
      else if !r.mode.ModeVector? && lexical.Down? then out == Failed(Empty(r, TopScore(VectorRows(r, vector))))
      else out.Found? && Retrieved(r, limit, VectorRows(r, vector), LexicalRows(r, lexical), out.result)
  {
    if !Accepts(r, limit) {
      return Rejected;
    }
    var res := Result([], map[], None, !r.mode.ModeLexical?, r.mode);
    var v: seq<Row>, l: seq<Row> := [], [];
    if res.vectorRan {
      if vector.Down? {
        return Failed(res);
      }
      v := vector.rows;
      if |v| > 0 {
        res := res.(topScore := Some(v[0].score));
      }
    }
    if !r.mode.ModeVector? {
      if lexical.Down? {
        return Failed(res);
      }
      l := lexical.rows;
    }
    var hits, spans := FuseAndTrim(r, limit, v, l);
    out := Found(res.(hits := hits, spans := spans));
  }

  // What was found

  /** What a mode consults, and what a failure still says: the arms that ran, the vector arm's
      best score if it had come to one, and nothing found. */
  lemma ModesConsult(r: Retriever, vector: Arm, lexical: Arm)
    ensures VectorRows(r, vector) == if vector.Rows? && !r.mode.ModeLexical? then vector.rows else []
    ensures LexicalRows(r, lexical) == if lexical.Rows? && !r.mode.ModeVector? then lexical.rows else []
    ensures TopScore(VectorRows(r, vector)).Some? <==>
      !r.mode.ModeLexical? && vector.Rows? && |vector.rows| > 0
    ensures TopScore(VectorRows(r, vector)).Some? ==> TopScore(VectorRows(r, vector)).value == vector.rows[0].score
    ensures forall top :: var e := Empty(r, top);
      && e.hits == [] && e.spans == map[] && e.topScore == top && e.mode == r.mode
      && (e.vectorRan <==> r.mode != ModeLexical)
  {
  }

  ghost predicate DistinctRows(rows: seq<Row>) {
    forall i, j :: 0 <= i < j < |rows| ==> rows[i].span.id != rows[j].span.id
  }

  /** rank is the place of id's row among rows, and 0 when it has none. */
  ghost predicate RanksRow(rows: seq<Row>, id: string, rank: nat) {
    && rank <= |rows|
    && (rank > 0 ==> rows[rank - 1].span.id == id)
    && (rank == 0 ==> forall i :: 0 <= i < |rows| ==> rows[i].span.id != id)
  }

  /** f is the fusion of its rows, ranked in each arm. */
  ghost predicate Fuses(p: Params, v: seq<Row>, l: seq<Row>, f: Fused)
    requires p.k >= 0
  {
    && RanksRow(v, f.spanId, f.vectorRank) && RanksRow(l, f.spanId, f.lexicalRank)
    && (f.vectorRank > 0 || f.lexicalRank > 0)
    && (f.vectorRank > 0 ==> f.vectorScore == v[f.vectorRank - 1].score)
    && Weighed(p, f)
  }

  /** The hits are the best of the whole candidate depth: no more than the limit, each the fusion
      of its rows, in falling score; and a span of either arm is missing only when the limit is
      reached, and then its fusion scores no more than any hit. */
  lemma HitsAreTheBest(r: Retriever, limit: int, v: seq<Row>, l: seq<Row>, hits: seq<Fused>)
    requires Accepts(r, limit) && DistinctRows(v) && DistinctRows(l) && Trimmed(r, limit, v, l, hits)
    ensures |hits| <= limit
    ensures forall f :: f in hits ==> Fuses(r.fusion, v, l, f)
    ensures forall i, j :: 0 <= i < j < |hits| ==> hits[i].score >= hits[j].score && hits[i].spanId != hits[j].spanId
    ensures forall row :: (row in v || row in l) && row.span.id !in HitIds(hits) ==>
      |hits| == limit &&
      exists f :: Fuses(r.fusion, v, l, f) && f.spanId == row.span.id && forall h :: h in hits ==> h.score >= f.score
  {
    var p, a, b := r.fusion, HitsOf(v), HitsOf(l);
    var full: seq<Fused> :| Ranks(Accumulated(p, a, b), full) && hits == full[..Min(limit, |full|)];
    DistinctHits(v);
    DistinctHits(l);
    ScoresAreWeightedSums(p, a, b, full);
    forall f | f in full ensures Fuses(p, v, l, f) {
      FusedFromRows(p, v, l, full, f);
    }
    forall i, j | 0 <= i < j < |full| ensures full[i].score >= full[j].score {
      TiesBreakByPlace(p, a, b, full, i, j);
    }
    forall row | (row in v || row in l) && row.span.id !in HitIds(hits)
      ensures |hits| == limit
      ensures exists f :: Fuses(p, v, l, f) && f.spanId == row.span.id && forall h :: h in hits ==> h.score >= f.score
    {
      var m := RowIsFused(p, v, l, full, row);
      MissingIsLater(full, hits, m);
      assert Fuses(p, v, l, full[m]);
    }
  }

  lemma MissingIsLater(full: seq<Fused>, hits: seq<Fused>, m: nat)
    requires |hits| <= |full| && hits == full[..|hits|] && m < |full| && full[m].spanId !in HitIds(hits)
    requires forall i, j :: 0 <= i < j < |full| ==> full[i].score >= full[j].score
    ensures |hits| <= m && forall h :: h in hits ==> h.score >= full[m].score
  {
    assert forall i :: 0 <= i < |hits| ==> hits[i] in hits && hits[i].spanId in HitIds(hits);
  }

  lemma RankOfRow(rows: seq<Row>, id: string)
    ensures RanksRow(rows, id, RankIn(HitsOf(rows), id))
  {
    assert forall i :: 0 <= i < |rows| ==> HitsOf(rows)[i].spanId == rows[i].span.id;
  }

  lemma DistinctHits(rows: seq<Row>)
    requires DistinctRows(rows)
    ensures DistinctIds(HitsOf(rows))
  {
    assert forall i :: 0 <= i < |rows| ==> HitsOf(rows)[i].spanId == rows[i].span.id;
  }

  lemma FusedFromRows(p: Params, v: seq<Row>, l: seq<Row>, full: seq<Fused>, f: Fused)
    requires Fuse.Valid(p) && DistinctRows(v) && DistinctRows(l) && f in full
    requires Ranks(Accumulated(p, HitsOf(v), HitsOf(l)), full)
    ensures Fuses(p, v, l, f)
  {
    DistinctHits(v);
    DistinctHits(l);
    ScoresAreWeightedSums(p, HitsOf(v), HitsOf(l), full);
    RankOfRow(v, f.spanId);
    RankOfRow(l, f.spanId);
  }

  lemma RowIsFused(p: Params, v: seq<Row>, l: seq<Row>, full: seq<Fused>, row: Row) returns (m: nat)
    requires Fuse.Valid(p) && (row in v || row in l)
    requires Ranks(Accumulated(p, HitsOf(v), HitsOf(l)), full)
    ensures m < |full| && full[m].spanId == row.span.id
  {
    var a, b, id := HitsOf(v), HitsOf(l), row.span.id;
    AccumulatedKeys(p, a, b, |b|, id);
    if row in v {
      var i :| 0 <= i < |v| && v[i] == row;
      assert a[i].spanId == id;
    } else {
      var i :| 0 <= i < |l| && l[i] == row;
      assert b[i].spanId == id;
    }
    LexicalKeyed(p, a, b, |b|);
    var f := Accumulated(p, a, b)[id];
    assert f in full;
    m :| m < |full| && full[m] == f;
  }

  // The extractive answer

  datatype Budget = Budget(maxSpans: int, maxChars: int)

  datatype Cited = Cited(marker: nat, spanId: string, kind: string, symbol: string)

  datatype Answer = Answer(text: string, citations: seq<Cited>, dropped: nat)

  function Named(symbol: string): string {
    if symbol == "" then "" else " (" + symbol + ")"
  }

  /** The span, whole, under the marker that names where it came from. */
  function Render(marker: nat, sp: Span): (s: string)
    ensures |s| > 0
  {
    var head := "[" + Decimal(marker) + "] " + sp.path + ":" + Decimal(sp.startLine) + "-" + Decimal(sp.endLine);
    head + Named(sp.symbol) + "\n" + sp.text
  }

  /** The spans of the first n hits, where a span travelled with the hit. */
  function Present(hits: seq<Fused>, spans: map<string, Span>, n: nat): (out: seq<Span>)
    requires n <= |hits|
    ensures |out| <= n
  {
    if n == 0 then []
    else
      var front := Present(hits, spans, n - 1);
      if hits[n - 1].spanId in spans then front + [spans[hits[n - 1].spanId]] else front
  }

  /** How a marker and its span become text. */
  type Renderer = (nat, Span) -> string

  ghost predicate NeverEmpty(render: Renderer) {
    forall n, sp :: |render(n, sp)| > 0
  }

  /** A block after the first is set off by a blank line. */
  function Blocks(render: Renderer, present: seq<Span>): seq<string> {
    seq(|present|, i requires 0 <= i < |present| =>
      if i == 0 then render(1, present[0]) else "\n\n" + render(i + 1, present[i]))
  }

  /** The first n blocks, whole. */
  function Text(blocks: seq<string>, n: nat): string
    requires n <= |blocks|
  {
    if n == 0 then "" else Text(blocks, n - 1) + blocks[n - 1]
  }

  /** n blocks fit. One always does: the top span is kept however long it is. */
  predicate Fits(b: Budget, blocks: seq<string>, n: nat)
    requires n <= |blocks|
  {
    n <= 1 || (n <= b.maxSpans && |Text(blocks, n)| <= b.maxChars)
  }

  lemma {:induction false} TextGrows(blocks: seq<string>, m: nat, n: nat)
    requires m <= n <= |blocks|
    ensures |Text(blocks, m)| <= |Text(blocks, n)|
  {
    if m < n {
      TextGrows(blocks, m, n - 1);
    }
  }

  lemma TextIsEmpty(blocks: seq<string>, n: nat)
    requires n <= |blocks| && forall i :: 0 <= i < |blocks| ==> |blocks[i]| > 0
    ensures n == 0 <==> Text(blocks, n) == ""
  {
  }

  /** Once a block is refused, no longer run would have fitted. */
  lemma RefusedForGood(b: Budget, blocks: seq<string>, n: nat)
    requires n < |blocks| && !Fits(b, blocks, n + 1)
    ensures forall m :: n < m <= |blocks| ==> !Fits(b, blocks, m)
  {
    forall m | n < m <= |blocks| ensures !Fits(b, blocks, m) {
      TextGrows(blocks, n + 1, m);
    }
  }

  lemma {:induction false} PresentPrefix(hits: seq<Fused>, spans: map<string, Span>, m: nat, n: nat)
    requires m <= n <= |hits|
    ensures Present(hits, spans, m) <= Present(hits, spans, n)
  {
    if m < n {
      PresentPrefix(hits, spans, m, n - 1);
    }
  }

  /** One more hit: its span is the next present one, or nothing is. */
  lemma PresentAt(hits: seq<Fused>, spans: map<string, Span>, i: nat)
    requires i < |hits|
    ensures var p, all, id := |Present(hits, spans, i)|, Present(hits, spans, |hits|), hits[i].spanId;
      if id !in spans then |Present(hits, spans, i + 1)| == p
      else |Present(hits, spans, i + 1)| == p + 1 && p < |all| && all[p] == spans[id]
  {
    PresentPrefix(hits, spans, i + 1, |hits|);
  }

  /** The citations of a run of spans, marked from 1. */
  function Citations(present: seq<Span>): seq<Cited> {
    seq(|present|, i requires 0 <= i < |present| =>
      Cited(i + 1, present[i].id, present[i].kind, present[i].symbol))
  }

  /** The longest leading run of present hits that fits, marked 1 to n; the rest are counted. */
  ghost predicate Assembled(render: Renderer, hits: seq<Fused>, spans: map<string, Span>, b: Budget, a: Answer) {
    var present, n := Present(hits, spans, |hits|), |a.citations|;
    && n <= |present|
    && a.citations <= Citations(present)
    && a.text == Text(Blocks(render, present), n)
    && n + a.dropped == |hits|
    && Fits(b, Blocks(render, present), n)
    && (forall m :: n < m <= |present| ==> !Fits(b, Blocks(render, present), m))
  }

  /** What the loop has written once n spans are cited: their blocks, their markers. */
  ghost predicate Written(b: Budget, blocks: seq<string>, marked: seq<Cited>, n: nat, text: string, cites: seq<Cited>) {
    && n <= |blocks| == |marked|
    && |cites| == n && cites <= marked && text == Text(blocks, n) && Fits(b, blocks, n)
  }

  predicate Refused(b: Budget, cited: nat, written: nat, block: nat) {
    cited > 0 && (cited >= b.maxSpans || written + block > b.maxChars)
  }

  /** The next block: written, or refused along with every block after it. */
  lemma BlockFits(b: Budget, blocks: seq<string>, marked: seq<Cited>, n: nat, text: string, cites: seq<Cited>)
    requires Written(b, blocks, marked, n, text, cites) && n < |blocks|
    ensures Refused(b, n, |text|, |blocks[n]|) ==> forall m :: n < m <= |blocks| ==> !Fits(b, blocks, m)
    ensures !Refused(b, n, |text|, |blocks[n]|) ==>
      Written(b, blocks, marked, n + 1, text + blocks[n], cites + [marked[n]])
  {
    assert Text(blocks, n + 1) == text + blocks[n];
    if !Fits(b, blocks, n + 1) {
      RefusedForGood(b, blocks, n);
    }
  }

  lemma Concludes(
    render: Renderer, hits: seq<Fused>, spans: map<string, Span>, b: Budget, blocks: seq<string>,
    marked: seq<Cited>, a: Answer)
    requires blocks == Blocks(render, Present(hits, spans, |hits|)) && marked == Citations(Present(hits, spans, |hits|))
    requires Written(b, blocks, marked, |a.citations|, a.text, a.citations) && |a.citations| + a.dropped == |hits|
    requires forall m :: |a.citations| < m <= |blocks| ==> !Fits(b, blocks, m)
    ensures Assembled(render, hits, spans, b, a)
  {
  }

  lemma SkippedBlock(hits: seq<Fused>, spans: map<string, Span>, i: nat)
    requires i < |hits| && hits[i].spanId !in spans
    ensures |Present(hits, spans, i + 1)| == |Present(hits, spans, i)|
  {
  }

  lemma BlockAt(render: Renderer, present: seq<Span>, n: nat)
    requires n < |present|
    ensures |Blocks(render, present)| == |Citations(present)| == |present|
    ensures Blocks(render, present)[n] == (if n == 0 then render(1, present[0]) else "\n\n" + render(n + 1, present[n]))
    ensures Citations(present)[n] == Cited(n + 1, present[n].id, present[n].kind, present[n].symbol)
  {
  }

  lemma NextBlock(render: Renderer, hits: seq<Fused>, spans: map<string, Span>, i: nat, n: nat)
    requires i < |hits| && hits[i].spanId in spans && n == |Present(hits, spans, i)|
    ensures var present, sp := Present(hits, spans, |hits|), spans[hits[i].spanId];
      && n < |present| && n + 1 == |Present(hits, spans, i + 1)|
      && Blocks(render, present)[n] == (if n == 0 then render(1, sp) else "\n\n" + render(n + 1, sp))
      && Citations(present)[n] == Cited(n + 1, sp.id, sp.kind, sp.symbol)
  {
    PresentAt(hits, spans, i);
    BlockAt(render, Present(hits, spans, |hits|), n);
  }

  method AssembleWith(render: Renderer, hits: seq<Fused>, spans: map<string, Span>, b: Budget) returns (a: Answer)
    requires NeverEmpty(render)
    ensures Assembled(render, hits, spans, b, a)
  {
    ghost var blocks := Blocks(render, Present(hits, spans, |hits|));
    ghost var marked := Citations(Present(hits, spans, |hits|));
    var text, cites, dropped, n := "", [], 0, 0;
    for i := 0 to |hits|
      invariant n == |cites| && n + dropped == i && n == |Present(hits, spans, i)|
      invariant Written(b, blocks, marked, n, text, cites)
    {
      if hits[i].spanId !in spans {
        SkippedBlock(hits, spans, i);
        dropped := dropped + 1;
      } else {
        var sp := spans[hits[i].spanId];
        NextBlock(render, hits, spans, i, n);
        TextIsEmpty(blocks, n);
        var block := render(n + 1, sp);
        if |text| > 0 {
          block := "\n\n" + block;
        }
        assert block == blocks[n];
        BlockFits(b, blocks, marked, n, text, cites);
        if n > 0 && (n >= b.maxSpans || |text| + |block| > b.maxChars) {
          a := Answer(text, cites, dropped + (|hits| - i));
          Concludes(render, hits, spans, b, blocks, marked, a);
          return;
        }
        text := text + block;
        cites := cites + [Cited(n + 1, sp.id, sp.kind, sp.symbol)];
        n := n + 1;
      }
    }
    a := Answer(text, cites, dropped);
    Concludes(render, hits, spans, b, blocks, marked, a);
  }

  method Assemble(hits: seq<Fused>, spans: map<string, Span>, b: Budget) returns (a: Answer)
    ensures Assembled(Render, hits, spans, b, a)
  {
    a := AssembleWith(Render, hits, spans, b);
  }

  lemma {:induction false} AllPresent(hits: seq<Fused>, spans: map<string, Span>, n: nat)
    requires n <= |hits| && forall i :: 0 <= i < |hits| ==> hits[i].spanId in spans
    ensures |Present(hits, spans, n)| == n
    ensures forall i :: 0 <= i < n ==> Present(hits, spans, n)[i] == spans[hits[i].spanId]
  {
    if n > 0 {
      AllPresent(hits, spans, n - 1);
    }
  }

  /** The spans that travelled, in the order of their hits, each hit once. */
  lemma {:induction false} PresentKeepsOrder(hits: seq<Fused>, spans: map<string, Span>, n: nat) returns (at: seq<nat>)
    requires n <= |hits|
    ensures |at| == |Present(hits, spans, n)| && Increasing(at)
    ensures forall i: nat :: i in at <==> i < n && hits[i].spanId in spans
    ensures forall m :: 0 <= m < |at| ==>
      at[m] < n && hits[at[m]].spanId in spans && Present(hits, spans, n)[m] == spans[hits[at[m]].spanId]
  {
    if n == 0 {
      at := [];
    } else {
      var before := PresentKeepsOrder(hits, spans, n - 1);
      var present := Present(hits, spans, n);
      at := before;
      if hits[n - 1].spanId in spans {
        IncreasingGrows(before, n - 1);
        at := before + [n - 1];
      }
      forall m | 0 <= m < |at|
        ensures at[m] < n && hits[at[m]].spanId in spans && present[m] == spans[hits[at[m]].spanId]
      {
        if m < |before| {
          assert at[m] == before[m] && present[m] == Present(hits, spans, n - 1)[m];
        } else {
          assert at[m] == n - 1;
        }
      }
    }
  }

  lemma HitsTravel(hits: seq<Fused>, rows: seq<Row>, spans: map<string, Span>)
    requires Carried(hits, rows, spans)
    ensures forall i :: 0 <= i < |hits| ==> hits[i].spanId in spans && spans[hits[i].spanId].id == hits[i].spanId
  {
    forall i | 0 <= i < |hits| ensures hits[i].spanId in spans {
      assert hits[i].spanId in HitIds(hits);
    }
  }

  /** The budget bounds an answer, except that the top span is never cut or dropped. */
  lemma AnswerIsBounded(render: Renderer, hits: seq<Fused>, spans: map<string, Span>, b: Budget, a: Answer)
    requires Assembled(render, hits, spans, b, a)
    ensures |a.citations| <= Max(1, b.maxSpans)
    ensures |a.text| <= b.maxChars || |a.citations| == 1 || a.text == ""
    ensures |a.citations| + a.dropped == |hits|
    ensures Present(hits, spans, |hits|) != [] ==> a.citations != []
  {
    var blocks := Blocks(render, Present(hits, spans, |hits|));
    if blocks != [] {
      assert Fits(b, blocks, 1);
    }
  }

  /** What was left out did not fit: a present hit goes uncited only when the citations are
      already MaxSpans, or one more block and the blank line before it would pass MaxChars. */
  lemma StopsOnlyWhenFull(render: Renderer, hits: seq<Fused>, spans: map<string, Span>, b: Budget, a: Answer)
    requires Assembled(render, hits, spans, b, a)
    ensures var present, n := Present(hits, spans, |hits|), |a.citations|;
      0 < n < |present| ==> n >= b.maxSpans || |a.text| + 2 + |render(n + 1, present[n])| > b.maxChars
  {
    var present, n := Present(hits, spans, |hits|), |a.citations|;
    var blocks := Blocks(render, present);
    if 0 < n < |present| {
      assert !Fits(b, blocks, n + 1);
      BlockAt(render, present, n);
      assert |Text(blocks, n + 1)| == |Text(blocks, n)| + |blocks[n]|;
    }
  }

  /** The text is cut, at these places and nowhere else, into the blocks of the spans, in order,
      numbered from 1, a blank line before each but the first. */
  ghost predicate Cuts(render: Renderer, present: seq<Span>, text: string, at: seq<nat>) {
    && 0 < |at| <= |present| + 1 && at[0] == 0 && at[|at| - 1] == |text|
    && (forall i :: 0 <= i < |at| - 1 ==> IsBlock(render, present, text, at, i))
  }

  ghost predicate IsBlock(render: Renderer, present: seq<Span>, text: string, at: seq<nat>, i: nat)
    requires i + 1 < |at| <= |present| + 1
  {
    at[i] <= at[i + 1] <= |text| &&
    text[at[i]..at[i + 1]] == (if i == 0 then "" else "\n\n") + render(i + 1, present[i])
  }

  lemma CutExtends(render: Renderer, present: seq<Span>, text: string, before: seq<nat>, block: string)
    requires Cuts(render, present, text, before) && |before| <= |present|
    requires block == (if |before| == 1 then "" else "\n\n") + render(|before|, present[|before| - 1])
    ensures Cuts(render, present, text + block, before + [|text + block|])
  {
    var longer, at := text + block, before + [|text + block|];
    forall i | 0 <= i < |before| ensures IsBlock(render, present, longer, at, i) {
      if i < |before| - 1 {
        assert IsBlock(render, present, text, before, i);
        assert longer[at[i]..at[i + 1]] == text[at[i]..at[i + 1]];
      } else {
        assert longer[at[i]..at[i + 1]] == block;
      }
    }
  }

  lemma {:induction false} TextIsCut(render: Renderer, present: seq<Span>, blocks: seq<string>, n: nat)
    returns (at: seq<nat>)
    requires blocks == Blocks(render, present) && n <= |present|
    ensures |blocks| == |present| && |at| == n + 1 && Cuts(render, present, Text(blocks, n), at)
  {
    if n == 0 {
      at := [0];
    } else {
      at := TextIsCut(render, present, blocks, n - 1);
      BlockAt(render, present, n - 1);
      CutExtends(render, present, Text(blocks, n - 1), at, blocks[n - 1]);
      at := at + [|Text(blocks, n)|];
    }
  }

  lemma AnswerIsItsBlocks(render: Renderer, hits: seq<Fused>, spans: map<string, Span>, b: Budget, a: Answer)
    returns (at: seq<nat>)
    requires Assembled(render, hits, spans, b, a)
    ensures |at| == |a.citations| + 1 && Cuts(render, Present(hits, spans, |hits|), a.text, at)
  {
    var present := Present(hits, spans, |hits|);
    at := TextIsCut(render, present, Blocks(render, present), |a.citations|);
  }

  /** A decimal numeral reads back as its number. */
  lemma {:induction false} NumeralReadsBack(text: string, i: nat, e: nat, n: nat)
    requires i <= e <= |text| && text[i..e] == Decimal(n)
    ensures forall k :: i <= k < e ==> Cite.Digit(text[k])
    ensures Cite.Decimal(text, i, e) == n
    decreases n
  {
    assert text[e - 1] == text[i..e][e - 1 - i] == Decimal(n)[|Decimal(n)| - 1];
    if n >= 10 {
      assert text[i..e - 1] == text[i..e][..e - 1 - i] == Decimal(n / 10);
      NumeralReadsBack(text, i, e - 1, n / 10);
    } else {
      assert e == i + 1;
      assert Cite.Decimal(text, i, i) == 0;
    }
  }

  lemma MarkerReadsBack(text: string, lo: nat, e: nat, n: nat)
    requires lo + 1 <= e < |text| && text[lo] == '[' && text[lo + 1..e] == Decimal(n) && text[e] == ']'
    ensures Cite.MarkerAt(text, lo) && Cite.MarkerEnd(text, lo) == e + 1 && Cite.Value(text, lo) == n
  {
    NumeralReadsBack(text, lo + 1, e, n);
    NumeralEnds(text, lo + 1, e);
  }

  lemma {:induction false} NumeralEnds(text: string, i: nat, e: nat)
    requires i <= e < |text| && (forall k :: i <= k < e ==> Cite.Digit(text[k])) && text[e] == ']'
    ensures Cite.DigitsEnd(text, i) == e
    decreases e - i
  {
    if i < e {
      NumeralEnds(text, i + 1, e);
    }
  }

  /** Where a block came from, after its marker. */
  function Place(sp: Span): string {
    " " + sp.path + ":" + Decimal(sp.startLine) + "-" + Decimal(sp.endLine)
    + (if sp.symbol == "" then "" else " (" + sp.symbol + ")") + "\n"
  }

  lemma RenderIs(marker: nat, sp: Span)
    ensures Render(marker, sp) == "[" + Decimal(marker) + "]" + (Place(sp) + sp.text)
  {
    RenderRegroups(Decimal(marker), sp.path, Decimal(sp.startLine), Decimal(sp.endLine), Named(sp.symbol), sp.text);
  }

  lemma RenderRegroups(n: string, path: string, first: string, last: string, named: string, text: string)
    ensures "[" + n + "] " + path + ":" + first + "-" + last + named + "\n" + text ==
      "[" + n + "]" + (" " + path + ":" + first + "-" + last + named + "\n" + text)
  {
  }

  lemma PartsOf(s: string, a: string, b: string, c: string, d: string, e: string)
    requires s == a + b + c + (d + e)
    ensures |s| == |a| + |b| + |c| + |d| + |e|
    ensures s[..|a|] == a && s[|a|..|a| + |b|] == b && s[|a| + |b|..|a| + |b| + |c|] == c
    ensures s[|a| + |b| + |c|..|s| - |e|] == d && s[|s| - |e|..] == e
  {
  }

  lemma RenderOpens(marker: nat, sp: Span)
    ensures var s, n := Render(marker, sp), Decimal(marker);
      |s| > 1 + |n| && s[0] == '[' && s[1..1 + |n|] == n && s[1 + |n|] == ']'
  {
    var s, n := Render(marker, sp), Decimal(marker);
    RenderIs(marker, sp);
    PartsOf(s, "[", n, "]", Place(sp), sp.text);
    assert s[0] == s[..1][0] && s[1 + |n|] == s[1 + |n|..1 + |n| + 1][0];
  }

  /** A rendered block opens with a marker that the citation gate reads as its number, goes on
      with the path, the lines and the symbol, and ends in the whole text of its span. */
  lemma BlockIsMarkedAndWhole(marker: nat, sp: Span)
    ensures var s := Render(marker, sp);
      && Cite.MarkerAt(s, 0) && Cite.Value(s, 0) == marker && Cite.MarkerEnd(s, 0) <= |s| - |sp.text|
      && s[|s| - |sp.text|..] == sp.text
      && s[Cite.MarkerEnd(s, 0)..|s| - |sp.text|] ==
           " " + sp.path + ":" + Decimal(sp.startLine) + "-" + Decimal(sp.endLine)
           + (if sp.symbol == "" then "" else " (" + sp.symbol + ")") + "\n"
  {
    var s, n := Render(marker, sp), Decimal(marker);
    RenderIs(marker, sp);
    PartsOf(s, "[", n, "]", Place(sp), sp.text);
    assert s[0] == s[..1][0] && s[1 + |n|] == s[1 + |n|..1 + |n| + 1][0];
    MarkerReadsBack(s, 0, 1 + |n|, marker);
  }

  lemma SliceOf(text: string, lo: nat, hi: nat, i: nat, j: nat)
    requires lo <= hi <= |text| && i <= j <= hi - lo
    ensures text[lo..hi][i..j] == text[lo + i..lo + j]
  {
    assert forall k :: 0 <= k < j - i ==> text[lo..hi][i..j][k] == text[lo + i + k] == text[lo + i..lo + j][k];
  }

  /** A block after the first starts past its blank line. */
  lemma BlockBody(present: seq<Span>, text: string, cuts: seq<nat>, i: nat, lo: nat)
    requires i + 1 < |cuts| <= |present| + 1 && IsBlock(Render, present, text, cuts, i) && (i == 0 ==> cuts[0] == 0)
    requires lo == if i == 0 then 0 else cuts[i] + 2
    ensures lo <= cuts[i + 1] <= |text| && text[lo..cuts[i + 1]] == Render(i + 1, present[i])
    ensures lo == 0 || text[lo - 1] == '\n'
  {
    var block := text[cuts[i]..cuts[i + 1]];
    if i > 0 {
      assert block == "\n\n" + Render(i + 1, present[i]);
      assert block[1] == '\n' && block[2..] == Render(i + 1, present[i]);
      SliceOf(text, cuts[i], cuts[i + 1], 2, |block|);
    } else {
      assert block == Render(1, present[0]);
    }
  }

  lemma BlockStandsAlone(text: string, lo: nat, hi: nat, marker: nat, sp: Span)
    requires lo <= hi <= |text| && text[lo..hi] == Render(marker, sp) && (lo == 0 || text[lo - 1] == '\n')
    ensures Cite.Standalone(text, lo) && Cite.Value(text, lo) == marker
  {
    var s, n := Render(marker, sp), Decimal(marker);
    RenderOpens(marker, sp);
    assert text[lo] == text[lo..hi][0] && text[lo + 1 + |n|] == text[lo..hi][1 + |n|];
    SliceOf(text, lo, hi, 1, 1 + |n|);
    MarkerReadsBack(text, lo, lo + 1 + |n|, marker);
  }

  /** Every block of an answer opens with a marker that stands alone in it and reads as the
      block's own number, so the gate that checks an answer resolves every one of them. */
  lemma AnswersPassTheGate(hits: seq<Fused>, spans: map<string, Span>, b: Budget, a: Answer) returns (at: seq<nat>)
    requires Assembled(Render, hits, spans, b, a)
    ensures |at| == |a.citations| && forall i :: 0 <= i < |at| ==>
      Cite.Resolves(a.text, |a.citations|, at[i]) && Cite.Value(a.text, at[i]) == i + 1
  {
    var present := Present(hits, spans, |hits|);
    var cuts := AnswerIsItsBlocks(Render, hits, spans, b, a);
    at := seq(|a.citations|, i requires 0 <= i < |a.citations| => if i == 0 then 0 else cuts[i] + 2);
    forall i | 0 <= i < |at| ensures Cite.Standalone(a.text, at[i]) && Cite.Value(a.text, at[i]) == i + 1 {
      assert IsBlock(Render, present, a.text, cuts, i);
      BlockBody(present, a.text, cuts, i, at[i]);
      BlockStandsAlone(a.text, at[i], cuts[i + 1], i + 1, present[i]);
    }
  }

  lemma CitesTheHits(render: Renderer, hits: seq<Fused>, spans: map<string, Span>, b: Budget, a: Answer)
    requires Assembled(render, hits, spans, b, a)
    requires forall i :: 0 <= i < |hits| ==> hits[i].spanId in spans && spans[hits[i].spanId].id == hits[i].spanId
    ensures |a.citations| <= |hits|
    ensures forall i :: 0 <= i < |a.citations| ==>
      var sp := spans[hits[i].spanId];
      a.citations[i] == Cited(i + 1, hits[i].spanId, sp.kind, sp.symbol)
  {
    var present := Present(hits, spans, |hits|);
    AllPresent(hits, spans, |hits|);
    forall i | 0 <= i < |a.citations|
      ensures a.citations[i] == Cited(i + 1, hits[i].spanId, spans[hits[i].spanId].kind, spans[hits[i].spanId].symbol)
    {
      assert a.citations[i] == Citations(present)[i];
    }
  }

  /** What a search found is answered from the top: every hit has its span, so the citations
      are the first hits themselves, in order, and some hit is always answered. */
  lemma AnswersFromTheTop(
    render: Renderer, r: Retriever, limit: int, v: seq<Row>, l: seq<Row>, res: Result, b: Budget, a: Answer)
    requires Accepts(r, limit) && Retrieved(r, limit, v, l, res) && Assembled(render, res.hits, res.spans, b, a)
    ensures |a.citations| <= |res.hits| <= limit
    ensures forall i :: 0 <= i < |a.citations| ==>
      a.citations[i].marker == i + 1 && a.citations[i].spanId == res.hits[i].spanId
    ensures res.hits != [] ==> a.citations != []
  {
    HitsTravel(res.hits, v + l, res.spans);
    AllPresent(res.hits, res.spans, |res.hits|);
    CitesTheHits(render, res.hits, res.spans, b, a);
    AnswerIsBounded(render, res.hits, res.spans, b, a);
  }
}
