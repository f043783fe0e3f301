/** A file as lines, and the overlapping windows that tile them. */
module Windows {
  import opened Common
  import opened Text
  import opened Order

  /** What Unicode says of a character: white space, and a letter or digit. */
  datatype Chars = Chars(space: char -> bool, token: char -> bool)

  predicate Blank(u: Chars, src: string) {
    forall i :: 0 <= i < |src| ==> u.space(src[i])
  }

  function TrimNewline(src: string): string {
    if src != "" && src[|src| - 1] == '\n' then src[..|src| - 1] else src
  }

  function SplitLines(u: Chars, src: string): seq<string> {
    if Blank(u, src) then [] else Split('\n', TrimNewline(src))
  }

  /** walk.Lines: what files.lines records. */
  function Lines(body: string): nat {
    if body == "" then 0 else Separators('\n', body) + if body[|body| - 1] != '\n' then 1 else 0
  }

  lemma {:induction false} NewlinesAppend(s: string, c: char)
    ensures Separators('\n', s + [c]) == Separators('\n', s) + if c == '\n' then 1 else 0
  {
    if s == "" {
      assert s + [c] == [c] && [c][1..] == "";
    } else {
      NewlinesAppend(s[1..], c);
      assert (s + [c])[1..] == s[1..] + [c];
    }
  }

  /** The two line counts of one file agree exactly when it is empty or says something: a file
      of white space has lines on its row and none to cite. */
  lemma LineCountsAgree(u: Chars, src: string)
    ensures |SplitLines(u, src)| == Lines(src) <==> src == "" || !Blank(u, src)
    ensures SplitLines(u, src) == [] <==> forall i :: 0 <= i < |src| ==> u.space(src[i])
    ensures !Blank(u, src) ==> Join('\n', SplitLines(u, src)) == TrimNewline(src)
    ensures forall i :: 0 <= i < |SplitLines(u, src)| ==> Free('\n', SplitLines(u, src)[i])
  {
    SplitJoinsBack('\n', TrimNewline(src));
    if src != "" {
      var n := |src| - 1;
      assert src == src[..n] + [src[n]];
      NewlinesAppend(src[..n], src[n]);
    }
  }

  // Tiling

  datatype Strategy = Ast | Window | Unknown(name: string)

  datatype Options = Options(strategy: Strategy, windowLines: int, windowOverlap: int, maxDeclLines: int)

  predicate Valid(o: Options) {
    !o.strategy.Unknown? && o.windowLines > 0 && 0 <= o.windowOverlap < o.windowLines && o.maxDeclLines > 0
  }

  datatype Chunk = Chunk(start: int, end: int, text: string)

  /** The AST strategy's chunks of a source, whatever they are. */
  type Chunker = string -> seq<Chunk>

  function Stride(o: Options): int {
    o.windowLines - o.windowOverlap
  }

  /** Window i is the lines its range names. */
  predicate Named(ls: seq<string>, c: Chunk) {
    1 <= c.start <= c.end <= |ls| && c.text == Join('\n', ls[c.start - 1..c.end])
  }

  /** Window i starts a stride after the one before it. */
  ghost predicate Strides(o: Options, out: seq<Chunk>, i: int)
    requires 0 < i < |out|
  {
    out[i].start == out[i - 1].start + Stride(o)
  }

  /** Full windows a stride apart, the last one cut where the range ends: it reaches that end,
      unless the stride is wider than a window and steps over it. */
  ghost predicate Tiles(ls: seq<string>, first: int, last: int, o: Options, out: seq<Chunk>) {
    && (out == [] <==> first > last)
    && (forall i :: 0 <= i < |out| ==> Named(ls, out[i]))
    && (out != [] ==> out[0].start == first)
    && (forall i :: 0 < i < |out| ==> Strides(o, out, i))
    && (forall i :: 0 <= i < |out| - 1 ==> out[i].end == out[i].start + o.windowLines - 1 < last)
    && (out != [] ==> Ends(out[|out| - 1], last, o))
  }

  predicate Ends(c: Chunk, last: int, o: Options) {
    c.end == Min(c.start + o.windowLines - 1, last) && (c.end == last || c.start + Stride(o) > last)
  }

  /** Whole windows, none of them reaching the end of the range, a stride apart from its start. */
  ghost predicate Whole(ls: seq<string>, first: int, last: int, o: Options, out: seq<Chunk>) {
    && (forall i :: 0 <= i < |out| ==> Named(ls, out[i]))
    && (forall i :: 0 <= i < |out| ==> out[i].end == out[i].start + o.windowLines - 1 < last)
    && (out != [] ==> out[0].start == first)
    && (forall i :: 0 < i < |out| ==> Strides(o, out, i))
  }

  lemma StridesExtend(o: Options, out: seq<Chunk>, c: Chunk)
    requires forall i :: 0 < i < |out| ==> Strides(o, out, i)
    requires out != [] ==> c.start == out[|out| - 1].start + Stride(o)
    ensures forall i :: 0 < i < |out + [c]| ==> Strides(o, out + [c], i)
  {
    forall i | 0 < i < |out + [c]| ensures Strides(o, out + [c], i) {
      if i < |out| {
        assert Strides(o, out, i);
      }
    }
  }

  /** One more window: another whole one, or the last. */
  lemma WindowExtends(ls: seq<string>, first: int, last: int, o: Options, out: seq<Chunk>, c: Chunk)
    requires Whole(ls, first, last, o, out) && Named(ls, c) && c.end == Min(c.start + o.windowLines - 1, last)
    requires if out == [] then c.start == first else c.start == out[|out| - 1].start + Stride(o)
    ensures c.end < last ==> Whole(ls, first, last, o, out + [c])
    ensures c.end == last && first <= last ==> Tiles(ls, first, last, o, out + [c])
  {
    StridesExtend(o, out, c);
  }

  /** A stride that does not advance tiles nothing rather than for ever. */
  method Windows(ls: seq<string>, first: int, last: int, o: Options) returns (out: seq<Chunk>)
    requires o.windowLines > 0 && 1 <= first && last <= |ls|
    ensures Stride(o) <= 0 ==> out == []
    ensures Stride(o) > 0 ==> Tiles(ls, first, last, o, out)
  {
    var stride := o.windowLines - o.windowOverlap;
    out := [];
    if stride <= 0 {
      return;
    }
    var start := first;
    while start <= last
      invariant first <= start
      invariant Whole(ls, first, last, o, out)
      invariant if out == [] then start == first else start == out[|out| - 1].start + stride
      decreases last - start
    {
      var end := Min(start + o.windowLines - 1, last);
      var c := Chunk(start, end, Join('\n', ls[start - 1..end]));
      WindowExtends(ls, first, last, o, out, c);
      out := out + [c];
      if end == last {
        return;
      }
      start := start + stride;
    }
  }

  predicate Holds(c: Chunk, line: int) {
    c.start <= line <= c.end
  }

  lemma {:induction false} CoversUpTo(ls: seq<string>, first: int, last: int, o: Options, out: seq<Chunk>, n: nat,
                                      line: int)
    requires Valid(o) && Tiles(ls, first, last, o, out) && 0 < n <= |out| && first <= line <= out[n - 1].end
    ensures exists i :: 0 <= i < n && Holds(out[i], line)
  {
    if line >= out[n - 1].start {
      assert Holds(out[n - 1], line);
    } else {
      assert Strides(o, out, n - 1);
      CoversUpTo(ls, first, last, o, out, n - 1, line);
    }
  }

  lemma {:induction false} LaterEndsLater(ls: seq<string>, first: int, last: int, o: Options, out: seq<Chunk>,
                                          i: nat, j: nat)
    requires Valid(o) && Tiles(ls, first, last, o, out) && i < j < |out|
    ensures out[i].start < out[j].start && out[i].end < out[j].end
  {
    if i < j - 1 {
      LaterEndsLater(ls, first, last, o, out, i, j - 1);
    }
    assert Strides(o, out, j);
  }

  /** How many lines window i has in common with the one before it. */
  function Shared(out: seq<Chunk>, i: int): int
    requires 0 < i < |out|
  {
    out[i - 1].end - out[i].start + 1
  }

  ghost predicate Covered(out: seq<Chunk>, line: int) {
    exists i :: 0 <= i < |out| && Holds(out[i], line)
  }

  /** Every line is in a window and no window reaches outside the range; neighbours share
      exactly the overlap, and no window lies inside another. */
  lemma TilingIsTight(ls: seq<string>, first: int, last: int, o: Options, out: seq<Chunk>)
    requires Valid(o) && Tiles(ls, first, last, o, out)
    ensures forall line :: Covered(out, line) <==> first <= line <= last
    ensures forall i :: 0 < i < |out| ==> Shared(out, i) == o.windowOverlap
    ensures forall i, j :: 0 <= i < |out| && 0 <= j < |out| && i != j ==>
      !(out[i].start <= out[j].start && out[j].end <= out[i].end)
    ensures forall i :: 0 <= i < |out| ==> out[i].end - out[i].start < o.windowLines
  {
    forall line ensures Covered(out, line) <==> first <= line <= last {
      if first <= line <= last {
        CoversUpTo(ls, first, last, o, out, |out|, line);
      }
      if i :| 0 <= i < |out| && Holds(out[i], line) {
        if 0 < i {
          LaterEndsLater(ls, first, last, o, out, 0, i);
        }
      }
    }
    forall i | 0 < i < |out| ensures Shared(out, i) == o.windowOverlap {
      assert Strides(o, out, i);
    }
    forall i, j | 0 <= i < |out| && 0 <= j < |out| && i != j
      ensures !(out[i].start <= out[j].start && out[j].end <= out[i].end)
    {
      if i < j {
        LaterEndsLater(ls, first, last, o, out, i, j);
      } else {
        LaterEndsLater(ls, first, last, o, out, j, i);
      }
    }
  }

  /** A window's text is its lines and no others: it splits back last exactly the range it cites. */
  lemma WindowTextIsItsLines(ls: seq<string>, c: Chunk)
    requires Named(ls, c) && forall i :: 0 <= i < |ls| ==> Free('\n', ls[i])
    ensures Split('\n', c.text) == ls[c.start - 1..c.end]
  {
    JoinSplitsBack('\n', ls[c.start - 1..c.end]);
  }

  // The whole file

  predicate HasTokens(u: Chars, text: string) {
    exists i :: 0 <= i < |text| && u.token(text[i])
  }

  function Keep(u: Chars, cs: seq<Chunk>, n: nat): seq<Chunk>
    requires n <= |cs|
  {
    if n == 0 then []
    else Keep(u, cs, n - 1) + if HasTokens(u, cs[n - 1].text) then [cs[n - 1]] else []
  }

  method Retrievable(u: Chars, cs: seq<Chunk>) returns (kept: seq<Chunk>, dropped: nat)
    ensures kept == Keep(u, cs, |cs|) && |kept| + dropped == |cs|
  {
    kept := [];
    for i := 0 to |cs|
      invariant kept == Keep(u, cs, i) && |kept| <= i
    {
      if HasTokens(u, cs[i].text) {
        kept := kept + [cs[i]];
      }
    }
    dropped := |cs| - |kept|;
  }

  lemma {:induction false} KeepIsFilter(u: Chars, cs: seq<Chunk>, n: nat)
    requires n <= |cs|
    ensures forall c :: c in Keep(u, cs, n) <==> c in cs[..n] && HasTokens(u, c.text)
  {
    if n > 0 {
      KeepIsFilter(u, cs, n - 1);
      assert cs[..n] == cs[..n - 1] + [cs[n - 1]];
    }
  }

  /** What is kept stands in the order it came in, each place once. */
  lemma {:induction false} KeepKeepsOrder(u: Chars, cs: seq<Chunk>, n: nat) returns (at: seq<nat>)
    requires n <= |cs|
    ensures |at| == |Keep(u, cs, n)| && Increasing(at)
    ensures forall i: nat :: i in at <==> i < n && exists p :: 0 <= p < |cs[i].text| && u.token(cs[i].text[p])
    ensures forall m :: 0 <= m < |at| ==> at[m] < n && Keep(u, cs, n)[m] == cs[at[m]]
  {
    if n == 0 {
      at := [];
    } else {
      at := KeepKeepsOrder(u, cs, n - 1);
      if HasTokens(u, cs[n - 1].text) {
        IncreasingGrows(at, n - 1);
        at := at + [n - 1];
      }
    }
  }

  lemma {:induction false} LineIsInJoin(u: Chars, ls: seq<string>, k: nat)
    requires k < |ls| && HasTokens(u, ls[k])
    ensures HasTokens(u, Join('\n', ls))
  {
    var i :| 0 <= i < |ls[k]| && u.token(ls[k][i]);
    if k == 0 {
      assert Join('\n', ls)[i] == ls[0][i];
    } else {
      LineIsInJoin(u, ls[1..], k - 1);
      var m :| 0 <= m < |Join('\n', ls[1..])| && u.token(Join('\n', ls[1..])[m]);
      assert Join('\n', ls)[|ls[0]| + 1 + m] == Join('\n', ls[1..])[m];
    }
  }

  ghost predicate Filtered(u: Chars, all: seq<Chunk>, kept: seq<Chunk>, dropped: nat) {
    kept == Keep(u, all, |all|) && |kept| + dropped == |all|
  }

  /** An error only for invalid options; nothing for a blank file; else the strategy's chunks, filtered. */
  method Chunks(u: Chars, ast: Chunker, src: string, o: Options) returns (kept: seq<Chunk>, dropped: nat, ok: bool)
    ensures ok <==> Valid(o)
    ensures !ok || SplitLines(u, src) == [] ==> kept == [] && dropped == 0
    ensures ok && SplitLines(u, src) != [] && o.strategy.Ast? ==> Filtered(u, ast(src), kept, dropped)
    ensures ok && SplitLines(u, src) != [] && o.strategy.Window? ==>
      exists all :: Tiles(SplitLines(u, src), 1, |SplitLines(u, src)|, o, all) && Filtered(u, all, kept, dropped)
  {
    if !Valid(o) {
      return [], 0, false;
    }
    var ls := SplitLines(u, src);
    if ls == [] {
      return [], 0, true;
    }
    var all;
    if o.strategy.Window? {
      all := Windows(ls, 1, |ls|, o);
    } else {
      all := ast(src);
    }
    kept, dropped := Retrievable(u, all);
    return kept, dropped, true;
  }

  lemma WordyLineMakesWordyWindow(u: Chars, ls: seq<string>, c: Chunk, line: int)
    requires Named(ls, c) && Holds(c, line) && HasTokens(u, ls[line - 1])
    ensures HasTokens(u, c.text)
  {
    var range := ls[c.start - 1..c.end];
    assert range[line - c.start] == ls[line - 1];
    LineIsInJoin(u, range, line - c.start);
  }

  /** Dropping the windows with nothing to embed loses no line that says something. */
  lemma EveryWordyLineIsCited(u: Chars, ls: seq<string>, o: Options, all: seq<Chunk>, line: int)
    requires Valid(o) && Tiles(ls, 1, |ls|, o, all)
    requires 1 <= line <= |ls| && HasTokens(u, ls[line - 1])
    ensures exists c :: c in Keep(u, all, |all|) && Holds(c, line) && Named(ls, c)
  {
    TilingIsTight(ls, 1, |ls|, o, all);
    assert Covered(all, line);
    var i :| 0 <= i < |all| && Holds(all[i], line);
    WordyLineMakesWordyWindow(u, ls, all[i], line);
    KeepIsFilter(u, all, |all|);
    assert all[..|all|] == all && all[i] in all;
  }
}
