/** pgvector's text form of a vector, written and read back. */
module VecLiteral {
  import opened Common
  import opened Ids
  import opened Text

  /** strconv's shortest decimal for a number, and its reader, whatever the number type (a
      float32 in the source); space is what TrimSpace trims. */
  datatype Numbers<!F> = Numbers(show: F -> string, read: string -> Option<F>, space: char -> bool)

  /** Each number of v prints to something not empty, without a comma, that starts and ends
      with a character TrimSpace leaves and reads back as the number; brackets are not space. */
  ghost predicate Lossless<F>(n: Numbers<F>, v: seq<F>) {
    && !n.space('[') && !n.space(']')
    && forall i :: 0 <= i < |v| ==> Prints(n, v[i])
  }

  ghost predicate Prints<F>(n: Numbers<F>, f: F) {
    var s := n.show(f);
    s != "" && Free(',', s) && !n.space(s[0]) && !n.space(s[|s| - 1]) && n.read(s) == Some(f)
  }

  function Printed<F>(n: Numbers<F>, v: seq<F>): (parts: seq<string>)
    ensures |parts| == |v|
  {
    seq(|v|, i requires 0 <= i < |v| => n.show(v[i]))
  }

  lemma PrintedStep<F>(n: Numbers<F>, v: seq<F>, i: nat)
    requires i < |v|
    ensures Join(',', Printed(n, v)[..i + 1]) ==
      if i == 0 then n.show(v[0]) else Join(',', Printed(n, v)[..i]) + [','] + n.show(v[i])
  {
    assert Printed(n, v)[..i + 1] == Printed(n, v)[..i] + [n.show(v[i])];
    JoinAppends(',', Printed(n, v)[..i], n.show(v[i]));
  }

  /** vecLiteral. */
  method Render<F>(n: Numbers<F>, v: seq<F>) returns (s: string)
    ensures s == "[" + Join(',', Printed(n, v)) + "]"
  {
    s := "[";
    for i := 0 to |v|
      invariant s == "[" + Join(',', Printed(n, v)[..i])
    {
      PrintedStep(n, v, i);
      ghost var body := Join(',', Printed(n, v)[..i]);
      assert i > 0 ==> s + [','] + n.show(v[i]) == "[" + (body + [','] + n.show(v[i]));
      if i > 0 {
        s := s + [','];
      }
      s := s + n.show(v[i]);
    }
    assert Printed(n, v)[..|v|] == Printed(n, v);
    s := s + "]";
  }

  function TrimLeft<F>(n: Numbers<F>, s: string): string {
    if s != "" && n.space(s[0]) then TrimLeft(n, s[1..]) else s
  }

  function TrimRight<F>(n: Numbers<F>, s: string): string {
    if s != "" && n.space(s[|s| - 1]) then TrimRight(n, s[..|s| - 1]) else s
  }

  function Trim<F>(n: Numbers<F>, s: string): string {
    TrimRight(n, TrimLeft(n, s))
  }

  predicate Bracketed(s: string) {
    |s| >= 2 && s[0] == '[' && s[|s| - 1] == ']'
  }

  /** What the first k parts read as, or nothing if one of them is no number. */
  function Numbered<F>(n: Numbers<F>, parts: seq<string>, k: nat): Option<seq<F>>
    requires k <= |parts|
  {
    if k == 0 then Some([])
    else
      var front, f := Numbered(n, parts, k - 1), n.read(Trim(n, parts[k - 1]));
      if front.None? || f.None? then None else Some(front.value + [f.value])
  }

  lemma {:induction false} NoNumberNoVector<F>(n: Numbers<F>, parts: seq<string>, i: nat, k: nat)
    requires i < k <= |parts| && n.read(Trim(n, parts[i])).None?
    ensures Numbered(n, parts, k).None?
  {
    if i < k - 1 {
      NoNumberNoVector(n, parts, i, k - 1);
    }
  }

  /** What a literal reads as; nothing is the error. */
  function Parsed<F>(n: Numbers<F>, literal: string): Option<seq<F>> {
    var s := Trim(n, literal);
    if !Bracketed(s) then None
    else if |s| == 2 then Some([])
    else
      var parts := Split(',', s[1..|s| - 1]);
      Numbered(n, parts, |parts|)
  }

  /** parseVec. */
  method Parse<F>(n: Numbers<F>, literal: string) returns (out: Option<seq<F>>)
    ensures out == Parsed(n, literal)
  {
    var s := Trim(n, literal);
    if |s| < 2 || s[0] != '[' || s[|s| - 1] != ']' {
      return None;
    }
    s := s[1..|s| - 1];
    if s == "" {
      return Some([]);
    }
    var parts := Split(',', s);
    var v: seq<F> := [];
    for i := 0 to |parts|
      invariant Numbered(n, parts, i) == Some(v)
    {
      var f := n.read(Trim(n, parts[i]));
      if f.None? {
        NoNumberNoVector(n, parts, i, |parts|);
        return None;
      }
      v := v + [f.value];
    }
    return Some(v);
  }

  /** inner is what trimming leaves of s: all that goes is space, and neither end of it is. */
  ghost predicate IsTrimmed<F>(n: Numbers<F>, s: string, inner: string, i: nat) {
    && i + |inner| <= |s| && s[i..i + |inner|] == inner
    && (forall k :: 0 <= k < i ==> n.space(s[k])) && (forall k :: i + |inner| <= k < |s| ==> n.space(s[k]))
    && (inner != "" ==> !n.space(inner[0]) && !n.space(inner[|inner| - 1]))
  }

  lemma {:induction false} TrimLeftIs<F>(n: Numbers<F>, s: string) returns (i: nat)
    ensures i <= |s| && TrimLeft(n, s) == s[i..] && (forall k :: 0 <= k < i ==> n.space(s[k]))
    ensures i < |s| ==> !n.space(s[i])
  {
    if s != "" && n.space(s[0]) {
      var k := TrimLeftIs(n, s[1..]);
      i := k + 1;
      assert s[1..][k..] == s[i..];
      assert forall p :: 1 <= p < i ==> s[p] == s[1..][p - 1];
    } else {
      i := 0;
    }
  }

  lemma {:induction false} TrimRightIs<F>(n: Numbers<F>, s: string) returns (e: nat)
    ensures e <= |s| && TrimRight(n, s) == s[..e] && (forall k :: e <= k < |s| ==> n.space(s[k]))
    ensures e > 0 ==> !n.space(s[e - 1])
  {
    if s != "" && n.space(s[|s| - 1]) {
      e := TrimRightIs(n, s[..|s| - 1]);
      var front := s[..|s| - 1];
      assert front[..e] == s[..e] && forall k :: 0 <= k < |front| ==> s[k] == front[k];
    } else {
      e := |s|;
    }
  }

  lemma TrimIs<F>(n: Numbers<F>, s: string) returns (i: nat)
    ensures IsTrimmed(n, s, Trim(n, s), i)
  {
    i := TrimLeftIs(n, s);
    var rest := s[i..];
    var e := TrimRightIs(n, rest);
    assert forall k :: i <= k < |s| ==> s[k] == rest[k - i];
    assert rest[..e] == s[i..i + e];
  }

  lemma {:induction false} NumberedIs<F>(n: Numbers<F>, parts: seq<string>, k: nat)
    requires k <= |parts|
    ensures Numbered(n, parts, k).Some? <==> forall i :: 0 <= i < k ==> n.read(Trim(n, parts[i])).Some?
    ensures Numbered(n, parts, k).Some? ==>
      var v := Numbered(n, parts, k).value;
      |v| == k && forall i :: 0 <= i < k ==> n.read(Trim(n, parts[i])) == Some(v[i])
  {
    if k > 0 {
      NumberedIs(n, parts, k - 1);
    }
  }

  /** A literal reads exactly when, trimmed, it is bracketed and every comma-separated part of what
      the brackets hold, trimmed, is a number; the vector is those numbers in order, none for a
      bracketed nothing. */
  lemma ParsedExactly<F>(n: Numbers<F>, literal: string)
    ensures var s := Trim(n, literal);
      if |s| < 2 || s[0] != '[' || s[|s| - 1] != ']' then Parsed(n, literal) == None
      else if s == "[]" then Parsed(n, literal) == Some([])
      else
        var parts := Split(',', s[1..|s| - 1]);
        && (Parsed(n, literal).Some? <==> forall i :: 0 <= i < |parts| ==> n.read(Trim(n, parts[i])).Some?)
        && (Parsed(n, literal).Some? ==>
              var v := Parsed(n, literal).value;
              |v| == |parts| && forall i :: 0 <= i < |v| ==> n.read(Trim(n, parts[i])) == Some(v[i]))
  {
    var s := Trim(n, literal);
    if |s| > 2 {
      var parts := Split(',', s[1..|s| - 1]);
      NumberedIs(n, parts, |parts|);
    }
  }

  lemma {:induction false} PrintedReadsBack<F>(n: Numbers<F>, v: seq<F>, k: nat)
    requires Lossless(n, v) && k <= |v|
    ensures Numbered(n, Printed(n, v), k) == Some(v[..k])
  {
    if k > 0 {
      PrintedReadsBack(n, v, k - 1);
      assert Prints(n, v[k - 1]);
      assert v[..k] == v[..k - 1] + [v[k - 1]];
    }
  }

  /** Every vector survives the crossing, the empty one included. */
  lemma LiteralRoundTrips<F>(n: Numbers<F>, v: seq<F>)
    requires Lossless(n, v)
    ensures Parsed(n, "[" + Join(',', Printed(n, v)) + "]") == Some(v)
  {
    var body, parts := Join(',', Printed(n, v)), Printed(n, v);
    var s := "[" + body + "]";
    assert s[1..|s| - 1] == body;
    if v == [] {
      assert parts == [];
    } else {
      forall i | 0 <= i < |parts| ensures Free(',', parts[i]) && parts[i] != "" {
        assert Prints(n, v[i]);
      }
      JoinSplitsBack(',', parts);
      assert body != "";
      PrintedReadsBack(n, v, |v|);
      assert v[..|v|] == v;
    }
  }

  /** A literal names one vector: different vectors never share their text. */
  lemma LiteralsAreDistinct<F>(n: Numbers<F>, v: seq<F>, w: seq<F>)
    requires Lossless(n, v) && Lossless(n, w)
    requires "[" + Join(',', Printed(n, v)) + "]" == "[" + Join(',', Printed(n, w)) + "]"
    ensures v == w
  {
    LiteralRoundTrips(n, v);
    LiteralRoundTrips(n, w);
  }

  ghost function ReadInt(s: string): Option<int> {
    if i: int :| Itoa(i) == s then Some(i) else None
  }

  /** Such printers exist: decimal integers are one, for every vector of them. */
  lemma IntegersAreLossless(v: seq<int>)
    ensures Lossless(Numbers(Itoa, ReadInt, c => c == ' '), v)
  {
    var n := Numbers(Itoa, ReadInt, c => c == ' ');
    forall i | 0 <= i < |v| ensures Prints(n, v[i]) {
      var s := Itoa(v[i]);
      var back: int :| Itoa(back) == s && ReadInt(s) == Some(back);
      ItoaIsInjective(back, v[i]);
      DecimalIsDigits(if v[i] < 0 then -v[i] else v[i]);
    }
  }
}
