/** Text cut at a separator character, and put back together. */
module Text {

  predicate Free(sep: char, s: string) {
    forall i :: 0 <= i < |s| ==> s[i] != sep
  }

  /** strings.Split on a one-character separator. */
  function Split(sep: char, s: string): (parts: seq<string>)
    ensures |parts| > 0
  {
    if s == "" then [""]
    else
      var rest := Split(sep, s[1..]);
      if s[0] == sep then [""] + rest else [[s[0]] + rest[0]] + rest[1..]
  }

  /** strings.Join. */
  function Join(sep: char, parts: seq<string>): string {
    if parts == [] then ""
    else if |parts| == 1 then parts[0]
    else parts[0] + [sep] + Join(sep, parts[1..])
  }

  lemma {:induction false} JoinAppends(sep: char, parts: seq<string>, p: string)
    ensures Join(sep, parts + [p]) == if parts == [] then p else Join(sep, parts) + [sep] + p
  {
    if |parts| == 1 {
      assert parts + [p] == [parts[0], p] && [parts[0], p][1..] == [p];
    } else if |parts| > 1 {
      JoinAppends(sep, parts[1..], p);
      assert (parts + [p])[1..] == parts[1..] + [p];
    }
  }

  function Separators(sep: char, s: string): nat {
    if s == "" then 0 else (if s[0] == sep then 1 else 0) + Separators(sep, s[1..])
  }

  lemma {:induction false} SplitJoinsBack(sep: char, s: string)
    ensures |Split(sep, s)| == Separators(sep, s) + 1 && Join(sep, Split(sep, s)) == s
    ensures forall i :: 0 <= i < |Split(sep, s)| ==> Free(sep, Split(sep, s)[i])
  {
    if s != "" {
      SplitJoinsBack(sep, s[1..]);
      var rest := Split(sep, s[1..]);
      if s[0] == sep {
        assert Split(sep, s)[1..] == rest;
      } else {
        assert Split(sep, s)[1..] == rest[1..];
        assert forall i :: 0 < i < |rest| ==> Split(sep, s)[i] == rest[i];
      }
      assert s == [s[0]] + s[1..];
    }
  }

  lemma {:induction false} SplitHead(sep: char, part: string, rest: string)
    requires Free(sep, part)
    ensures Split(sep, part) == [part] && Split(sep, part + [sep] + rest) == [part] + Split(sep, rest)
  {
    var s := part + [sep] + rest;
    if part == "" {
      assert s[1..] == rest;
    } else {
      SplitHead(sep, part[1..], rest);
      assert s[1..] == part[1..] + [sep] + rest;
      assert part == [part[0]] + part[1..];
    }
  }

  /** Parts without the separator come back from their join unchanged. */
  lemma {:induction false} JoinSplitsBack(sep: char, parts: seq<string>)
    requires parts != [] && forall i :: 0 <= i < |parts| ==> Free(sep, parts[i])
    ensures Split(sep, Join(sep, parts)) == parts
  {
    SplitHead(sep, parts[0], Join(sep, parts[1..]));
    if |parts| > 1 {
      JoinSplitsBack(sep, parts[1..]);
      assert parts == [parts[0]] + parts[1..];
    } else {
      assert parts == [parts[0]];
    }
  }

  lemma FirstSeparator(sep: char, a: string, s: string)
    requires Free(sep, a) && a + [sep] <= s
    ensures s[|a|] == sep && forall i :: 0 <= i < |a| ==> s[i] != sep
  {
    assert forall i :: 0 <= i < |a| ==> s[i] == a[i];
  }

  /** The first separator ends the first part. */
  lemma FirstPart(sep: char, a: string, b: string, x: string, y: string)
    requires Free(sep, a) && Free(sep, b) && a + [sep] + x == b + [sep] + y
    ensures a == b && x == y
  {
    var s, t := a + [sep] + x, b + [sep] + y;
    FirstSeparator(sep, a, s);
    FirstSeparator(sep, b, t);
    assert |a| == |b|;
    assert a == s[..|a|] && b == t[..|b|];
    assert x == s[|a| + 1..] && y == t[|b| + 1..];
  }
}
