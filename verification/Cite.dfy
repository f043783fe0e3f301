/** The citation gate of packages/shared/agent/cite.go, over positions of the answer text. */
module Cite {

  predicate Digit(c: char) {
    '0' <= c <= '9'
  }

  /** The end of the digits that start at i. */
  function DigitsEnd(text: string, i: nat): (e: nat)
    requires i <= |text|
    ensures i <= e <= |text|
    ensures forall k :: i <= k < e ==> Digit(text[k])
    ensures e < |text| ==> !Digit(text[e])
    decreases |text| - i
  {
    if i < |text| && Digit(text[i]) then DigitsEnd(text, i + 1) else i
  }

  /** The pattern \[(\d+)\] matches at lo. */
  predicate MarkerAt(text: string, lo: nat) {
    lo < |text| && text[lo] == '[' &&
    var e := DigitsEnd(text, lo + 1);
    lo + 1 < e < |text| && text[e] == ']'
  }

  function MarkerEnd(text: string, lo: nat): (hi: nat)
    requires MarkerAt(text, lo)
    ensures lo + 3 <= hi <= |text|
  {
    DigitsEnd(text, lo + 1) + 1
  }

  function Decimal(text: string, i: nat, e: nat): nat
    requires i <= e <= |text| && forall k :: i <= k < e ==> Digit(text[k])
  {
    if i == e then 0
    else
      assert Digit(text[e - 1]);
      10 * Decimal(text, i, e - 1) + (text[e - 1] as int - '0' as int)
  }

  /** The number a marker writes. */
  function Value(text: string, lo: nat): nat
    requires MarkerAt(text, lo)
  {
    Decimal(text, lo + 1, MarkerEnd(text, lo) - 1)
  }

  /** What a following [n] would index. A full stop is not among them. */
  predicate Subscripted(c: char) {
    'a' <= c <= 'z' || 'A' <= c <= 'Z' || '0' <= c <= '9' || c == '_' || c == ')' || c == ']' || c == '}'
  }

  /** A marker that indexes nothing: nothing indexable before it, or another such marker. */
  ghost predicate Standalone(text: string, lo: nat)
    decreases lo
  {
    MarkerAt(text, lo) &&
    (lo == 0 || !Subscripted(text[lo - 1]) ||
     exists l: nat :: l < lo && Standalone(text, l) && MarkerEnd(text, l) == lo)
  }

  /** After a name, a number, a call or a block, brackets quote code and are left as they are. */
  lemma CodeIsNotCited(text: string, lo: nat)
    requires MarkerAt(text, lo) && lo > 0
    requires var c := text[lo - 1];
      'a' <= c <= 'z' || 'A' <= c <= 'Z' || '0' <= c <= '9' || c in "_)}"
    ensures !Standalone(text, lo)
  {
    assert text[lo - 1] != ']';
  }

  /** At the start, after space or punctuation, an opening bracket or a full stop, they cite; and
      so does a marker that another one that stands alone runs into. */
  lemma ProseIsCited(text: string, lo: nat)
    requires MarkerAt(text, lo)
    ensures lo == 0 || text[lo - 1] in " \n\t.,;:!?-([{\"'*" ==> Standalone(text, lo)
    ensures forall l: nat :: l < lo && Standalone(text, l) && MarkerEnd(text, l) == lo ==> Standalone(text, lo)
  {
  }

  /** It names the span read at position Value - 1. */
  ghost predicate Resolves(text: string, read: nat, lo: nat) {
    Standalone(text, lo) && 1 <= Value(text, lo) <= read
  }

  ghost predicate Drops(text: string, read: nat, lo: nat) {
    Standalone(text, lo) && !(1 <= Value(text, lo) <= read)
  }

  ghost predicate Removed(text: string, read: nat, p: nat) {
    exists lo: nat :: Drops(text, read, lo) && lo <= p < MarkerEnd(text, lo)
  }

  /** The first k characters without those of dropped markers. */
  ghost function Keep(text: string, read: nat, k: nat): string
    requires k <= |text|
  {
    if k == 0 then ""
    else Keep(text, read, k - 1) + (if Removed(text, read, k - 1) then "" else [text[k - 1]])
  }

  ghost function DropSet(text: string, read: nat): set<nat> {
    set lo: nat | lo < |text| && Drops(text, read, lo)
  }

  /** Duplicate-free, exactly the resolved positions, in order of first appearance. */
  ghost predicate InOrder(text: string, read: nat, order: seq<nat>) {
    && (forall a, b :: 0 <= a < b < |order| ==> order[a] != order[b])
    && (forall a :: 0 <= a < |order| ==> Cites(text, read, order[a]))
    && (forall lo: nat, n: nat {:trigger Listed(text, read, order, lo, n)} ::
          Names(text, read, lo, n) ==> Listed(text, read, order, lo, n))
  }

  /** The marker at lo stands alone and cites read position n. */
  ghost predicate Names(text: string, read: nat, lo: nat, n: nat) {
    Resolves(text, read, lo) && Value(text, lo) - 1 == n
  }

  /** The marker at lo cites n: n is listed, and whatever is listed before n was cited before lo. */
  ghost predicate Listed(text: string, read: nat, order: seq<nat>, lo: nat, n: nat) {
    n in order && forall a, b :: 0 <= a < b < |order| && order[b] == n ==> CitedBefore(text, read, order[a], lo)
  }

  ghost predicate Cites(text: string, read: nat, k: nat) {
    exists lo: nat :: Names(text, read, lo, k)
  }

  ghost predicate CitedBefore(text: string, read: nat, k: nat, lo: nat) {
    exists l: nat :: l < lo && Names(text, read, l, k)
  }

  // ---------- the scan ----------

  /** One submatch index: the group's bounds and the number between its brackets. */
  datatype Match = Match(lo: nat, hi: nat, value: nat)

  /** FindAllStringSubmatchIndex: leftmost, non-overlapping. */
  function Matches(text: string, from: nat): seq<Match>
    requires from <= |text|
    decreases |text| - from
  {
    if from == |text| then []
    else if MarkerAt(text, from) then
      var hi := MarkerEnd(text, from);
      [Match(from, hi, Value(text, from))] + Matches(text, hi)
    else Matches(text, from + 1)
  }

  /** Non-empty intervals of a text of n characters, in order and apart. */
  ghost predicate Laid(ms: seq<Match>, n: nat) {
    && (forall i :: 0 <= i < |ms| ==> ms[i].lo < ms[i].hi <= n)
    && (forall i, j :: 0 <= i < j < |ms| ==> ms[i].hi <= ms[j].lo)
  }

  lemma {:induction false} MatchesLaid(text: string, from: nat)
    requires from <= |text|
    ensures Laid(Matches(text, from), |text|)
    ensures forall i :: 0 <= i < |Matches(text, from)| ==> from <= Matches(text, from)[i].lo
    decreases |text| - from
  {
    if from < |text| {
      MatchesLaid(text, if MarkerAt(text, from) then MarkerEnd(text, from) else from + 1);
    }
  }

  ghost predicate Is(text: string, m: Match) {
    MarkerAt(text, m.lo) && m.hi == MarkerEnd(text, m.lo) && m.value == Value(text, m.lo)
  }

  lemma {:induction false} MatchIs(text: string, from: nat, i: nat)
    requires from <= |text| && i < |Matches(text, from)|
    ensures Is(text, Matches(text, from)[i])
    decreases |text| - from
  {
    if !MarkerAt(text, from) {
      MatchIs(text, from + 1, i);
    } else if i > 0 {
      MatchIs(text, MarkerEnd(text, from), i - 1);
    }
  }

  /** No marker is missed. */
  lemma {:induction false} MatchIndex(text: string, from: nat, lo: nat) returns (k: nat)
    requires from <= lo && MarkerAt(text, lo)
    ensures k < |Matches(text, from)| && Matches(text, from)[k].lo == lo
    decreases |text| - from
  {
    if from == lo {
      k := 0;
    } else if MarkerAt(text, from) {
      k := MatchIndex(text, MarkerEnd(text, from), lo);
      k := k + 1;
    } else {
      k := MatchIndex(text, from + 1, lo);
    }
  }

  // ---------- the fates of the matches ----------

  const OTHER: int := -2
  const GONE: int := -1

  /** A match's bounds and fate: OTHER is a subscript, GONE is dropped, anything else is the
      read position cited. */
  datatype Group = Group(lo: nat, hi: nat, fate: int)

  /** A match stands alone by the character before it, or by the match just before it. */
  predicate StandsAfter(text: string, before: seq<Group>, lo: nat)
    requires lo < |text|
  {
    lo == 0 || !Subscripted(text[lo - 1]) ||
    (before != [] && before[|before| - 1].fate != OTHER && before[|before| - 1].hi == lo)
  }

  function Judge(text: string, read: nat, before: seq<Group>, m: Match): Group
    requires m.lo < |text|
  {
    Group(m.lo, m.hi,
          if !StandsAfter(text, before, m.lo) then OTHER else if 1 <= m.value <= read then m.value - 1 else GONE)
  }

  /** gs judges every match in turn. */
  ghost predicate Judged(text: string, read: nat, ms: seq<Match>, gs: seq<Group>) {
    && Laid(ms, |text|) && |gs| == |ms|
    && forall i :: 0 <= i < |ms| ==> JudgedAt(text, read, ms, gs, i)
  }

  ghost predicate JudgedAt(text: string, read: nat, ms: seq<Match>, gs: seq<Group>, i: nat)
    requires i < |gs| == |ms| && ms[i].lo < |text|
  {
    gs[i] == Judge(text, read, gs[..i], ms[i])
  }

  ghost function Groups(text: string, read: nat, ms: seq<Match>): (gs: seq<Group>)
    requires Laid(ms, |text|)
    ensures |gs| == |ms|
  {
    if ms == [] then []
    else
      var n := |ms| - 1;
      var gs := Groups(text, read, ms[..n]);
      gs + [Judge(text, read, gs, ms[n])]
  }

  /** Judging one match more leaves the judgements before it as they were. */
  lemma JudgedAppends(text: string, read: nat, ms: seq<Match>, gs: seq<Group>, m: Match)
    requires Judged(text, read, ms, gs) && Laid(ms + [m], |text|) && m.lo < |text|
    ensures Judged(text, read, ms + [m], gs + [Judge(text, read, gs, m)])
  {
    var all := gs + [Judge(text, read, gs, m)];
    forall i | 0 <= i < |all| ensures JudgedAt(text, read, ms + [m], all, i) {
      assert all[..i] == gs[..i];
      if i < |gs| {
        assert JudgedAt(text, read, ms, gs, i);
      } else {
        assert gs[..i] == gs;
      }
    }
  }

  lemma {:induction false} GroupsJudge(text: string, read: nat, ms: seq<Match>)
    requires Laid(ms, |text|)
    ensures Judged(text, read, ms, Groups(text, read, ms))
  {
    if ms != [] {
      var n := |ms| - 1;
      GroupsJudge(text, read, ms[..n]);
      assert ms == ms[..n] + [ms[n]];
      JudgedAppends(text, read, ms[..n], Groups(text, read, ms[..n]), ms[n]);
    }
  }

  ghost predicate InPlace(gs: seq<Group>, n: nat) {
    && (forall i :: 0 <= i < |gs| ==> gs[i].lo < gs[i].hi <= n)
    && (forall i, j :: 0 <= i < j < |gs| ==> gs[i].hi <= gs[j].lo)
  }

  ghost predicate GoneAt(gs: seq<Group>, p: nat) {
    exists i :: 0 <= i < |gs| && gs[i].fate == GONE && gs[i].lo <= p < gs[i].hi
  }

  /** Keep, by intervals. */
  ghost function KeepBy(text: string, gs: seq<Group>, k: nat): string
    requires k <= |text|
  {
    if k == 0 then ""
    else KeepBy(text, gs, k - 1) + (if GoneAt(gs, k - 1) then "" else [text[k - 1]])
  }

  lemma {:induction false} KeepPlain(text: string, gs: seq<Group>, a: nat, b: nat)
    requires a <= b <= |text| && forall p: nat :: a <= p < b ==> !GoneAt(gs, p)
    ensures KeepBy(text, gs, b) == KeepBy(text, gs, a) + text[a..b]
    decreases b
  {
    if a < b {
      KeepPlain(text, gs, a, b - 1);
      assert text[a..b] == text[a..b - 1] + [text[b - 1]];
    }
  }

  lemma {:induction false} KeepGone(text: string, gs: seq<Group>, a: nat, b: nat)
    requires a <= b <= |text| && forall p: nat :: a <= p < b ==> GoneAt(gs, p)
    ensures KeepBy(text, gs, b) == KeepBy(text, gs, a)
    decreases b
  {
    if a < b {
      KeepGone(text, gs, a, b - 1);
    }
  }

  /** Where the unwritten rest begins after i groups. */
  ghost function KeptAfter(gs: seq<Group>, i: nat): nat
    requires i <= |gs|
  {
    if i == 0 then 0 else if gs[i - 1].fate == GONE then gs[i - 1].hi else KeptAfter(gs, i - 1)
  }

  lemma {:induction false} KeptBounds(gs: seq<Group>, i: nat, n: nat)
    requires i <= |gs| && InPlace(gs, n)
    ensures KeptAfter(gs, i) <= (if i < |gs| then gs[i].lo else n)
    ensures forall k :: 0 <= k < i && gs[k].fate == GONE ==> gs[k].hi <= KeptAfter(gs, i)
  {
    if i > 0 {
      KeptBounds(gs, i - 1, n);
    }
  }

  lemma NoneGone(gs: seq<Group>, i: nat, n: nat, p: nat)
    requires i <= |gs| && InPlace(gs, n) && KeptAfter(gs, i) <= p && (i < |gs| ==> p < gs[i].lo)
    ensures !GoneAt(gs, p)
  {
    KeptBounds(gs, i, n);
    forall k | 0 <= k < |gs| && gs[k].fate == GONE ensures !(gs[k].lo <= p < gs[k].hi) {
      if i < k {
        assert gs[i].hi <= gs[k].lo;
      }
    }
  }

  /** What has been written after i groups is the kept text so far. */
  lemma CutStep(text: string, gs: seq<Group>, i: nat, kept: nat, lo: nat, hi: nat)
    requires i < |gs| && InPlace(gs, |text|) && gs[i] == Group(lo, hi, GONE) && kept == KeptAfter(gs, i)
    ensures kept <= lo && KeepBy(text, gs, hi) == KeepBy(text, gs, kept) + text[kept..lo]
  {
    KeptBounds(gs, i, |text|);
    forall p: nat | kept <= p < lo ensures !GoneAt(gs, p) {
      NoneGone(gs, i, |text|, p);
    }
    KeepPlain(text, gs, kept, lo);
    assert forall p: nat :: lo <= p < hi ==> GoneAt(gs, p);
    KeepGone(text, gs, lo, hi);
  }

  lemma CutEnds(text: string, gs: seq<Group>, kept: nat)
    requires InPlace(gs, |text|) && kept == KeptAfter(gs, |gs|)
    ensures kept <= |text| && KeepBy(text, gs, |text|) == KeepBy(text, gs, kept) + text[kept..]
  {
    KeptBounds(gs, |gs|, |text|);
    var n := |text|;
    forall p: nat | kept <= p < n ensures !GoneAt(gs, p) {
      NoneGone(gs, |gs|, n, p);
    }
    KeepPlain(text, gs, kept, n);
  }

  /** The positions dropped among the first i groups. */
  ghost function GoneBy(gs: seq<Group>, i: nat): set<nat>
    requires i <= |gs|
  {
    if i == 0 then {} else GoneBy(gs, i - 1) + (if gs[i - 1].fate == GONE then {gs[i - 1].lo} else {})
  }

  function CountGone(gs: seq<Group>, i: nat): nat
    requires i <= |gs|
  {
    if i == 0 then 0 else CountGone(gs, i - 1) + (if gs[i - 1].fate == GONE then 1 else 0)
  }

  lemma {:induction false} CountIsSize(gs: seq<Group>, i: nat, n: nat)
    requires i <= |gs| && InPlace(gs, n)
    ensures CountGone(gs, i) == |GoneBy(gs, i)|
  {
    if i > 0 {
      CountIsSize(gs, i - 1, n);
      GoneByGrows(gs, i - 1, n);
    }
  }

  lemma {:induction false} GoneByMembers(gs: seq<Group>, i: nat)
    requires i <= |gs|
    ensures forall lo :: lo in GoneBy(gs, i) <==> exists k :: 0 <= k < i && gs[k].fate == GONE && gs[k].lo == lo
  {
    if i > 0 {
      GoneByMembers(gs, i - 1);
    }
  }

  lemma GoneByGrows(gs: seq<Group>, i: nat, n: nat)
    requires i < |gs| && InPlace(gs, n)
    ensures gs[i].lo !in GoneBy(gs, i)
  {
    GoneByMembers(gs, i);
  }

  /** First appearances, collected one group at a time. */
  ghost function FirstsOf(gs: seq<Group>, i: nat): seq<nat>
    requires i <= |gs|
  {
    if i == 0 then []
    else
      var order := FirstsOf(gs, i - 1);
      if gs[i - 1].fate >= 0 && gs[i - 1].fate !in order then order + [gs[i - 1].fate] else order
  }

  ghost predicate FateBefore(gs: seq<Group>, i: nat, n: nat)
    requires i <= |gs|
  {
    exists k :: 0 <= k < i && gs[k].fate == n
  }

  lemma {:induction false} FirstsOfAreFirst(gs: seq<Group>, i: nat)
    requires i <= |gs|
    ensures var order := FirstsOf(gs, i);
      && (forall a, b :: 0 <= a < b < |order| ==> order[a] != order[b])
      && (forall k :: 0 <= k < i && gs[k].fate >= 0 ==> gs[k].fate in order)
      && (forall a {:trigger FateBefore(gs, i, order[a])} :: 0 <= a < |order| ==> FateBefore(gs, i, order[a]))
      && (forall a, b, k {:trigger FateBefore(gs, k, order[a]), order[b]} ::
            0 <= a < b < |order| && 0 <= k < i && gs[k].fate == order[b] ==> FateBefore(gs, k, order[a]))
  {
    if i > 0 {
      FirstsOfAreFirst(gs, i - 1);
      var was, order := FirstsOf(gs, i - 1), FirstsOf(gs, i);
      forall a | 0 <= a < |was| ensures FateBefore(gs, i, was[a]) {
        assert FateBefore(gs, i - 1, was[a]);
        var k :| 0 <= k < i - 1 && gs[k].fate == was[a];
      }
    }
  }

  // ---------- the loop ----------

  /** What the loop's prev holds before match i: the end of the match before, when that one
      stood alone, and otherwise something too small to matter. */
  ghost predicate PrevOk(gs: seq<Group>, i: nat, prev: int)
    requires i <= |gs|
  {
    if i == 0 then prev == -1
    else if gs[i - 1].fate != OTHER then prev == gs[i - 1].hi
    else prev <= gs[i - 1].lo
  }

  /** The loop's test decides which matches stand alone. */
  lemma ScanDecides(text: string, read: nat, ms: seq<Match>, gs: seq<Group>, i: nat, prev: int)
    requires Judged(text, read, ms, gs) && InPlace(gs, |text|) && i < |gs| && PrevOk(gs, i, prev)
    ensures gs[i].lo == ms[i].lo < |text| && gs[i].hi == ms[i].hi
    ensures var stands := !(ms[i].lo > 0 && ms[i].lo != prev && Subscripted(text[ms[i].lo - 1]));
      && gs[i].fate == (if !stands then OTHER else if 1 <= ms[i].value <= read then ms[i].value - 1 else GONE)
      && PrevOk(gs, i + 1, if stands then gs[i].hi else prev)
  {
    assert JudgedAt(text, read, ms, gs, i);
    if i > 0 {
      assert gs[..i][|gs[..i]| - 1] == gs[i - 1];
    }
  }

  /** The loop's variables. */
  datatype Scan = Scan(out: string, order: seq<nat>, dropped: nat, kept: nat)

  function Advance(text: string, s: Scan, g: Group): Scan
    requires g.fate == GONE ==> s.kept <= g.lo <= |text|
  {
    if g.fate == GONE then Scan(s.out + text[s.kept..g.lo], s.order, s.dropped + 1, g.hi)
    else if g.fate >= 0 && g.fate !in s.order then s.(order := s.order + [g.fate])
    else s
  }

  ghost function ScanTo(text: string, gs: seq<Group>, i: nat): (s: Scan)
    requires i <= |gs| && InPlace(gs, |text|)
    ensures s.kept == KeptAfter(gs, i)
  {
    if i == 0 then Scan("", [], 0, 0)
    else
      KeptBounds(gs, i - 1, |text|);
      Advance(text, ScanTo(text, gs, i - 1), gs[i - 1])
  }

  /** What each fate does to the loop's variables. */
  lemma ScanStep(text: string, gs: seq<Group>, i: nat, s: Scan)
    requires i < |gs| && InPlace(gs, |text|) && ScanTo(text, gs, i) == s
    ensures gs[i].fate == OTHER ==> ScanTo(text, gs, i + 1) == s
    ensures gs[i].fate == GONE ==> s.kept <= gs[i].lo <= |text|
    ensures gs[i].fate == GONE ==>
      ScanTo(text, gs, i + 1) == Scan(s.out + text[s.kept..gs[i].lo], s.order, s.dropped + 1, gs[i].hi)
    ensures gs[i].fate >= 0 ==>
      ScanTo(text, gs, i + 1) == s.(order := if gs[i].fate in s.order then s.order else s.order + [gs[i].fate])
  {
    KeptBounds(gs, i, |text|);
  }

  lemma {:induction false} ScanWrites(text: string, gs: seq<Group>, i: nat)
    requires i <= |gs| && InPlace(gs, |text|)
    ensures ScanTo(text, gs, i).kept <= |text|
    ensures ScanTo(text, gs, i).out == KeepBy(text, gs, ScanTo(text, gs, i).kept)
  {
    KeptBounds(gs, i, |text|);
    if i > 0 {
      ScanWrites(text, gs, i - 1);
      var g := gs[i - 1];
      if g.fate == GONE {
        CutStep(text, gs, i - 1, KeptAfter(gs, i - 1), g.lo, g.hi);
      }
    }
  }

  lemma {:induction false} ScanCounts(text: string, gs: seq<Group>, i: nat)
    requires i <= |gs| && InPlace(gs, |text|)
    ensures ScanTo(text, gs, i).dropped == CountGone(gs, i)
  {
    if i > 0 {
      ScanCounts(text, gs, i - 1);
    }
  }

  lemma {:induction false} ScanOrders(text: string, gs: seq<Group>, i: nat)
    requires i <= |gs| && InPlace(gs, |text|)
    ensures ScanTo(text, gs, i).order == FirstsOf(gs, i)
  {
    if i > 0 {
      ScanOrders(text, gs, i - 1);
    }
  }

  lemma ScanEnds(text: string, gs: seq<Group>, s: Scan)
    requires InPlace(gs, |text|) && ScanTo(text, gs, |gs|) == s
    ensures s.kept <= |text| && s.out + text[s.kept..] == KeepBy(text, gs, |text|)
    ensures s.order == FirstsOf(gs, |gs|) && s.dropped == CountGone(gs, |gs|)
  {
    ScanWrites(text, gs, |gs|);
    ScanCounts(text, gs, |gs|);
    ScanOrders(text, gs, |gs|);
    CutEnds(text, gs, s.kept);
  }

  lemma JudgedInPlace(text: string, read: nat, ms: seq<Match>, gs: seq<Group>)
    requires Judged(text, read, ms, gs)
    ensures InPlace(gs, |text|)
  {
    forall i | 0 <= i < |gs| ensures gs[i].lo == ms[i].lo && gs[i].hi == ms[i].hi {
      assert JudgedAt(text, read, ms, gs, i);
    }
  }

  /** Resolve's loop, over the matches already found. */
  method Rewrite(text: string, read: nat, ms: seq<Match>, ghost gs: seq<Group>)
    returns (out: string, order: seq<nat>, dropped: nat)
    requires Judged(text, read, ms, gs)
    ensures out == KeepBy(text, gs, |text|)
    ensures order == FirstsOf(gs, |gs|) && dropped == CountGone(gs, |gs|)
  {
    out, order, dropped := "", [], 0;
    var seen: set<nat> := {};
    var kept: nat := 0;
    var prev: int := -1;
    JudgedInPlace(text, read, ms, gs);
    var i := 0;
    while i < |ms|
      invariant i <= |ms| && PrevOk(gs, i, prev)
      invariant ScanTo(text, gs, i) == Scan(out, order, dropped, kept)
      invariant forall k :: k in seen <==> k in order
    {
      var m := ms[i];
      ScanDecides(text, read, ms, gs, i, prev);
      ScanStep(text, gs, i, Scan(out, order, dropped, kept));
      i := i + 1;
      if m.lo > 0 && m.lo != prev && Subscripted(text[m.lo - 1]) {
        assert ScanTo(text, gs, i) == Scan(out, order, dropped, kept);
        continue;
      }
      prev := m.hi;
      if m.value < 1 || m.value > read {
        dropped := dropped + 1;
        out := out + text[kept..m.lo];
        kept := m.hi;
        assert ScanTo(text, gs, i) == Scan(out, order, dropped, kept);
        continue;
      }
      if m.value - 1 !in seen {
        seen := seen + {m.value - 1};
        order := order + [m.value - 1];
      }
    }
    ScanEnds(text, gs, Scan(out, order, dropped, kept));
    out := out + text[kept..];
  }

  // ---------- back to positions of the text ----------

  /** Each match's own test is the definition. */
  lemma {:induction false} StandsIsStandalone(text: string, read: nat, ms: seq<Match>, gs: seq<Group>, i: nat)
    requires ms == Matches(text, 0) && Judged(text, read, ms, gs) && i < |gs|
    ensures Is(text, ms[i]) && gs[i].lo == ms[i].lo && gs[i].hi == ms[i].hi
    ensures gs[i].fate != OTHER <==> Standalone(text, ms[i].lo)
  {
    MatchIs(text, 0, i);
    var lo := ms[i].lo;
    assert JudgedAt(text, read, ms, gs, i);
    if i > 0 {
      StandsIsStandalone(text, read, ms, gs, i - 1);
      assert gs[..i][|gs[..i]| - 1] == gs[i - 1];
    }
    if l: nat :| l < lo && Standalone(text, l) && MarkerEnd(text, l) == lo {
      PreviousEnds(text, ms, i, l);
    }
  }

  /** Only the match just before can end where a match begins. */
  lemma PreviousEnds(text: string, ms: seq<Match>, i: nat, l: nat)
    requires ms == Matches(text, 0) && Laid(ms, |text|) && i < |ms|
    requires MarkerAt(text, l) && MarkerEnd(text, l) == ms[i].lo
    ensures i > 0 && ms[i - 1].lo == l && ms[i - 1].hi == ms[i].lo
  {
    var k := MatchIndex(text, 0, l);
    MatchIs(text, 0, k);
    Neighbours(ms, |text|, k, i);
  }

  lemma Neighbours(ms: seq<Match>, n: nat, k: nat, i: nat)
    requires Laid(ms, n) && k < |ms| && i < |ms| && ms[k].hi == ms[i].lo
    ensures k == i - 1
  {
    if i > 0 {
      var p := ms[i - 1];
      assert p.lo < p.hi <= ms[i].lo;
    }
  }

  /** g is a group of the text, with the fate its marker has there. */
  ghost predicate TrueTo(text: string, read: nat, g: Group) {
    && MarkerAt(text, g.lo) && g.hi == MarkerEnd(text, g.lo)
    && (g.fate == GONE <==> Drops(text, read, g.lo))
    && (g.fate >= 0 <==> Resolves(text, read, g.lo))
    && (g.fate >= 0 ==> g.fate == Value(text, g.lo) - 1)
  }

  ghost predicate Begins(gs: seq<Group>, lo: nat) {
    exists k :: 0 <= k < |gs| && gs[k].lo == lo
  }

  /** gs lists the markers of the text with their fates. */
  ghost predicate Truthful(text: string, read: nat, gs: seq<Group>) {
    && InPlace(gs, |text|)
    && (forall i :: 0 <= i < |gs| ==> TrueTo(text, read, gs[i]))
    && (forall lo: nat {:trigger Begins(gs, lo)} :: MarkerAt(text, lo) ==> Begins(gs, lo))
  }

  lemma GroupsAreTruthful(text: string, read: nat, ms: seq<Match>, gs: seq<Group>)
    requires ms == Matches(text, 0) && Judged(text, read, ms, gs)
    ensures Truthful(text, read, gs)
  {
    JudgedInPlace(text, read, ms, gs);
    forall i | 0 <= i < |gs| ensures TrueTo(text, read, gs[i]) {
      StandsIsStandalone(text, read, ms, gs, i);
      assert JudgedAt(text, read, ms, gs, i);
    }
    forall lo: nat | MarkerAt(text, lo) ensures Begins(gs, lo) {
      var k := MatchIndex(text, 0, lo);
      assert JudgedAt(text, read, ms, gs, k);
    }
  }

  lemma GoneIsRemoved(text: string, read: nat, gs: seq<Group>, p: nat)
    requires Truthful(text, read, gs)
    ensures GoneAt(gs, p) <==> Removed(text, read, p)
  {
    if GoneAt(gs, p) {
      var i :| 0 <= i < |gs| && gs[i].fate == GONE && gs[i].lo <= p < gs[i].hi;
      assert TrueTo(text, read, gs[i]);
    }
    if lo: nat :| Drops(text, read, lo) && lo <= p < MarkerEnd(text, lo) {
      assert Begins(gs, lo);
      var i :| 0 <= i < |gs| && gs[i].lo == lo;
      assert TrueTo(text, read, gs[i]);
    }
  }

  lemma {:induction false} KeepByIsKeep(text: string, read: nat, gs: seq<Group>, k: nat)
    requires k <= |text| && forall p: nat :: GoneAt(gs, p) <==> Removed(text, read, p)
    ensures KeepBy(text, gs, k) == Keep(text, read, k)
  {
    if k > 0 {
      KeepByIsKeep(text, read, gs, k - 1);
    }
  }

  lemma GoneByAll(text: string, read: nat, gs: seq<Group>)
    requires Truthful(text, read, gs)
    ensures GoneBy(gs, |gs|) == DropSet(text, read)
  {
    GoneByMembers(gs, |gs|);
    forall lo: nat ensures lo in GoneBy(gs, |gs|) <==> lo in DropSet(text, read) {
      if lo in GoneBy(gs, |gs|) {
        var k :| 0 <= k < |gs| && gs[k].fate == GONE && gs[k].lo == lo;
        assert TrueTo(text, read, gs[k]);
      }
      if lo in DropSet(text, read) {
        assert Begins(gs, lo);
        var k :| 0 <= k < |gs| && gs[k].lo == lo;
        assert TrueTo(text, read, gs[k]);
      }
    }
  }

  /** An earlier fate of n is a citation of n before group k. */
  lemma FateCites(text: string, read: nat, gs: seq<Group>, k: nat, n: nat)
    requires Truthful(text, read, gs) && k <= |gs| && FateBefore(gs, k, n)
    ensures Cites(text, read, n) && n < read
    ensures k < |gs| ==> CitedBefore(text, read, n, gs[k].lo)
  {
    var j :| 0 <= j < k && gs[j].fate == n;
    assert TrueTo(text, read, gs[j]);
    assert Names(text, read, gs[j].lo, n);
  }

  lemma ListedAfter(gs: seq<Group>, order: seq<nat>, k: nat, a: nat, b: nat)
    requires order == FirstsOf(gs, |gs|) && k < |gs| && a < b < |order| && gs[k].fate == order[b]
    ensures FateBefore(gs, k, order[a])
  {
    FirstsOfAreFirst(gs, |gs|);
  }

  lemma FateListed(gs: seq<Group>, order: seq<nat>, k: nat)
    requires order == FirstsOf(gs, |gs|) && k < |gs| && gs[k].fate >= 0
    ensures gs[k].fate in order
  {
    FirstsOfAreFirst(gs, |gs|);
  }

  lemma NamedGroup(text: string, read: nat, gs: seq<Group>, lo: nat, n: nat) returns (k: nat)
    requires Truthful(text, read, gs) && Names(text, read, lo, n)
    ensures k < |gs| && gs[k].lo == lo && gs[k].fate == n
  {
    assert Begins(gs, lo);
    k :| 0 <= k < |gs| && gs[k].lo == lo;
    assert TrueTo(text, read, gs[k]);
  }

  lemma CitationListed(text: string, read: nat, gs: seq<Group>, order: seq<nat>, lo: nat, n: nat)
    requires Truthful(text, read, gs) && order == FirstsOf(gs, |gs|) && Names(text, read, lo, n)
    ensures Listed(text, read, order, lo, n)
  {
    var k := NamedGroup(text, read, gs, lo, n);
    FateListed(gs, order, k);
    forall a, b | 0 <= a < b < |order| && order[b] == n ensures CitedBefore(text, read, order[a], lo) {
      ListedAfter(gs, order, k, a, b);
      FateCites(text, read, gs, k, order[a]);
    }
  }

  lemma FirstsInOrder(text: string, read: nat, gs: seq<Group>, order: seq<nat>)
    requires Truthful(text, read, gs) && order == FirstsOf(gs, |gs|)
    ensures InOrder(text, read, order) && forall k :: k in order ==> k < read
  {
    FirstsOfAreFirst(gs, |gs|);
    forall a | 0 <= a < |order| ensures Cites(text, read, order[a]) && order[a] < read {
      assert FateBefore(gs, |gs|, order[a]);
      FateCites(text, read, gs, |gs|, order[a]);
    }
    forall lo: nat, n: nat | Names(text, read, lo, n) ensures Listed(text, read, order, lo, n) {
      CitationListed(text, read, gs, order, lo, n);
    }
  }

  /** Resolve: the rewritten text, the cited positions, and how many markers were dropped. */
  method Resolve(text: string, read: nat) returns (out: string, order: seq<nat>, dropped: nat)
    ensures out == Keep(text, read, |text|)
    ensures InOrder(text, read, order)
    ensures forall k :: k in order ==> k < read
    ensures dropped == |DropSet(text, read)|
  {
    var ms := Matches(text, 0);
    MatchesLaid(text, 0);
    ghost var gs := Groups(text, read, ms);
    GroupsJudge(text, read, ms);
    GroupsAreTruthful(text, read, ms, gs);
    out, order, dropped := Rewrite(text, read, ms, gs);
    forall p: nat ensures GoneAt(gs, p) <==> Removed(text, read, p) {
      GoneIsRemoved(text, read, gs, p);
    }
    KeepByIsKeep(text, read, gs, |text|);
    GoneByAll(text, read, gs);
    CountIsSize(gs, |gs|, |text|);
    FirstsInOrder(text, read, gs, order);
  }
}
