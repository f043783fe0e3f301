/** What Resolve's output is worth as a text: when deleting markers can make a new one. */
module CiteOutput {
  import opened Cite

  /** Where the first k characters' survivors stood in the input. */
  ghost function Kept(text: string, read: nat, k: nat): seq<nat>
    requires k <= |text|
  {
    if k == 0 then []
    else Kept(text, read, k - 1) + (if Removed(text, read, k - 1) then [] else [k - 1])
  }

  /** at lists the survivors of text, in order, and out is what they spell. */
  ghost predicate Survivors(text: string, read: nat, k: nat, at: seq<nat>, out: string) {
    && |at| == |out|
    && (forall q :: 0 <= q < |at| ==> at[q] < k <= |text| && !Removed(text, read, at[q]) && out[q] == text[at[q]])
    && (forall q, r :: 0 <= q < r < |at| ==> at[q] < at[r])
    && (forall p: nat :: p < k && !Removed(text, read, p) ==> p in at)
  }

  lemma NoMoreSurvives(text: string, read: nat, k: nat, at: seq<nat>, out: string)
    requires k < |text| && Removed(text, read, k) && Survivors(text, read, k, at, out)
    ensures Survivors(text, read, k + 1, at, out)
  {
    forall p: nat | p < k + 1 && !Removed(text, read, p) ensures p in at {
      assert p < k;
    }
  }

  lemma OneMoreSurvives(text: string, read: nat, k: nat, at: seq<nat>, out: string)
    requires k < |text| && !Removed(text, read, k) && Survivors(text, read, k, at, out)
    ensures Survivors(text, read, k + 1, at + [k], out + [text[k]])
  {
    var at' := at + [k];
    assert forall q :: 0 <= q < |at| ==> at'[q] == at[q];
    forall p: nat | p < k + 1 && !Removed(text, read, p) ensures p in at' {
      assert p == k || p in at;
    }
  }

  lemma {:induction false} KeptAreSurvivors(text: string, read: nat, k: nat)
    requires k <= |text|
    ensures Survivors(text, read, k, Kept(text, read, k), Keep(text, read, k))
  {
    if k > 0 {
      var at, out := Kept(text, read, k - 1), Keep(text, read, k - 1);
      KeptAreSurvivors(text, read, k - 1);
      if Removed(text, read, k - 1) {
        NoMoreSurvives(text, read, k - 1, at, out);
        assert Kept(text, read, k) == at && Keep(text, read, k) == out;
      } else {
        OneMoreSurvives(text, read, k - 1, at, out);
      }
    }
  }

  /** Between neighbouring survivors everything went. */
  lemma BetweenIsGone(text: string, read: nat, at: seq<nat>, out: string, q: nat, p: nat)
    requires Survivors(text, read, |text|, at, out) && q + 1 < |at| && at[q] < p < at[q + 1]
    ensures Removed(text, read, p)
  {
    if !Removed(text, read, p) {
      var r :| 0 <= r < |at| && at[r] == p;
    }
  }

  /** The next survivor comes next. */
  lemma NextSurvivor(text: string, read: nat, at: seq<nat>, out: string, q: nat, p: nat)
    requires Survivors(text, read, |text|, at, out) && q < |at| && at[q] < p < |text| && !Removed(text, read, p)
    requires forall k: nat :: at[q] < k < p ==> Removed(text, read, k)
    ensures q + 1 < |at| && at[q + 1] == p
  {
    var r :| 0 <= r < |at| && at[r] == p;
    assert r > q;
    assert at[q + 1] <= p;
  }

  /** A deletion begins where a dropped marker does, and never after a digit. */
  lemma GapBegins(text: string, read: nat, p: nat)
    requires p + 1 < |text| && !Removed(text, read, p) && Removed(text, read, p + 1)
    ensures Drops(text, read, p + 1) && !Digit(text[p])
  {
    var lo: nat :| Drops(text, read, lo) && lo <= p + 1 < MarkerEnd(text, lo);
    assert lo == p + 1;
    if l: nat :| l < lo && Standalone(text, l) && MarkerEnd(text, l) == lo {
      assert text[p] == ']';
    }
  }

  lemma DigitIsFollowed(text: string, read: nat, at: seq<nat>, out: string, m: nat)
    requires Survivors(text, read, |text|, at, out) && m + 1 < |at| && Digit(out[m])
    ensures at[m + 1] == at[m] + 1
  {
    if at[m + 1] != at[m] + 1 {
      BetweenIsGone(text, read, at, out, m, at[m] + 1);
      GapBegins(text, read, at[m]);
    }
  }

  /** Digits that stand together in the output stood together in the input: one number. */
  lemma {:induction false} DigitsStay(text: string, read: nat, at: seq<nat>, out: string, q: nat, m: nat)
    requires Survivors(text, read, |text|, at, out) && q <= m < |at| && forall i :: q <= i < m ==> Digit(out[i])
    ensures at[m] == at[q] + (m - q) && forall p :: at[q] <= p < at[m] ==> Digit(text[p])
    ensures Decimal(text, at[q], at[m]) == Decimal(out, q, m)
  {
    if q < m {
      DigitsStay(text, read, at, out, q, m - 1);
      DigitIsFollowed(text, read, at, out, m - 1);
    }
  }

  lemma {:induction false} DigitsEndIs(text: string, i: nat, e: nat)
    requires i <= e < |text| && (forall k :: i <= k < e ==> Digit(text[k])) && !Digit(text[e])
    ensures DigitsEnd(text, i) == e
    decreases e - i
  {
    if i < e {
      DigitsEndIs(text, i + 1, e);
    }
  }

  /** A bracket, then nothing but dropped markers, then digits from e and a closing bracket:
      deleting the markers closes the bracket round the digits. */
  ghost predicate Splices(text: string, read: nat, a: nat, e: nat) {
    && a + 1 < e < |text| && text[a] == '[' && Drops(text, read, a + 1)
    && (forall p: nat :: a < p < e ==> Removed(text, read, p))
    && !Removed(text, read, e) && Digit(text[e])
    && var d := DigitsEnd(text, e); d < |text| && text[d] == ']'
  }

  ghost predicate Spliced(text: string, read: nat) {
    exists a: nat, e: nat :: Splices(text, read, a, e)
  }

  /** A number of the output and what ends it stood together in the input. */
  lemma NumberCameFromNumber(text: string, read: nat, at: seq<nat>, out: string, q: nat, e: nat)
    requires Survivors(text, read, |text|, at, out) && q < e < |out|
    requires (forall i :: q <= i < e ==> Digit(out[i])) && out[e] == ']'
    ensures DigitsEnd(text, at[q]) == at[e] == at[q] + (e - q) && text[at[e]] == ']'
    ensures forall p :: at[q] <= p < at[e] ==> Digit(text[p])
    ensures Decimal(text, at[q], at[e]) == Decimal(out, q, e)
  {
    DigitsStay(text, read, at, out, q, e);
    var i, j := at[q], at[e];
    assert i <= j < |text| && text[j] == ']';
    DigitsEndIs(text, i, j);
  }

  lemma GapSplices(text: string, read: nat, at: seq<nat>, out: string, q: nat)
    requires Survivors(text, read, |text|, at, out) && MarkerAt(out, q) && at[q + 1] != at[q] + 1
    ensures Splices(text, read, at[q], at[q + 1])
  {
    NumberCameFromNumber(text, read, at, out, q + 1, DigitsEnd(out, q + 1));
    forall p: nat | at[q] < p < at[q + 1] ensures Removed(text, read, p) {
      BetweenIsGone(text, read, at, out, q, p);
    }
    GapBegins(text, read, at[q]);
  }

  /** A marker of the output is a marker of the input, digit for digit, unless it was spliced. */
  lemma MarkerCameFromMarker(text: string, read: nat, at: seq<nat>, out: string, q: nat)
    requires Survivors(text, read, |text|, at, out) && MarkerAt(out, q)
    ensures at[q + 1] == at[q] + 1 ==>
      SameMarker(text, at[q], out, q) && at[MarkerEnd(out, q) - 1] == MarkerEnd(text, at[q]) - 1
    ensures at[q + 1] != at[q] + 1 ==> Splices(text, read, at[q], at[q + 1])
  {
    NumberCameFromNumber(text, read, at, out, q + 1, DigitsEnd(out, q + 1));
    if at[q + 1] != at[q] + 1 {
      GapSplices(text, read, at, out, q);
    }
  }

  predicate SameMarker(text: string, lo: nat, out: string, q: nat) {
    MarkerAt(text, lo) && MarkerAt(out, q) && Value(text, lo) == Value(out, q)
  }

  /** A marker opens with the only bracket in it, so the digits after a survivor survive. */
  lemma DigitRunSurvives(text: string, read: nat, e: nat, k: nat)
    requires e <= k < |text| && !Removed(text, read, e) && k <= DigitsEnd(text, e) && text[k] != '['
    ensures !Removed(text, read, k)
  {
  }

  lemma {:induction false} DigitRunSits(text: string, read: nat, at: seq<nat>, out: string, q: nat, k: nat)
    requires Survivors(text, read, |text|, at, out) && q < |at|
    requires at[q] + k < |text| && at[q] + k <= DigitsEnd(text, at[q]) && text[at[q] + k] != '['
    ensures q + k < |at| && at[q + k] == at[q] + k
    ensures forall i :: q <= i < q + k ==> Digit(out[i])
  {
    if k > 0 {
      DigitRunSits(text, read, at, out, q, k - 1);
      DigitRunSurvives(text, read, at[q], at[q] + k);
      NextSurvivor(text, read, at, out, q + k - 1, at[q] + k);
    }
  }

  /** The digits at a survivor, and what ends them, stand together in the output. */
  lemma NumberStays(text: string, read: nat, at: seq<nat>, out: string, q: nat, m: nat, d: nat)
    requires Survivors(text, read, |text|, at, out) && q < |at| && q <= m && d == at[q] + (m - q) < |text|
    requires DigitsEnd(text, at[q]) == d && text[d] == ']'
    ensures m < |out| && DigitsEnd(out, q) == m && out[m] == ']'
  {
    DigitRunSits(text, read, at, out, q, m - q);
    assert at[m] == d && out[m] == text[d];
    DigitsEndIs(out, q, m);
  }

  lemma SpliceMakesMarker(text: string, read: nat, at: seq<nat>, out: string, a: nat, e: nat) returns (q: nat)
    requires Survivors(text, read, |text|, at, out) && Splices(text, read, a, e)
    ensures MarkerAt(out, q) && at[q] == a && !MarkerAt(text, a)
  {
    BracketSurvives(text, read, a);
    q :| 0 <= q < |at| && at[q] == a;
    NextSurvivor(text, read, at, out, q, e);
    var d := DigitsEnd(text, e);
    NumberStays(text, read, at, out, q + 1, q + 1 + (d - e), d);
  }

  lemma BracketSurvives(text: string, read: nat, a: nat)
    requires a + 1 < |text| && text[a] == '[' && text[a + 1] == '['
    ensures !Removed(text, read, a)
  {
  }

  /** Deleting markers makes a new one exactly when a bracket closes round what a deletion
      brought next to it; otherwise every marker of the output was one of the input, with the
      same number. */
  lemma NewMarkersAreSplices(text: string, read: nat)
    ensures var at, out := Kept(text, read, |text|), Keep(text, read, |text|);
      && |at| == |out|
      && ((forall q: nat :: MarkerAt(out, q) ==> SameMarker(text, at[q], out, q)) <==> !Spliced(text, read))
  {
    var at, out := Kept(text, read, |text|), Keep(text, read, |text|);
    KeptAreSurvivors(text, read, |text|);
    if Spliced(text, read) {
      var a: nat, e: nat :| Splices(text, read, a, e);
      var q := SpliceMakesMarker(text, read, at, out, a, e);
      assert !SameMarker(text, at[q], out, q);
    } else {
      forall q: nat | MarkerAt(out, q) ensures SameMarker(text, at[q], out, q) {
        MarkerCameFromMarker(text, read, at, out, q);
      }
    }
  }

  // When the output is clean

  lemma GapEnds(text: string, read: nat, p: nat) returns (l: nat)
    requires p + 1 < |text| && Removed(text, read, p) && !Removed(text, read, p + 1)
    ensures Drops(text, read, l) && l < p + 1 == MarkerEnd(text, l)
  {
    l :| Drops(text, read, l) && l <= p < MarkerEnd(text, l);
  }

  lemma SurvivorBefore(text: string, read: nat, at: seq<nat>, out: string, q: nat)
    requires Survivors(text, read, |text|, at, out) && q < |at| && at[q] > 0 && !Removed(text, read, at[q] - 1)
    ensures q > 0 && at[q - 1] == at[q] - 1
  {
    var p: nat := at[q] - 1;
    assert p in at;
    var r :| 0 <= r < |at| && at[r] == p;
    assert r < q;
  }

  /** A marker of the output that deletion made, or that follows such markers without a gap. */
  ghost predicate Tainted(text: string, at: seq<nat>, out: string, q: nat)
    decreases q
  {
    q < |at| && MarkerAt(out, q) &&
    (!MarkerAt(text, at[q]) || exists l: nat :: l < q && Tainted(text, at, out, l) && MarkerEnd(out, l) == q)
  }

  /** A marker that deletion did not make was a marker of the input, as long. */
  lemma OldMarker(text: string, read: nat, at: seq<nat>, out: string, q: nat)
    requires Survivors(text, read, |text|, at, out) && MarkerAt(out, q) && MarkerAt(text, at[q])
    ensures SameMarker(text, at[q], out, q) && at[MarkerEnd(out, q) - 1] == MarkerEnd(text, at[q]) - 1
  {
    MarkerCameFromMarker(text, read, at, out, q);
  }

  lemma StandsAfterGap(text: string, read: nat, lo: nat)
    requires MarkerAt(text, lo) && lo > 0 && !Removed(text, read, lo) && Removed(text, read, lo - 1)
    ensures Standalone(text, lo)
  {
    var l := GapEnds(text, read, lo - 1);
    assert Standalone(text, l) && MarkerEnd(text, l) == lo;
  }

  /** Markers that touch in the output touched in the input. */
  lemma StillTouches(text: string, read: nat, at: seq<nat>, out: string, l: nat, q: nat)
    requires Survivors(text, read, |text|, at, out) && MarkerAt(out, l) && l < q < |at| && MarkerAt(text, at[l])
    requires MarkerEnd(out, l) == q && q > 0 && at[q - 1] + 1 == at[q]
    ensures MarkerEnd(text, at[l]) == at[q] && at[l] < at[q]
  {
    OldMarker(text, read, at, out, l);
  }

  lemma StandsAfterMarker(text: string, l: nat, lo: nat)
    requires MarkerAt(text, lo) && Standalone(text, l) && l < lo && MarkerEnd(text, l) == lo
    ensures Standalone(text, lo)
  {
  }

  /** An untainted marker that stands alone in the output stood alone in the input. */
  lemma {:induction false} StandaloneCameFrom(text: string, read: nat, at: seq<nat>, out: string, q: nat)
    requires Survivors(text, read, |text|, at, out) && Standalone(out, q) && !Tainted(text, at, out, q)
    ensures q < |at| && Standalone(text, at[q])
    decreases q
  {
    var lo := at[q];
    if lo > 0 && Removed(text, read, lo - 1) {
      StandsAfterGap(text, read, lo);
    } else if lo > 0 {
      SurvivorBefore(text, read, at, out, q);
      if Subscripted(out[q - 1]) {
        var l: nat :| l < q && Standalone(out, l) && MarkerEnd(out, l) == q;
        StandaloneCameFrom(text, read, at, out, l);
        StillTouches(text, read, at, out, l, q);
        StandsAfterMarker(text, at[l], lo);
      }
    }
  }

  lemma UntaintedResolves(text: string, read: nat, at: seq<nat>, out: string, q: nat)
    requires Survivors(text, read, |text|, at, out) && Standalone(out, q) && !Tainted(text, at, out, q)
    ensures Resolves(out, read, q)
  {
    StandaloneCameFrom(text, read, at, out, q);
    OldMarker(text, read, at, out, q);
    assert Removed(text, read, at[q]) || !Drops(text, read, at[q]);
  }

  ghost predicate Clean(out: string, read: nat) {
    forall q: nat :: Standalone(out, q) ==> Resolves(out, read, q)
  }

  /** Only what deletion brought together can be wrong: the rewritten text is clean exactly when
      every marker that deletion made, and every one that follows such markers without a gap,
      is in range wherever it stands alone; and exactly then resolving it again changes nothing. */
  lemma OutputIsCleanIff(text: string, read: nat)
    ensures var at, out := Kept(text, read, |text|), Keep(text, read, |text|);
      && (Clean(out, read) <==> Keep(out, read, |out|) == out)
      && (Clean(out, read) <==>
            (forall q: nat :: Tainted(text, at, out, q) && Standalone(out, q) ==> 1 <= Value(out, q) <= read))
  {
    var at, out := Kept(text, read, |text|), Keep(text, read, |text|);
    KeptAreSurvivors(text, read, |text|);
    forall q: nat | Standalone(out, q) && !Tainted(text, at, out, q) ensures Resolves(out, read, q) {
      UntaintedResolves(text, read, at, out, q);
    }
    CleanIsFixed(out, read);
  }

  lemma {:induction false} UnsplicedIsUntainted(text: string, read: nat, at: seq<nat>, out: string, q: nat)
    requires |at| == |out| && forall l: nat :: MarkerAt(out, l) ==> SameMarker(text, at[l], out, l)
    ensures !Tainted(text, at, out, q)
    decreases q
  {
    forall l: nat | l < q ensures !Tainted(text, at, out, l) {
      UnsplicedIsUntainted(text, read, at, out, l);
    }
  }

  lemma {:induction false} NothingRemoved(text: string, read: nat, k: nat)
    requires k <= |text| && forall p: nat :: !Removed(text, read, p)
    ensures Keep(text, read, k) == text[..k]
  {
    if k > 0 {
      NothingRemoved(text, read, k - 1);
      assert text[..k] == text[..k - 1] + [text[k - 1]];
    }
  }

  lemma {:induction false} KeepShrinks(text: string, read: nat, k: nat)
    requires k <= |text|
    ensures |Keep(text, read, k)| <= k
    ensures (exists p: nat :: p < k && Removed(text, read, p)) ==> |Keep(text, read, k)| < k
  {
    if k > 0 {
      KeepShrinks(text, read, k - 1);
    }
  }

  /** A clean text is what resolving leaves as it is. */
  lemma CleanIsFixed(out: string, read: nat)
    ensures Clean(out, read) <==> Keep(out, read, |out|) == out
  {
    if Clean(out, read) {
      NothingRemoved(out, read, |out|);
      assert out[..|out|] == out;
    } else {
      var q: nat :| Standalone(out, q) && !Resolves(out, read, q);
      assert Drops(out, read, q) && Removed(out, read, q);
      KeepShrinks(out, read, |out|);
    }
  }

  /** Without a splice nothing is tainted, so the text is clean: whatever marker stands alone in
      it resolves, and resolving it again changes nothing. */
  lemma UnsplicedOutputIsClean(text: string, read: nat)
    requires !Spliced(text, read)
    ensures var out := Keep(text, read, |text|); Clean(out, read) && Keep(out, read, |out|) == out
  {
    var at, out := Kept(text, read, |text|), Keep(text, read, |text|);
    NewMarkersAreSplices(text, read);
    forall q: nat ensures !Tainted(text, at, out, q) {
      UnsplicedIsUntainted(text, read, at, out, q);
    }
    OutputIsCleanIff(text, read);
  }

  const SPLICED := "[1] [[9]8]"

  lemma SplicedMarkers()
    ensures Resolves(SPLICED, 1, 0) && Drops(SPLICED, 1, 5) && MarkerEnd(SPLICED, 5) == 8
    ensures forall p: nat :: p < 10 ==> (Removed(SPLICED, 1, p) <==> 5 <= p < 8)
  {
    var text := SPLICED;
    assert DigitsEnd(text, 1) == 2 && DigitsEnd(text, 6) == 7;
    assert MarkerAt(text, 0) && MarkerEnd(text, 0) == 3 && Decimal(text, 1, 1) == 0 && Value(text, 0) == 1;
    assert MarkerAt(text, 5) && MarkerEnd(text, 5) == 8 && Decimal(text, 6, 6) == 0 && Value(text, 5) == 9;
    assert !MarkerAt(text, 4);
    assert forall lo: nat :: MarkerAt(text, lo) ==> lo == 0 || lo == 5;
  }

  lemma SplicedStarts()
    ensures Keep(SPLICED, 1, 4) == "[1] "
  {
    SplicedMarkers();
    var t := SPLICED;
    assert Keep(t, 1, 1) == "[" && Keep(t, 1, 2) == "[1" && Keep(t, 1, 3) == "[1]";
  }

  lemma SplicedKeeps()
    ensures Keep(SPLICED, 1, 10) == "[1] [8]"
  {
    SplicedMarkers();
    SplicedStarts();
    var t := SPLICED;
    assert Keep(t, 1, 8) == Keep(t, 1, 7) == Keep(t, 1, 6) == Keep(t, 1, 5) == "[1] [";
  }

  /** With one, an answer that passes the gate can show a marker that names nothing: one span
      was read and cited, and [8] is left standing. */
  lemma SplicedOutputShowsABrokenMarker()
    ensures var out := "[1] [8]";
      Resolves(SPLICED, 1, 0) && Keep(SPLICED, 1, |SPLICED|) == out && Drops(out, 1, 4)
  {
    SplicedMarkers();
    SplicedKeeps();
    var out := "[1] [8]";
    assert DigitsEnd(out, 5) == 6 && MarkerAt(out, 4) && Decimal(out, 5, 5) == 0 && Value(out, 4) == 8;
  }
}
