/** The leakage probe: a question's prose found in a span's text as a whole phrase. */
module Leaks {
  import opened Text

  /** What Unicode says of a character: a letter or digit, and its lower case. */
  datatype Alphabet = Alphabet(word: char -> bool, lower: char -> char)

  /** A letter's lower case is never the space that separates words. */
  ghost predicate Sane(u: Alphabet) {
    forall c :: u.word(c) ==> u.lower(c) != ' '
  }

  /** How far the run of word characters at the front of s goes. */
  function Run(u: Alphabet, s: string): (n: nat)
    ensures n <= |s| && (forall i :: 0 <= i < n ==> u.word(s[i])) && (n < |s| ==> !u.word(s[n]))
  {
    if s == "" || !u.word(s[0]) then 0 else 1 + Run(u, s[1..])
  }

  function Lowered(u: Alphabet, s: string): (t: string)
    ensures |t| == |s| && forall i :: 0 <= i < |s| ==> t[i] == u.lower(s[i])
  {
    seq(|s|, i requires 0 <= i < |s| => u.lower(s[i]))
  }

  /** The maximal runs of letters and digits, lowered. */
  function Words(u: Alphabet, s: string): seq<string> {
    if s == "" then []
    else
      var n := Run(u, s);
      if n == 0 then Words(u, s[1..]) else [Lowered(u, s[..n])] + Words(u, s[n..])
  }

  /** word is the maximal run of word characters of s from a to b, lowered. */
  ghost predicate IsRun(u: Alphabet, s: string, word: string, a: nat, b: nat) {
    && a < b <= |s| && |word| == b - a
    && (forall i :: a <= i < b ==> u.word(s[i]) && word[i - a] == u.lower(s[i]))
    && (a == 0 || !u.word(s[a - 1])) && (b == |s| || !u.word(s[b]))
  }

  ghost predicate Separate(words: seq<string>, at: seq<nat>) {
    |at| == |words| && forall m, k :: 0 <= m < k < |at| ==> at[m] + |words[m]| < at[k]
  }

  ghost predicate AllRuns(u: Alphabet, s: string, words: seq<string>, at: seq<nat>) {
    |at| == |words| && forall m :: 0 <= m < |at| ==> IsRun(u, s, words[m], at[m], at[m] + |words[m]|)
  }

  ghost predicate Covers(words: seq<string>, at: seq<nat>, i: nat) {
    |at| == |words| && exists m :: 0 <= m < |at| && at[m] <= i < at[m] + |words[m]|
  }

  ghost predicate AllCovered(u: Alphabet, s: string, words: seq<string>, at: seq<nat>, from: nat) {
    forall i: nat :: from <= i < |s| && u.word(s[i]) ==> Covers(words, at, i)
  }

  /** The words are the runs that start at these places, in order and apart, and there is no other. */
  ghost predicate Runs(u: Alphabet, s: string, words: seq<string>, at: seq<nat>) {
    Separate(words, at) && AllRuns(u, s, words, at) && AllCovered(u, s, words, at, 0)
  }

  function Moved(at: seq<nat>, d: nat): (moved: seq<nat>)
    ensures |moved| == |at| && forall m :: 0 <= m < |at| ==> moved[m] == at[m] + d
  {
    seq(|at|, m requires 0 <= m < |at| => at[m] + d)
  }

  lemma CoverMoves(u: Alphabet, s: string, d: nat, words: seq<string>, at: seq<nat>)
    requires d <= |s| && AllCovered(u, s[d..], words, at, 0)
    ensures AllCovered(u, s, words, Moved(at, d), d)
  {
    forall i: nat | d <= i < |s| && u.word(s[i]) ensures Covers(words, Moved(at, d), i) {
      assert s[d..][i - d] == s[i];
      assert Covers(words, at, i - d);
      var m :| 0 <= m < |at| && at[m] <= i - d < at[m] + |words[m]|;
      assert Moved(at, d)[m] <= i < Moved(at, d)[m] + |words[m]|;
    }
  }

  lemma RunShifts(u: Alphabet, s: string, d: nat, word: string, a: nat, b: nat)
    requires 0 < d <= |s| && IsRun(u, s[d..], word, a, b) && (!u.word(s[d - 1]) || d == |s| || !u.word(s[d]))
    ensures IsRun(u, s, word, a + d, b + d)
  {
    var t := s[d..];
    assert forall i :: 0 <= i < |t| ==> t[i] == s[d + i];
    forall i | a + d <= i < b + d ensures u.word(s[i]) && word[i - (a + d)] == u.lower(s[i]) {
      assert t[i - d] == s[i];
    }
    if a == 0 {
      assert u.word(t[0]);
    } else {
      assert t[a - 1] == s[a + d - 1];
    }
  }

  /** Runs of the rest of s, which starts at d, at a place where no run is cut. */
  lemma RunsMove(u: Alphabet, s: string, d: nat, words: seq<string>, at: seq<nat>)
    requires 0 < d <= |s| && Runs(u, s[d..], words, at) && (!u.word(s[d - 1]) || d == |s| || !u.word(s[d]))
    ensures Separate(words, Moved(at, d)) && AllRuns(u, s, words, Moved(at, d))
    ensures AllCovered(u, s, words, Moved(at, d), d)
  {
    forall m | 0 <= m < |at| ensures IsRun(u, s, words[m], Moved(at, d)[m], Moved(at, d)[m] + |words[m]|) {
      RunShifts(u, s, d, words[m], at[m], at[m] + |words[m]|);
    }
    CoverMoves(u, s, d, words, at);
  }

  lemma FirstSeparates(word: string, words: seq<string>, at: seq<nat>)
    requires Separate(words, at) && forall m :: 0 <= m < |at| ==> at[m] > |word|
    ensures Separate([word] + words, [0] + at)
  {
    var all, places := [word] + words, [0] + at;
    forall m, k | 0 <= m < k < |places| ensures places[m] + |all[m]| < places[k] {
      assert places[k] == at[k - 1];
      if m > 0 {
        assert places[m] == at[m - 1] && all[m] == words[m - 1];
      }
    }
  }

  lemma FirstCovers(word: string, words: seq<string>, at: seq<nat>, i: nat)
    requires |at| == |words| && (i < |word| || Covers(words, at, i))
    ensures Covers([word] + words, [0] + at, i)
  {
    var all, places := [word] + words, [0] + at;
    if i < |word| {
      assert places[0] <= i < places[0] + |all[0]|;
    } else {
      var m :| 0 <= m < |at| && at[m] <= i < at[m] + |words[m]|;
      assert places[m + 1] == at[m] && all[m + 1] == words[m];
    }
  }

  /** A first run before the rest. */
  lemma FirstRun(u: Alphabet, s: string, word: string, words: seq<string>, at: seq<nat>)
    requires word != "" && IsRun(u, s, word, 0, |word|) && Separate(words, at) && AllRuns(u, s, words, at)
    requires (forall m :: 0 <= m < |at| ==> at[m] > |word|) && AllCovered(u, s, words, at, |word|)
    ensures Runs(u, s, [word] + words, [0] + at)
  {
    var all, places := [word] + words, [0] + at;
    FirstSeparates(word, words, at);
    forall m | 0 <= m < |places| ensures IsRun(u, s, all[m], places[m], places[m] + |all[m]|) {
      if m > 0 {
        assert all[m] == words[m - 1] && places[m] == at[m - 1];
      }
    }
    forall i: nat | i < |s| && u.word(s[i]) ensures Covers(all, places, i) {
      FirstCovers(word, words, at, i);
    }
  }

  lemma LaterStart(u: Alphabet, s: string, word: string, words: seq<string>, at: seq<nat>)
    requires word != "" && IsRun(u, s, word, 0, |word|) && AllRuns(u, s, words, at)
    requires forall m :: 0 <= m < |at| ==> at[m] >= |word|
    ensures forall m :: 0 <= m < |at| ==> at[m] > |word|
  {
    forall m | 0 <= m < |at| ensures at[m] > |word| {
      assert IsRun(u, s, words[m], at[m], at[m] + |words[m]|);
      assert u.word(s[at[m]]);
    }
  }

  /** Words are the maximal runs of letters and digits, each of them and nothing else, lowered. */
  lemma {:induction false} WordsAreRuns(u: Alphabet, s: string) returns (at: seq<nat>)
    ensures Runs(u, s, Words(u, s), at)
    decreases |s|
  {
    if s == "" {
      at := [];
    } else {
      var n := Run(u, s);
      var d := if n == 0 then 1 else n;
      var rest := WordsAreRuns(u, s[d..]);
      RunsMove(u, s, d, Words(u, s[d..]), rest);
      at := Moved(rest, d);
      if n == 0 {
        NoFirstRun(u, s, Words(u, s[1..]), at);
      } else {
        var word := Lowered(u, s[..n]);
        LaterStart(u, s, word, Words(u, s[n..]), at);
        FirstRun(u, s, word, Words(u, s[n..]), at);
        at := [0] + at;
      }
    }
  }

  lemma NoFirstRun(u: Alphabet, s: string, words: seq<string>, at: seq<nat>)
    requires s != "" && !u.word(s[0])
    requires Separate(words, at) && AllRuns(u, s, words, at) && AllCovered(u, s, words, at, 1)
    ensures Runs(u, s, words, at)
  {
  }

  /** Single spaces between words, none at either end. */
  function Spaced(words: seq<string>): string {
    Join(' ', words)
  }

  /** One more word character lengthens the last word or starts another. */
  function Extended(words: seq<string>, inWord: bool, c: char): seq<string> {
    if inWord && words != [] then words[..|words| - 1] + [words[|words| - 1] + [c]] else words + [[c]]
  }

  lemma {:induction false} RunIs(u: Alphabet, s: string, n: nat)
    requires n <= |s| && (forall i :: 0 <= i < n ==> u.word(s[i])) && (n < |s| ==> !u.word(s[n]))
    ensures Run(u, s) == n
  {
    if n > 0 {
      assert forall i :: 0 <= i < n - 1 ==> s[1..][i] == s[i + 1];
      RunIs(u, s[1..], n - 1);
    }
  }

  lemma RunAppends(u: Alphabet, s: string, c: char)
    ensures Run(u, s + [c]) == if Run(u, s) == |s| && u.word(c) then |s| + 1 else Run(u, s)
  {
    RunIs(u, s + [c], if Run(u, s) == |s| && u.word(c) then |s| + 1 else Run(u, s));
  }

  lemma OneChar(u: Alphabet, c: char)
    ensures Words(u, [c]) == if u.word(c) then [[u.lower(c)]] else []
  {
    var t := [c];
    assert t[1..] == "" && t[..1] == t;
    if u.word(c) {
      assert Lowered(u, t) == [u.lower(c)];
    }
  }

  /** Whether the last character of s is in a word. */
  predicate EndsInWord(u: Alphabet, s: string) {
    s != "" && u.word(s[|s| - 1])
  }

  lemma {:induction false} WordsAppend(u: Alphabet, s: string, c: char)
    ensures Words(u, s + [c]) == if u.word(c) then Extended(Words(u, s), EndsInWord(u, s), u.lower(c)) else Words(u, s)
    ensures EndsInWord(u, s) ==> Words(u, s) != []
    decreases |s|
  {
    var n := Run(u, s);
    if s == "" {
      OneChar(u, c);
      assert s + [c] == [c];
    } else if n == 0 {
      WordsAppend(u, s[1..], c);
      RunAppends(u, s, c);
      assert (s + [c])[1..] == s[1..] + [c];
      assert EndsInWord(u, s) ==> |s| > 1 && s[1..][|s| - 2] == s[|s| - 1];
    } else if n < |s| {
      WordsAppend(u, s[n..], c);
      LaterWordAppends(u, s, c, n);
    } else {
      WholeWordAppends(u, s, c);
    }
  }

  lemma LaterWordAppends(u: Alphabet, s: string, c: char, n: nat)
    requires n == Run(u, s) && 0 < n < |s|
    requires Words(u, s[n..] + [c]) ==
      if u.word(c) then Extended(Words(u, s[n..]), EndsInWord(u, s[n..]), u.lower(c)) else Words(u, s[n..])
    requires EndsInWord(u, s[n..]) ==> Words(u, s[n..]) != []
    ensures Words(u, s + [c]) == if u.word(c) then Extended(Words(u, s), EndsInWord(u, s), u.lower(c)) else Words(u, s)
    ensures EndsInWord(u, s) ==> Words(u, s) != []
  {
    var t := s + [c];
    RunAppends(u, s, c);
    assert t[n..] == s[n..] + [c] && t[..n] == s[..n] && s[n..][|s| - n - 1] == s[|s| - 1];
    RestKeepsTail(Lowered(u, s[..n]), Words(u, s[n..]), EndsInWord(u, s), u.lower(c));
  }

  lemma RestKeepsTail(w: string, rest: seq<string>, inWord: bool, c: char)
    requires inWord ==> rest != []
    ensures [w] + Extended(rest, inWord, c) == Extended([w] + rest, inWord, c)
  {
  }

  lemma WholeWordAppends(u: Alphabet, s: string, c: char)
    requires s != "" && Run(u, s) == |s|
    ensures Words(u, s) == [Lowered(u, s)]
    ensures Words(u, s + [c]) == if u.word(c) then [Lowered(u, s) + [u.lower(c)]] else Words(u, s)
  {
    var t := s + [c];
    RunAppends(u, s, c);
    assert s[..|s|] == s && s[|s|..] == "";
    if u.word(c) {
      assert t[..|t|] == t && t[|t|..] == "";
      assert Lowered(u, t) == Lowered(u, s) + [u.lower(c)];
    } else {
      assert t[..|s|] == s && t[|s|..] == [c];
      assert [c][1..] == "" && Run(u, [c]) == 0;
    }
  }

  lemma SpacedExtends(words: seq<string>, inWord: bool, c: char)
    requires inWord ==> words != []
    ensures Spaced(Extended(words, inWord, c)) ==
      if inWord || words == [] then Spaced(words) + [c] else Spaced(words) + [' '] + [c]
  {
    if inWord {
      var front, w := words[..|words| - 1], words[|words| - 1];
      assert words == front + [w];
      JoinAppends(' ', front, w);
      JoinAppends(' ', front, w + [c]);
      if front != [] {
        assert Spaced(front) + [' '] + (w + [c]) == Spaced(front) + [' '] + w + [c];
      }
    } else {
      JoinAppends(' ', words, [c]);
    }
  }

  method Normalise(u: Alphabet, s: string) returns (b: string)
    ensures b == Spaced(Words(u, s))
  {
    b := "";
    var space := false;
    for i := 0 to |s|
      invariant b == Spaced(Words(u, s[..i]))
      invariant |b| > 0 <==> Words(u, s[..i]) != []
      invariant i > 0 ==> (space <==> !u.word(s[i - 1]))
      invariant i == 0 ==> !space
    {
      var c := s[i];
      assert s[..i + 1] == s[..i] + [c];
      WordsAppend(u, s[..i], c);
      if u.word(c) {
        SpacedExtends(Words(u, s[..i]), i > 0 && u.word(s[i - 1]), u.lower(c));
        if space && |b| > 0 {
          b := b + " ";
        }
        space := false;
        b := b + [u.lower(c)];
        continue;
      }
      space := true;
    }
    assert s[..|s|] == s;
  }

  predicate OccursAt(text: string, needle: string, i: nat) {
    i + |needle| <= |text| && text[i..i + |needle|] == needle
  }

  /** strings.Contains. */
  predicate Substring(text: string, needle: string) {
    exists i :: 0 <= i <= |text| && OccursAt(text, needle, i)
  }

  predicate Contains(text: string, question: string) {
    question != "" && Substring(" " + text + " ", " " + question + " ")
  }

  method LeaksIn(u: Alphabet, question: string, text: string) returns (leaks: bool)
    ensures leaks == Contains(Spaced(Words(u, text)), Spaced(Words(u, question)))
  {
    var t := Normalise(u, text);
    var q := Normalise(u, question);
    return Contains(t, q);
  }

  // A whole phrase, and nothing less

  ghost predicate Wordly(words: seq<string>) {
    forall i :: 0 <= i < |words| ==> words[i] != "" && Free(' ', words[i])
  }

  lemma {:induction false} WordsAreWordly(u: Alphabet, s: string)
    requires Sane(u)
    ensures Wordly(Words(u, s))
  {
    if s != "" {
      var n := Run(u, s);
      WordsAreWordly(u, if n == 0 then s[1..] else s[n..]);
    }
  }

  /** Every word with a space after it. */
  function Padded(words: seq<string>): string {
    if words == [] then "" else words[0] + " " + Padded(words[1..])
  }

  lemma {:induction false} SpacedIsPadded(words: seq<string>)
    requires words != []
    ensures Spaced(words) + " " == Padded(words)
  {
    if |words| > 1 {
      SpacedIsPadded(words[1..]);
    } else {
      assert words[1..] == [];
    }
  }

  lemma {:induction false} PaddedSplits(a: seq<string>, b: seq<string>)
    ensures Padded(a + b) == Padded(a) + Padded(b)
  {
    if a == [] {
      assert a + b == b;
    } else {
      PaddedSplits(a[1..], b);
      assert (a + b)[1..] == a[1..] + b;
    }
  }

  predicate PhraseAt(text: seq<string>, phrase: seq<string>, j: nat) {
    j + |phrase| <= |text| && text[j..j + |phrase|] == phrase
  }

  /** phrase is a contiguous stretch of text, word for word. */
  ghost predicate Phrase(text: seq<string>, phrase: seq<string>) {
    exists j: nat :: PhraseAt(text, phrase, j)
  }

  lemma AfterSpace(before: string, phrase: string, rest: string)
    requires before != "" ==> before[|before| - 1] == ' '
    ensures OccursAt(" " + (before + (phrase + rest)), " " + phrase, |before|)
  {
    var hay, needle := " " + (before + (phrase + rest)), " " + phrase;
    assert hay[|before|] == ' ';
    assert forall i :: 0 <= i < |phrase| ==> hay[|before| + 1 + i] == phrase[i];
    assert hay[|before|..|before| + |needle|] == needle;
  }

  lemma PhraseOccurs(text: seq<string>, phrase: seq<string>, j: nat)
    requires PhraseAt(text, phrase, j)
    ensures OccursAt(" " + Padded(text), " " + Padded(phrase), |Padded(text[..j])|)
  {
    var rest := text[j + |phrase|..];
    assert text == text[..j] + (phrase + rest);
    PaddedSplits(text[..j], phrase + rest);
    PaddedSplits(phrase, rest);
    PaddedEndsInSpace(text[..j]);
    AfterSpace(Padded(text[..j]), Padded(phrase), Padded(rest));
  }

  lemma {:induction false} PaddedEndsInSpace(words: seq<string>)
    ensures words != [] ==> Padded(words) != "" && Padded(words)[|Padded(words)| - 1] == ' '
  {
    if words != [] {
      PaddedEndsInSpace(words[1..]);
    }
  }

  lemma {:induction false} PrefixIsPhrase(text: seq<string>, phrase: seq<string>)
    requires Wordly(text) && Wordly(phrase) && Padded(phrase) <= Padded(text)
    ensures phrase <= text
  {
    if phrase != [] {
      var tail := Padded(text)[|Padded(phrase)|..];
      assert Padded(text) == Padded(phrase) + tail;
      assert text != [];
      assert Padded(phrase) + tail == phrase[0] + [' '] + (Padded(phrase[1..]) + tail);
      assert Padded(text) == text[0] + [' '] + Padded(text[1..]);
      FirstPart(' ', phrase[0], text[0], Padded(phrase[1..]) + tail, Padded(text[1..]));
      PrefixIsPhrase(text[1..], phrase[1..]);
      assert phrase == [phrase[0]] + phrase[1..] && text == [text[0]] + text[1..];
    }
  }

  /** An occurrence past the first word is one in the words after it: it opens with a space,
      and the first word has none. */
  lemma OccursLater(w: string, rest: string, needle: string, i: nat)
    requires Free(' ', w) && needle != "" && needle[0] == ' ' && i > 0
    requires OccursAt(" " + w + (" " + rest), needle, i)
    ensures i > |w| && OccursAt(" " + rest, needle, i - |w| - 1)
  {
    var hay := " " + w + (" " + rest);
    assert hay[i] == needle[0];
    assert forall k :: 0 <= k < |w| ==> hay[k + 1] == w[k];
    assert i > |w|;
    assert hay[|w| + 1..] == " " + rest;
    assert hay[|w| + 1..][i - |w| - 1..i - |w| - 1 + |needle|] == hay[i..i + |needle|];
  }

  lemma OccursFirst(text: string, phrase: string)
    requires OccursAt(" " + text, " " + phrase, 0)
    ensures phrase <= text
  {
    var hay, needle := " " + text, " " + phrase;
    assert needle[1..] == phrase && hay[1..] == text;
    assert hay[..|needle|] == needle;
  }

  lemma {:induction false} OccurrenceIsPhrase(text: seq<string>, phrase: seq<string>, i: nat)
    requires Wordly(text) && Wordly(phrase) && phrase != []
    requires OccursAt(" " + Padded(text), " " + Padded(phrase), i)
    ensures Phrase(text, phrase)
  {
    if i == 0 {
      OccursFirst(Padded(text), Padded(phrase));
      PrefixIsPhrase(text, phrase);
      assert PhraseAt(text, phrase, 0);
    } else {
      assert text != [];
      var w, rest := text[0], Padded(text[1..]);
      assert " " + Padded(text) == " " + w + (" " + rest);
      OccursLater(w, rest, " " + Padded(phrase), i);
      OccurrenceIsPhrase(text[1..], phrase, i - |w| - 1);
      var j: nat :| PhraseAt(text[1..], phrase, j);
      assert text[j + 1..j + 1 + |phrase|] == text[1..][j..j + |phrase|];
      assert PhraseAt(text, phrase, j + 1);
    }
  }

  /** A question leaks exactly when it has a word and its words appear in the text as a
      contiguous run of whole words; no question made of fragments of words does. */
  lemma LeaksExactlyAsPhrase(u: Alphabet, question: string, text: string)
    requires Sane(u)
    ensures Contains(Spaced(Words(u, text)), Spaced(Words(u, question))) <==>
      Words(u, question) != [] && Phrase(Words(u, text), Words(u, question))
  {
    var q, t := Words(u, question), Words(u, text);
    WordsAreWordly(u, question);
    WordsAreWordly(u, text);
    if q != [] {
      SpacedIsPadded(q);
      SpacedIsNotEmpty(q);
      var needle := " " + Spaced(q) + " ";
      assert needle == " " + Padded(q);
      if t == [] {
        assert |needle| > 2;
      } else {
        SpacedIsPadded(t);
        var hay := " " + Spaced(t) + " ";
        assert hay == " " + Padded(t);
        if i :| 0 <= i <= |hay| && OccursAt(hay, needle, i) {
          OccurrenceIsPhrase(t, q, i);
        }
        if j: nat :| PhraseAt(t, q, j) {
          PhraseOccurs(t, q, j);
          assert Substring(hay, needle);
        }
      }
    }
  }

  lemma SpacedIsNotEmpty(words: seq<string>)
    requires words != [] && Wordly(words)
    ensures |Spaced(words)| > 0
  {
  }

  /** Normal form: single spaces between words, none at either end. */
  lemma NormalFormIsTight(u: Alphabet, s: string)
    requires Sane(u)
    ensures var b := Spaced(Words(u, s));
      && (b != "" ==> b[0] != ' ' && b[|b| - 1] != ' ')
      && forall i :: 0 < i < |b| ==> !(b[i - 1] == ' ' && b[i] == ' ')
  {
    WordsAreWordly(u, s);
    SpacedIsTight(Words(u, s));
  }

  lemma {:induction false} SpacedIsTight(words: seq<string>)
    requires Wordly(words)
    ensures var b := Spaced(words);
      && (words != [] ==> b != "" && b[0] != ' ' && b[|b| - 1] != ' ')
      && forall i :: 0 < i < |b| ==> !(b[i - 1] == ' ' && b[i] == ' ')
  {
    if |words| > 1 {
      var rest := Spaced(words[1..]);
      SpacedIsTight(words[1..]);
      assert Spaced(words) == words[0] + [' '] + rest;
    }
  }
}
