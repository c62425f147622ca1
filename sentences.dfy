/** The sentence-boundary search of punchout.go, findFirstEndOfSentence: the
    earliest occurrence of any end-of-sentence marker in a buffer, with ties
    going to the marker listed first, and an extra rule for a sentence that
    ends exactly at the end of the buffer. */
module Sentences {
  import opened Text

  /** The offset of the boundary (-1 for none) and the marker that was found
      there; with no boundary, the last marker examined. */
  datatype Match = Match(first: int, found: string)

  /** A call either returns, or stops with the runtime panic Go raises when
      the end-of-buffer slice would start before the buffer does. */
  datatype Outcome = Ok(m: Match) | SliceOutOfRange

  predicate EndsWithSpace(marker: string) {
    |marker| > 0 && marker[|marker| - 1] == ' '
  }

  /** The buffer ends with the marker minus its last character, compared one
      character at a time; EndsWithStemIsSlice shows this is the slice
      comparison the end-of-buffer rule makes. */
  predicate EndsWithStem(str: string, marker: string) {
    1 <= |marker| <= |str| + 1
    && MatchesFrom(str, marker[..|marker| - 1], |str| - |marker| + 1, 0)
  }

  lemma EndsWithStemIsSlice(str: string, marker: string)
    requires 1 <= |marker| <= |str| + 1
    ensures EndsWithStem(str, marker)
            <==> str[|str| - |marker| + 1..|str|] == marker[0..|marker| - 1]
  {
    var stem := marker[..|marker| - 1];
    MatchesFromIsSlice(str, stem, |str| - |marker| + 1, 0);
    assert stem[0..] == marker[0..|marker| - 1];
  }

  /** One pass of the loop over the markers, from the state (first, found)
      reached so far. */
  function Step(str: string, acc: Match, marker: string): (r: Outcome)
    requires -1 <= acc.first <= |str|
    ensures r.Ok? ==> -1 <= r.m.first <= |str|
  {
    var i := Index(str, marker);
    var acc' := if acc.first < 0 || (i >= 0 && i < acc.first) then Match(i, marker) else acc;
    var ls, lm := |str|, |marker|;
    // While nothing is found the marker cannot be empty: "" occurs at 0.
    if acc'.first >= 0 || !EndsWithSpace(marker) then Ok(acc')
    else if ls - lm + 1 < 0 then SliceOutOfRange
    else if EndsWithStem(str, marker) then Ok(Match(ls - lm + 1, marker))
    else Ok(acc')
  }

  /** The outcome of searching str for the first n markers of ms, in list
      order: one Step per marker, stopping at a panic. */
  function FindUpTo(str: string, ms: seq<string>, n: nat): (r: Outcome)
    requires n <= |ms|
    ensures r.Ok? ==> -1 <= r.m.first <= |str|
    decreases n
  {
    if n == 0 then Ok(Match(-1, ""))
    else
      match FindUpTo(str, ms, n - 1)
      case SliceOutOfRange => SliceOutOfRange
      case Ok(acc) => Step(str, acc, ms[n - 1])
  }

  /** The outcome of searching str for all the markers, in list order. */
  function FindSpec(str: string, markers: seq<string>): (r: Outcome)
    ensures r.Ok? ==> -1 <= r.m.first <= |str|
    decreases |markers|
  {
    if markers == [] then Ok(Match(-1, ""))
    else
      match FindSpec(str, markers[..|markers| - 1])
      case SliceOutOfRange => SliceOutOfRange
      case Ok(acc) => Step(str, acc, markers[|markers| - 1])
  }

  /** FindSpec is the search for the first |markers| markers. */
  lemma {:induction false} FindSpecIsFindUpTo(str: string, markers: seq<string>)
    ensures FindSpec(str, markers) == FindUpTo(str, markers, |markers|)
    decreases |markers|
  {
    if markers != [] {
      var p := markers[..|markers| - 1];
      FindSpecIsFindUpTo(str, p);
      SameMarkersSameSearch(str, p, markers, |p|);
    }
  }

  /** The search over the first n markers depends on those markers only. */
  lemma {:induction false} SameMarkersSameSearch(str: string, ms: seq<string>, ms': seq<string>, n: nat)
    requires n <= |ms| && n <= |ms'| && ms[..n] == ms'[..n]
    ensures FindUpTo(str, ms, n) == FindUpTo(str, ms', n)
    decreases n
  {
    if n > 0 {
      assert ms[..n - 1] == ms[..n][..n - 1];
      assert ms'[..n - 1] == ms'[..n][..n - 1];
      assert ms[n - 1] == ms[..n][n - 1];
      assert ms'[n - 1] == ms'[..n][n - 1];
      SameMarkersSameSearch(str, ms, ms', n - 1);
    }
  }

  /** findFirstEndOfSentence. */
  method FindFirstEndOfSentence(str: string, eosMarkers: seq<string>) returns (r: Outcome)
    ensures r == FindSpec(str, eosMarkers)
  {
    var ls := |str|;
    var first := -1;
    var found := "";
    for n := 0 to |eosMarkers|
      invariant FindUpTo(str, eosMarkers, n) == Ok(Match(first, found))
    {
      ghost var acc := Match(first, found);
      FindUpToStep(str, eosMarkers, n, acc);
      var marker := eosMarkers[n];
      var i := Index(str, marker);
      if first < 0 {
        first := i;
        found := marker;
      } else {
        if i >= 0 {
          if i < first {
            first := i;
            found := marker;
          }
        }
      }
      ghost var picked := Match(first, found);
      assert picked == if acc.first < 0 || (i >= 0 && i < acc.first) then Match(i, marker) else acc;
      if first < 0 {
        var lm := |marker|;
        assert marker[lm - 1..lm] == [marker[lm - 1]];
        if marker[lm - 1..lm] == " " {
          if ls - lm + 1 < 0 {
            PanicPersists(str, eosMarkers, n + 1, |eosMarkers|);
            FindSpecIsFindUpTo(str, eosMarkers);
            return SliceOutOfRange;
          }
          EndsWithStemIsSlice(str, marker);
          if str[ls - lm + 1..ls] == marker[0..lm - 1] {
            first := ls - lm + 1;
            found := marker;
          }
        }
      }
      assert Step(str, acc, marker) == Ok(Match(first, found));
    }
    FindSpecIsFindUpTo(str, eosMarkers);
    return Ok(Match(first, found));
  }

  /** Searching for one more marker is one more Step. */
  lemma FindUpToStep(str: string, ms: seq<string>, n: nat, acc: Match)
    requires n < |ms| && FindUpTo(str, ms, n) == Ok(acc)
    ensures FindUpTo(str, ms, n + 1) == Step(str, acc, ms[n])
  {
  }

  /** Once the search has panicked on the first k markers, it has panicked
      on the first n for every n from k on: the markers after the panic are
      never examined. */
  lemma {:induction false} PanicPersists(str: string, ms: seq<string>, k: nat, n: nat)
    requires k <= n <= |ms| && FindUpTo(str, ms, k) == SliceOutOfRange
    ensures FindUpTo(str, ms, n) == SliceOutOfRange
    decreases n
  {
    if n > k {
      PanicPersists(str, ms, k, n - 1);
    }
  }

  /** The end-of-buffer rule cannot fire for this marker on this buffer,
      and its slice is in range. */
  predicate NoEndOfBufferMatch(str: string, marker: string) {
    !EndsWithSpace(marker)
    || (|marker| - 1 <= |str| && !EndsWithStem(str, marker))
  }

  /** None of the markers through index j occurs in str. */
  ghost predicate NoneFoundThrough(str: string, ms: seq<string>, j: int)
    requires j < |ms|
  {
    forall i :: 0 <= i <= j ==> Index(str, ms[i]) < 0
  }

  /** Among markers lo..n-1, marker k occurs in str, none of them occurs
      earlier, and none listed before k occurs at the same offset. */
  ghost predicate Earliest(str: string, ms: seq<string>, lo: int, n: int, k: int)
    requires n <= |ms|
  {
    0 <= lo <= k < n && Index(str, ms[k]) >= 0
    && (forall j :: lo <= j < k ==> Index(str, ms[j]) < 0 || Index(str, ms[j]) > Index(str, ms[k]))
    && (forall j :: k < j < n ==> Index(str, ms[j]) < 0 || Index(str, ms[j]) >= Index(str, ms[k]))
  }

  /** When the end-of-buffer rule never fires, searching for the first n
      markers returns the smallest offset at which any of them occurs, with
      the earliest-listed marker among those at that offset; when none occurs
      it returns -1 together with the last marker searched for (not the
      empty string). The rule can only fire for a marker while no marker up
      to it occurs. The index k returned is the winning marker's, or -1. */
  lemma {:induction false} EarliestMarkerWins(str: string, ms: seq<string>, n: nat) returns (k: int)
    requires n <= |ms|
    requires forall j :: 0 <= j < n && NoneFoundThrough(str, ms, j) ==> NoEndOfBufferMatch(str, ms[j])
    ensures k >= 0 ==> Earliest(str, ms, 0, n, k) && FindUpTo(str, ms, n) == Ok(Match(Index(str, ms[k]), ms[k]))
    ensures k < 0 ==> (forall j :: 0 <= j < n ==> Index(str, ms[j]) < 0)
                      && FindUpTo(str, ms, n) == Ok(Match(-1, if n == 0 then "" else ms[n - 1]))
    decreases n
  {
    if n == 0 {
      k := -1;
    } else {
      var m := n - 1;
      var kp := EarliestMarkerWins(str, ms, m);
      var i := Index(str, ms[m]);
      if kp >= 0 {
        StepHolding(str, Match(Index(str, ms[kp]), ms[kp]), ms[m]);
        if i >= 0 && i < Index(str, ms[kp]) {
          NewWinner(str, ms, 0, m, kp);
          k := m;
        } else {
          WinnerKept(str, ms, 0, m, kp);
          k := kp;
        }
      } else if i >= 0 {
        FirstWinner(str, ms, 0, m);
        k := m;
      } else {
        assert NoneFoundThrough(str, ms, m);
        NoWinner(str, ms, m, if m == 0 then "" else ms[m - 1]);
        k := -1;
      }
    }
  }

  /** Marker m occurs before the winner kp of markers lo..m-1 and takes
      its place. */
  lemma NewWinner(str: string, ms: seq<string>, lo: int, m: nat, kp: int)
    requires m < |ms| && Earliest(str, ms, lo, m, kp)
    requires 0 <= Index(str, ms[m]) < Index(str, ms[kp])
    ensures Earliest(str, ms, lo, m + 1, m)
  {
  }

  /** Marker m occurs no earlier than the winner kp of markers lo..m-1, or
      not at all, and kp stays the winner. */
  lemma WinnerKept(str: string, ms: seq<string>, lo: int, m: nat, kp: int)
    requires m < |ms| && Earliest(str, ms, lo, m, kp)
    requires !(0 <= Index(str, ms[m]) < Index(str, ms[kp]))
    ensures Earliest(str, ms, lo, m + 1, kp)
  {
  }

  /** Marker m is the first of markers lo..m to occur at all. */
  lemma FirstWinner(str: string, ms: seq<string>, lo: int, m: nat)
    requires 0 <= lo <= m < |ms| && Index(str, ms[m]) >= 0
    requires forall j :: lo <= j < m ==> Index(str, ms[j]) < 0
    ensures Earliest(str, ms, lo, m + 1, m)
  {
  }

  /** Once a boundary is held, a marker replaces it exactly when it occurs
      strictly before it; the end-of-buffer rule no longer applies. */
  lemma StepHolding(str: string, acc: Match, marker: string)
    requires 0 <= acc.first <= |str|
    ensures var i := Index(str, marker);
            Step(str, acc, marker) == if 0 <= i < acc.first then Ok(Match(i, marker)) else Ok(acc)
  {
  }

  /** No marker occurs, and the end-of-buffer rule does not fire for
      marker m: the search goes on holding -1 and marker m. */
  lemma NoWinner(str: string, ms: seq<string>, m: nat, found: string)
    requires m < |ms| && Index(str, ms[m]) < 0 && NoEndOfBufferMatch(str, ms[m])
    ensures Step(str, Match(-1, found), ms[m]) == Ok(Match(-1, ms[m]))
  {
  }

  /** The end-of-buffer rule: while nothing has been found, a marker ending
      in a space that does not occur is still matched when the buffer ends
      with the marker minus its space; the boundary is then placed where that
      marker would start. */
  lemma EndOfBufferRule(str: string, ms: seq<string>, k: nat)
    requires k < |ms| && EndsWithSpace(ms[k])
    requires FindUpTo(str, ms, k).Ok? && FindUpTo(str, ms, k).m.first < 0
    requires Index(str, ms[k]) < 0
    requires EndsWithStem(str, ms[k])
    ensures FindUpTo(str, ms, k + 1) == Ok(Match(|str| - |ms[k]| + 1, ms[k]))
  {
  }

  /** The state after the end-of-buffer rule set boundary b with marker k,
      once the later markers, whose earliest is w (or -1), were searched. */
  function Held(str: string, ms: seq<string>, k: int, w: int, b: int): Match
    requires 0 <= k < |ms| && w < |ms|
  {
    if w >= 0 && Index(str, ms[w]) < b then Match(Index(str, ms[w]), ms[w]) else Match(b, ms[k])
  }

  /** After the end-of-buffer rule has fired for marker k, the markers
      after it only move the boundary earlier: searching for the first n
      markers returns the offset of the earliest of markers k+1..n-1 to
      occur (Best, which BestIsEarliest characterizes), with that marker,
      when the offset lies strictly before the boundary the rule set;
      otherwise it returns that boundary with marker k. */
  lemma AfterEndOfBuffer(str: string, ms: seq<string>, k: nat, n: nat)
    requires k < n <= |ms| && EndsWithSpace(ms[k])
    requires FindUpTo(str, ms, k).Ok? && FindUpTo(str, ms, k).m.first < 0
    requires Index(str, ms[k]) < 0
    requires EndsWithStem(str, ms[k])
    ensures FindUpTo(str, ms, n) == Ok(Held(str, ms, k, Best(str, ms, k + 1, n), |str| - |ms[k]| + 1))
  {
    EndOfBufferRule(str, ms, k);
    HeldFold(str, ms, k, n, |str| - |ms[k]| + 1);
  }

  /** In particular, when none of the markers after k occurs, the boundary
      the end-of-buffer rule set for marker k is the result of the call. */
  lemma OnlyEndOfBuffer(str: string, ms: seq<string>, k: nat)
    requires k < |ms| && EndsWithSpace(ms[k])
    requires FindUpTo(str, ms, k).Ok? && FindUpTo(str, ms, k).m.first < 0
    requires Index(str, ms[k]) < 0
    requires EndsWithStem(str, ms[k])
    requires forall j :: k < j < |ms| ==> Index(str, ms[j]) < 0
    ensures FindSpec(str, ms) == Ok(Match(|str| - |ms[k]| + 1, ms[k]))
  {
    AfterEndOfBuffer(str, ms, k, |ms|);
    BestIsEarliest(str, ms, k + 1, |ms|);
    FindSpecIsFindUpTo(str, ms);
    assert Best(str, ms, k + 1, |ms|) < 0;
  }

  /** The index of the earliest-occurring of markers lo..n-1, the first
      listed on a tie, or -1 when none of them occurs. */
  function Best(str: string, ms: seq<string>, lo: nat, n: nat): (w: int)
    requires lo <= n <= |ms|
    ensures w == -1 || (lo <= w < n && Index(str, ms[w]) >= 0)
    decreases n
  {
    if n == lo then -1
    else
      var p := Best(str, ms, lo, n - 1);
      var i := Index(str, ms[n - 1]);
      if i >= 0 && (p < 0 || i < Index(str, ms[p])) then n - 1 else p
  }

  /** Best is the earliest marker in the sense of Earliest. */
  lemma {:induction false} BestIsEarliest(str: string, ms: seq<string>, lo: nat, n: nat)
    requires lo <= n <= |ms|
    ensures var w := Best(str, ms, lo, n);
            (w >= 0 ==> Earliest(str, ms, lo, n, w))
            && (w < 0 ==> forall j :: lo <= j < n ==> Index(str, ms[j]) < 0)
    decreases n
  {
    if n > lo {
      var m := n - 1;
      BestIsEarliest(str, ms, lo, m);
      var p := Best(str, ms, lo, m);
      var i := Index(str, ms[m]);
      assert Best(str, ms, lo, n) == if i >= 0 && (p < 0 || i < Index(str, ms[p])) then m else p;
      if p < 0 {
        if i >= 0 {
          FirstWinner(str, ms, lo, m);
        }
      } else if i >= 0 && i < Index(str, ms[p]) {
        NewWinner(str, ms, lo, m, p);
      } else {
        WinnerKept(str, ms, lo, m, p);
      }
    }
  }

  /** Searching markers k+1..n-1 while a boundary b set by marker k is held
      ends with the boundary of the earliest of them, if it lies before b. */
  lemma {:induction false} HeldFold(str: string, ms: seq<string>, k: nat, n: nat, b: int)
    requires k < n <= |ms| && 0 <= b <= |str|
    requires FindUpTo(str, ms, k + 1) == Ok(Match(b, ms[k]))
    ensures FindUpTo(str, ms, n) == Ok(Held(str, ms, k, Best(str, ms, k + 1, n), b))
    decreases n
  {
    if n > k + 1 {
      HeldFold(str, ms, k, n - 1, b);
      HeldStep(str, ms, k, n - 1, b);
    }
  }

  /** One more marker searched while the boundary b set by marker k is held. */
  lemma HeldStep(str: string, ms: seq<string>, k: nat, m: nat, b: int)
    requires k < m < |ms| && 0 <= b <= |str|
    requires FindUpTo(str, ms, m) == Ok(Held(str, ms, k, Best(str, ms, k + 1, m), b))
    ensures FindUpTo(str, ms, m + 1) == Ok(Held(str, ms, k, Best(str, ms, k + 1, m + 1), b))
  {
    var p := Best(str, ms, k + 1, m);
    var acc := Held(str, ms, k, p, b);
    FindUpToStep(str, ms, m, acc);
    StepHolding(str, acc, ms[m]);
    var i := Index(str, ms[m]);
    assert Best(str, ms, k + 1, m + 1) == if i >= 0 && (p < 0 || i < Index(str, ms[p])) then m else p;
  }

  /** With the markers the driver holds after "#punctnocommas", the last
      sentence of a line, which ends in "." without a following space, is
      found by the end-of-buffer rule: the boundary is at the full stop. */
  lemma LastSentenceOfLine(str: string)
    requires |str| >= 1 && str[|str| - 1] == '.'
    requires Index(str, "EOS") < 0 && Index(str, ". ") < 0 && Index(str, " ! ") < 0 && Index(str, " ? ") < 0
    ensures FindSpec(str, ["EOS", ". ", " ! ", " ? "]) == Ok(Match(|str| - 1, ". "))
  {
    var ms := ["EOS", ". ", " ! ", " ? "];
    var b := Match(|str| - 1, ". ");
    FullStopFires(str, ms);
    FindUpToStep(str, ms, 2, b);
    StepHolding(str, b, " ! ");
    FindUpToStep(str, ms, 3, b);
    StepHolding(str, b, " ? ");
    FindSpecIsFindUpTo(str, ms);
  }

  /** The end-of-buffer rule fires for ". " on a buffer that ends in a full
      stop when neither "EOS" nor ". " occurs in it. */
  lemma FullStopFires(str: string, ms: seq<string>)
    requires |str| >= 1 && str[|str| - 1] == '.'
    requires |ms| >= 2 && ms[0] == "EOS" && ms[1] == ". "
    requires Index(str, "EOS") < 0 && Index(str, ". ") < 0
    ensures FindUpTo(str, ms, 2) == Ok(Match(|str| - 1, ". "))
  {
    NothingBeforeFullStop(str, ms);
    FindUpToStep(str, ms, 1, Match(-1, "EOS"));
    assert ". "[1] == ' ';
    assert EndsWithStem(str, ". ") by {
      assert ". "[..1] == ".";
    }
  }

  /** "EOS" does not end in a space: when it does not occur, the search
      goes on with nothing found. */
  lemma NothingBeforeFullStop(str: string, ms: seq<string>)
    requires |ms| >= 1 && ms[0] == "EOS" && Index(str, "EOS") < 0
    ensures FindUpTo(str, ms, 1) == Ok(Match(-1, "EOS"))
  {
    assert !EndsWithSpace("EOS") by { assert "EOS"[2] == 'S'; }
  }

  /** The hidden precondition of the end-of-buffer slice: while nothing has
      been found, a marker ending in a space that is more than one character
      longer than the buffer makes the call panic. */
  lemma ShortBufferPanics(str: string, ms: seq<string>, k: nat)
    requires k < |ms| && EndsWithSpace(ms[k]) && |str| < |ms[k]| - 1
    requires FindUpTo(str, ms, k).Ok? && FindUpTo(str, ms, k).m.first < 0
    ensures FindSpec(str, ms) == SliceOutOfRange
  {
    PanicPersists(str, ms, k + 1, |ms|);
    FindSpecIsFindUpTo(str, ms);
  }

  /** Conversely, the search never panics when every marker ending in a
      space is at most one character longer than the buffer. */
  lemma NoPanicOnLongBuffers(str: string, ms: seq<string>)
    requires forall j :: 0 <= j < |ms| && EndsWithSpace(ms[j]) ==> |ms[j]| <= |str| + 1
    ensures FindSpec(str, ms).Ok?
  {
    NoPanicUpTo(str, ms, |ms|);
    FindSpecIsFindUpTo(str, ms);
  }

  lemma {:induction false} NoPanicUpTo(str: string, ms: seq<string>, n: nat)
    requires n <= |ms|
    requires forall j :: 0 <= j < |ms| && EndsWithSpace(ms[j]) ==> |ms[j]| <= |str| + 1
    ensures FindUpTo(str, ms, n).Ok?
    decreases n
  {
    if n > 0 {
      NoPanicUpTo(str, ms, n - 1);
    }
  }

  /** With the markers the driver holds after "#punctnocommas", a buffer of
      one character that holds no boundary panics. */
  lemma OneCharacterBufferPanics(c: char)
    requires c != '.'
    ensures FindSpec([c], ["EOS", ". ", " ! ", " ? "]) == SliceOutOfRange
  {
    var ms := ["EOS", ". ", " ! ", " ? "];
    var str := [c];
    NothingBeforeFullStop(str, ms);
    assert ". "[1] == ' ';
    assert !EndsWithStem(str, ". ") by { assert ". "[..1] == "."; }
    assert FindUpTo(str, ms, 2) == Ok(Match(-1, ". "));
    ShortBufferPanics(str, ms, 2);
  }
}
