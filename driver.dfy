/** The line-by-line driver of punchout.go, makeblanks without its files:
    directive lines change the settings, other lines are cut into sentences
    at the end-of-sentence markers, each new sentence is turned into cloze
    lines, and a chapter heading is written every chapterBreakLines new
    sentences. The state is a class whose fields the methods update; the
    functions over State say what each step does to it. */
module Driver {
  import opened Text
  import opened Sentences
  import opened Tokenizer
  import opened Cloze

  const ResetNote: string := "# issue: reset repetitions tracker"

  /** The heading written when chapter n begins. */
  function ChapterHeading(n: int): string {
    "# chapter " + IntToStr(n)
  }

  /** Everything makeblanks keeps between lines. crashed records that the
      process died of a panic in the boundary search: nothing after it is
      processed. */
  datatype State = State(
    eosMarkers: seq<string>,
    treatEndOfLineAsEndOfSentence: bool,
    outputSourceLineNumbers: bool,
    ignoreRepeats: bool,
    chapterBreakLines: int,
    alreadyUsed: set<string>,
    alreadyAsked: set<string>,
    alreadySentence: set<string>,
    chapterNumber: int,
    lineCount: int,
    inLineNum: int,
    output: seq<string>,
    crashed: bool)

  /** The state before the first line: only the "EOS" marker, every switch
      off, no chapter breaks, chapter 1. */
  function Initial(): State {
    State(["EOS"], false, false, false, 0, {}, {}, {}, 1, 0, 0, [], false)
  }

  // ---------------------------------------------------------------------
  // What one step does to the state

  /** One sentence found in a line: skipped when it was seen before;
      otherwise its cloze lines are written (after its source line number,
      if asked for), it is recorded and counted, and when the count reaches
      the threshold the next chapter begins. */
  function AfterSentence(st: State, item: string): State {
    if item in st.alreadySentence then st else Counted(Written(st, item))
  }

  /** A new sentence written out: its source line number if asked for, its
      cloze lines, and the seen-sets updated. */
  function Written(st: State, item: string): State {
    var numbered := st.output + (if st.outputSourceLineNumbers then ["# line " + IntToStr(st.inLineNum)] else []);
    var sheet := ClozeOf(item, st.alreadyUsed, st.alreadyAsked, st.ignoreRepeats);
    st.(output := numbered + sheet.lines, alreadyUsed := sheet.used, alreadyAsked := sheet.asked,
        alreadySentence := st.alreadySentence + {item})
  }

  /** The chapter counter after one more sentence. */
  function Counted(st: State): State {
    if st.lineCount + 1 == st.chapterBreakLines then
      st.(chapterNumber := st.chapterNumber + 1,
          output := st.output + [""] + [ChapterHeading(st.chapterNumber + 1)],
          lineCount := 0)
    else st.(lineCount := st.lineCount + 1)
  }

  /** The sentence loop, from a boundary at first with marker found in the
      rest inline of the line. It runs while first > 0, so a boundary at
      offset 0 ends it; the rest is searched again before the sentence is
      written, so a panic there loses the sentence too. */
  function AfterSentenceLoop(st: State, inline: string, first: int, found: string): State
    requires -1 <= first <= |inline|
    decreases |inline|
  {
    if first <= 0 then st
    else
      var item := if found == "EOS" then inline[..first] else inline[..first] + found;
      if first + |found| >= |inline| then AfterSentence(st, item)
      else
        var rest := inline[first + |found|..];
        match FindSpec(rest, st.eosMarkers)
        case SliceOutOfRange => st.(crashed := true)
        case Ok(m) => AfterSentenceLoop(AfterSentence(st, item), rest, m.first, m.found)
  }

  /** A line starting with '#': echoed, then each directive it names. */
  function AfterDirective(st: State, line: string): State {
    var s0 := st.(output := st.output + [line]);
    ChapterBreaks(Switches(s0, line), line)
  }

  /** The directives that are whole lines. */
  function Switches(st: State, line: string): State {
    if line == "#reset" then st.(alreadyUsed := {}, output := st.output + [ResetNote])
    else if line == "#lines" then st.(treatEndOfLineAsEndOfSentence := true)
    else if line == "#sourcelinenumbers" then st.(outputSourceLineNumbers := true)
    else if line == "#commas" then st.(eosMarkers := st.eosMarkers + [", "] + [". "] + [" ! "] + [" ? "])
    else if line == "#punctnocommas" then st.(eosMarkers := st.eosMarkers + [". "] + [" ! "] + [" ? "])
    else if line == "#ignorerepeats" then st.(ignoreRepeats := true)
    else st
  }

  /** Of the literals ApplySwitches tests one after the other, only these
      two pairs have equal lengths; they differ in their second character.
      The other pairs differ in length, so at most one test succeeds and the
      sequential tests act as the else-if chain of Switches. */
  lemma DirectivesDistinct()
    ensures "#reset" != "#lines" && "#punctnocommas" != "#ignorerepeats"
  {
    assert "#reset"[1] != "#lines"[1];
    assert "#punctnocommas"[1] != "#ignorerepeats"[1];
  }

  /** "#chapterbreaks N": a threshold that parses sets the threshold and
      starts chapter 1; anything else is only echoed. */
  function ChapterBreaks(st: State, line: string): State {
    if |line| > 15 && line[..15] == "#chapterbreaks " && ParseInt(line[15..]).Some? then
      st.(chapterBreakLines := ParseInt(line[15..]).value, chapterNumber := 1,
          output := st.output + [""] + [ChapterHeading(1)])
    else st
  }

  /** One line read from the input, with its line terminator. */
  function AfterLine(st: State, raw: string): State {
    if st.crashed then st
    else
      var st1 := st.(inLineNum := st.inLineNum + 1);
      var line := Trim(raw);
      if line == [] then st1.(output := st1.output + [line])
      else if line[0] == '#' then AfterDirective(st1, line)
      else
        AfterSentences(st1, if st1.treatEndOfLineAsEndOfSentence then line + "EOS" else line)
  }

  /** A line of prose: searched for its first boundary, then the sentence
      loop. */
  function AfterSentences(st: State, inline: string): State {
    match FindSpec(inline, st.eosMarkers)
    case SliceOutOfRange => st.(crashed := true)
    case Ok(m) => AfterSentenceLoop(st, inline, m.first, m.found)
  }

  /** The lines in order. */
  function AfterLines(st: State, lines: seq<string>): State
    decreases |lines|
  {
    if lines == [] then st else AfterLine(AfterLines(st, lines[..|lines| - 1]), lines[|lines| - 1])
  }

  // ---------------------------------------------------------------------
  // The driver

  class Punchout {
    var eosMarkers: seq<string>
    var treatEndOfLineAsEndOfSentence: bool
    var outputSourceLineNumbers: bool
    var ignoreRepeats: bool
    var chapterBreakLines: int
    var alreadyUsed: set<string>
    var alreadyAsked: set<string>
    var alreadySentence: set<string>
    var chapterNumber: int
    var lineCount: int
    var inLineNum: int
    var output: seq<string>
    var crashed: bool

    ghost function Snapshot(): State
      reads this
    {
      State(eosMarkers, treatEndOfLineAsEndOfSentence, outputSourceLineNumbers, ignoreRepeats,
            chapterBreakLines, alreadyUsed, alreadyAsked, alreadySentence,
            chapterNumber, lineCount, inLineNum, output, crashed)
    }

    /** The set-up at the top of makeblanks. */
    constructor()
      ensures Snapshot() == Initial()
    {
      alreadyUsed := {};
      alreadyAsked := {};
      alreadySentence := {};
      chapterNumber := 1;
      lineCount := 0;
      inLineNum := 0;
      eosMarkers := ["EOS"];
      treatEndOfLineAsEndOfSentence := false;
      outputSourceLineNumbers := false;
      ignoreRepeats := false;
      chapterBreakLines := 0;
      output := [];
      crashed := false;
    }

    /** The end of the sentence loop body: de-duplication, cloze lines and
        the chapter counter. */
    method EmitSentence(item: string)
      modifies this
      ensures Snapshot() == AfterSentence(old(Snapshot()), item)
    {
      if item !in alreadySentence {
        WriteSentence(item);
        CountSentence();
      }
    }

    /** A new sentence: its source line number if asked for, its cloze
        lines, and the record that it was seen. */
    method WriteSentence(item: string)
      modifies this
      ensures Snapshot() == Written(old(Snapshot()), item)
    {
      ghost var st := Snapshot();
      ghost var numbered := st.output + (if st.outputSourceLineNumbers then ["# line " + IntToStr(st.inLineNum)] else []);
      if outputSourceLineNumbers {
        output := output + ["# line " + IntToStr(inLineNum)];
      }
      assert output == numbered;
      var sheet := BlankizeSentence(item, alreadyUsed, alreadyAsked, ignoreRepeats);
      output := output + sheet.lines;
      alreadyUsed, alreadyAsked := sheet.used, sheet.asked;
      alreadySentence := alreadySentence + {item};
    }

    /** The chapter counter. */
    method CountSentence()
      modifies this
      ensures Snapshot() == Counted(old(Snapshot()))
    {
      lineCount := lineCount + 1;
      if lineCount == chapterBreakLines {
        chapterNumber := chapterNumber + 1;
        output := output + [""];
        output := output + [ChapterHeading(chapterNumber)];
        lineCount := 0;
      }
    }

    /** The directive branch of the line loop. */
    method ApplyDirective(line: string)
      modifies this
      ensures Snapshot() == AfterDirective(old(Snapshot()), line)
    {
      output := output + [line];
      ApplySwitches(line);
      ApplyChapterBreaks(line);
    }

    /** The directives that are whole lines, tested one after another. */
    method ApplySwitches(line: string)
      modifies this
      ensures Snapshot() == Switches(old(Snapshot()), line)
    {
      DirectivesDistinct();
      if line == "#reset" {
        alreadyUsed := {};
        output := output + [ResetNote];
      }
      if line == "#lines" {
        treatEndOfLineAsEndOfSentence := true;
      }
      if line == "#sourcelinenumbers" {
        outputSourceLineNumbers := true;
      }
      if line == "#commas" {
        eosMarkers := eosMarkers + [", "];
        eosMarkers := eosMarkers + [". "];
        eosMarkers := eosMarkers + [" ! "];
        eosMarkers := eosMarkers + [" ? "];
      }
      if line == "#punctnocommas" {
        eosMarkers := eosMarkers + [". "];
        eosMarkers := eosMarkers + [" ! "];
        eosMarkers := eosMarkers + [" ? "];
      }
      if line == "#ignorerepeats" {
        ignoreRepeats := true;
      }
    }

    /** "#chapterbreaks N". */
    method ApplyChapterBreaks(line: string)
      modifies this
      ensures Snapshot() == ChapterBreaks(old(Snapshot()), line)
    {
      if |line| > 15 {
        if line[..15] == "#chapterbreaks " {
          var tempVar := ParseInt(line[15..]);
          if tempVar.Some? {
            chapterBreakLines := tempVar.value;
            chapterNumber := 1;
            output := output + [""];
            output := output + [ChapterHeading(chapterNumber)];
          }
        }
      }
    }

    /** One pass of the line loop of makeblanks, for a line read together
        with its terminator. */
    method ProcessLine(raw: string)
      modifies this
      ensures Snapshot() == AfterLine(old(Snapshot()), raw)
    {
      if crashed {
        return;
      }
      inLineNum := inLineNum + 1;
      var inline := Trim(raw);
      if |inline| == 0 {
        output := output + [inline];
        return;
      }
      if inline[0] == '#' {
        ApplyDirective(inline);
        return;
      }
      if treatEndOfLineAsEndOfSentence {
        inline := inline + "EOS";
      }
      SplitSentences(inline);
    }

    /** The sentence loop of makeblanks: cut the line at each boundary,
        and write each sentence found before the next search. */
    method SplitSentences(line: string)
      requires !crashed
      modifies this
      ensures Snapshot() == AfterSentences(old(Snapshot()), line)
    {
      var inline := line;
      var r := FindFirstEndOfSentence(inline, eosMarkers);
      if r.SliceOutOfRange? {
        crashed := true;
        return;
      }
      var first, found := r.m.first, r.m.found;
      ghost var goal := AfterSentences(old(Snapshot()), line);
      while first > 0
        invariant -1 <= first <= |inline|
        invariant !crashed
        invariant AfterSentenceLoop(Snapshot(), inline, first, found) == goal
        decreases |inline|
      {
        var item;
        if found == "EOS" {
          item := inline[..first];
        } else {
          item := inline[..first] + found;
        }
        ghost var before := Snapshot();
        if first + |found| >= |inline| {
          assert goal == AfterSentence(before, item);
          inline := "";
          first := -1;
        } else {
          var rest := inline[first + |found|..];
          r := FindFirstEndOfSentence(rest, eosMarkers);
          if r.SliceOutOfRange? {
            assert goal == before.(crashed := true);
            crashed := true;
            return;
          }
          assert goal == AfterSentenceLoop(AfterSentence(before, item), rest, r.m.first, r.m.found);
          inline := rest;
          first, found := r.m.first, r.m.found;
        }
        EmitSentence(item);
      }
    }
  }

  /** makeblanks over the lines read from the input file: everything it
      writes to the output file. */
  method MakeBlanks(lines: seq<string>) returns (output: seq<string>)
    ensures output == AfterLines(Initial(), lines).output
  {
    var p := new Punchout();
    for i := 0 to |lines|
      invariant p.Snapshot() == AfterLines(Initial(), lines[..i])
    {
      assert lines[..i + 1][..i] == lines[..i];
      p.ProcessLine(lines[i]);
    }
    assert lines[..|lines|] == lines;
    output := p.output;
  }

  // ---------------------------------------------------------------------
  // What the directives do

  /** "#reset" empties the answer keys only: the question keys and the
      sentences seen stay. */
  lemma ResetReplacesOnlyUsed(st: State)
    ensures AfterDirective(st, "#reset") == st.(alreadyUsed := {}, output := st.output + ["#reset", ResetNote])
  {
    assert st.output + ["#reset"] + [ResetNote] == st.output + ["#reset", ResetNote];
  }

  /** "#commas" and "#punctnocommas" append their markers after the ones
      already there, and change nothing else. */
  lemma MarkerDirectivesAppend(st: State)
    ensures AfterDirective(st, "#commas")
         == st.(eosMarkers := st.eosMarkers + [", ", ". ", " ! ", " ? "], output := st.output + ["#commas"])
    ensures AfterDirective(st, "#punctnocommas")
         == st.(eosMarkers := st.eosMarkers + [". ", " ! ", " ? "], output := st.output + ["#punctnocommas"])
  {
    assert st.eosMarkers + [", "] + [". "] + [" ! "] + [" ? "] == st.eosMarkers + [", ", ". ", " ! ", " ? "];
    assert st.eosMarkers + [". "] + [" ! "] + [" ? "] == st.eosMarkers + [". ", " ! ", " ? "];
  }

  /** "#lines", "#sourcelinenumbers" and "#ignorerepeats" each turn on
      their switch and change nothing else. */
  lemma SwitchDirectives(st: State)
    ensures AfterDirective(st, "#lines") == st.(treatEndOfLineAsEndOfSentence := true, output := st.output + ["#lines"])
    ensures AfterDirective(st, "#sourcelinenumbers") == st.(outputSourceLineNumbers := true, output := st.output + ["#sourcelinenumbers"])
    ensures AfterDirective(st, "#ignorerepeats") == st.(ignoreRepeats := true, output := st.output + ["#ignorerepeats"])
  {
    assert "#sourcelinenumbers"[..15][1] != "#chapterbreaks "[1];
  }

  /** "#chapterbreaks N" where N parses as a 64-bit number (with a sign or
      leading zeros or not) sets the threshold, starts chapter 1 and writes
      its heading; the count of sentences in the current chapter is left as
      it was. */
  lemma ChapterBreaksSet(st: State, line: string, n: int)
    requires |line| > 15 && line[..15] == "#chapterbreaks " && ParseInt(line[15..]) == Some(n)
    ensures AfterDirective(st, line)
            == st.(chapterBreakLines := n, chapterNumber := 1, output := st.output + [line, "", "# chapter 1"])
  {
    var s0 := st.(output := st.output + [line]);
    SwitchesIgnoreChapterBreaks(s0, line);
    assert ChapterHeading(1) == "# chapter 1";
    assert st.output + [line] + [""] + [ChapterHeading(1)] == st.output + [line, "", "# chapter 1"];
  }

  /** In particular every 64-bit number written out in decimal is accepted
      as a threshold. */
  lemma ChapterBreaksCanonical(st: State, n: int)
    requires MinInt64 <= n <= MaxInt64
    ensures var line := "#chapterbreaks " + IntToStr(n);
            AfterDirective(st, line)
            == st.(chapterBreakLines := n, chapterNumber := 1, output := st.output + [line, "", "# chapter 1"])
  {
    var line := "#chapterbreaks " + IntToStr(n);
    ParseIntRoundTrip(n);
    assert line[..15] == "#chapterbreaks ";
    assert line[15..] == IntToStr(n);
    ChapterBreaksSet(st, line, n);
  }

  /** A "#chapterbreaks " line is none of the whole-line directives. */
  lemma SwitchesIgnoreChapterBreaks(st: State, line: string)
    requires |line| > 15 && line[..15] == "#chapterbreaks "
    ensures Switches(st, line) == st
  {
    assert line[1] == "#chapterbreaks "[1];
    assert line != "#sourcelinenumbers" by {
      assert "#sourcelinenumbers"[1] != "#chapterbreaks "[1];
    }
  }

  /** "#chapterbreaks " followed by anything that is not a 64-bit number is
      only echoed. */
  lemma ChapterBreaksIgnoresNonNumber(st: State, line: string)
    requires |line| > 15 && line[..15] == "#chapterbreaks " && ParseInt(line[15..]).None?
    ensures AfterDirective(st, line) == st.(output := st.output + [line])
  {
    SwitchesIgnoreChapterBreaks(st.(output := st.output + [line]), line);
  }

  /** No directive touches the question keys, the sentences seen, the
      sentence count of the chapter or the line number; the markers and the
      output only grow, and the line itself is written first. */
  lemma DirectiveKeepsCounts(st: State, line: string)
    ensures var st' := AfterDirective(st, line);
            st'.alreadyAsked == st.alreadyAsked && st'.alreadySentence == st.alreadySentence
            && st'.lineCount == st.lineCount && st'.inLineNum == st.inLineNum && st'.crashed == st.crashed
            && st.eosMarkers <= st'.eosMarkers
            && st.output + [line] <= st'.output
  {
    var s0 := st.(output := st.output + [line]);
    SwitchesKeep(s0, line);
  }

  lemma SwitchesKeep(st: State, line: string)
    ensures var st' := Switches(st, line);
            st'.alreadyAsked == st.alreadyAsked && st'.alreadySentence == st.alreadySentence
            && st'.lineCount == st.lineCount && st'.inLineNum == st.inLineNum && st'.crashed == st.crashed
            && st'.chapterNumber == st.chapterNumber
            && st.eosMarkers <= st'.eosMarkers && st.output <= st'.output
  {
    if line == "#reset" {
    } else if line == "#commas" {
      assert st.eosMarkers <= st.eosMarkers + [", "] + [". "] + [" ! "] + [" ? "];
    } else if line == "#punctnocommas" {
      assert st.eosMarkers <= st.eosMarkers + [". "] + [" ! "] + [" ? "];
    }
  }

  // ---------------------------------------------------------------------
  // Sentences and chapters

  /** A sentence seen before changes nothing; a new one is recorded, and
      the chapter counter goes up by one, wrapping to 0 (with the next
      chapter begun) when it reaches the threshold. */
  lemma SentenceCounted(st: State, item: string)
    ensures item in st.alreadySentence ==> AfterSentence(st, item) == st
    ensures item !in st.alreadySentence ==>
              var st' := AfterSentence(st, item);
              st'.alreadySentence == st.alreadySentence + {item}
              && |st'.alreadySentence| == |st.alreadySentence| + 1
              && st.output <= st'.output
              && (st.lineCount + 1 == st.chapterBreakLines ==>
                    st'.lineCount == 0 && st'.chapterNumber == st.chapterNumber + 1
                    && st'.output[|st'.output| - 1] == ChapterHeading(st.chapterNumber + 1))
              && (st.lineCount + 1 != st.chapterBreakLines ==>
                    st'.lineCount == st.lineCount + 1 && st'.chapterNumber == st.chapterNumber)
  {
  }

  /** What the sentence loop keeps: the markers, the switches, the
      threshold and the line number; the seen-sets of questions and
      sentences and the output only grow. */
  lemma {:induction false} SentenceLoopKeeps(st: State, inline: string, first: int, found: string)
    requires -1 <= first <= |inline|
    ensures var st' := AfterSentenceLoop(st, inline, first, found);
            st'.eosMarkers == st.eosMarkers && st'.chapterBreakLines == st.chapterBreakLines
            && st'.treatEndOfLineAsEndOfSentence == st.treatEndOfLineAsEndOfSentence
            && st'.outputSourceLineNumbers == st.outputSourceLineNumbers
            && st'.ignoreRepeats == st.ignoreRepeats && st'.inLineNum == st.inLineNum
            && st.alreadyAsked <= st'.alreadyAsked && st.alreadySentence <= st'.alreadySentence
            && st.output <= st'.output
    decreases |inline|
  {
    if first > 0 {
      var item := if found == "EOS" then inline[..first] else inline[..first] + found;
      SentencesGrow(st, item);
      if first + |found| < |inline| {
        var rest := inline[first + |found|..];
        match FindSpec(rest, st.eosMarkers)
        case SliceOutOfRange =>
        case Ok(m) => SentenceLoopKeeps(AfterSentence(st, item), rest, m.first, m.found);
      }
    }
  }

  lemma SentencesGrow(st: State, item: string)
    ensures var st' := AfterSentence(st, item);
            st'.eosMarkers == st.eosMarkers && st'.chapterBreakLines == st.chapterBreakLines
            && st'.treatEndOfLineAsEndOfSentence == st.treatEndOfLineAsEndOfSentence
            && st'.outputSourceLineNumbers == st.outputSourceLineNumbers
            && st'.ignoreRepeats == st.ignoreRepeats && st'.inLineNum == st.inLineNum
            && st.alreadyAsked <= st'.alreadyAsked && st.alreadySentence <= st'.alreadySentence
            && st.output <= st'.output
  {
    if item !in st.alreadySentence {
      ClozeSeen(Split(item), |Split(item)|, st.alreadyUsed, st.alreadyAsked, st.ignoreRepeats);
    }
  }

  /** From st to st', every threshold's worth of new sentences started one
      new chapter, and the count in the current chapter holds the rest:
      (chapters added) * threshold + new count == old count + new sentences. */
  predicate ChapterAccount(st: State, st': State) {
    0 <= st'.lineCount < st'.chapterBreakLines && st'.chapterBreakLines == st.chapterBreakLines
    && (st'.chapterNumber - st.chapterNumber) * st.chapterBreakLines + st'.lineCount
       == st.lineCount + (|st'.alreadySentence| - |st.alreadySentence|)
  }

  /** With a positive threshold and a count below it, the sentence loop
      keeps the count below the threshold and starts one chapter per
      threshold's worth of new sentences. */
  lemma {:induction false} SentenceLoopChapters(st: State, inline: string, first: int, found: string)
    requires -1 <= first <= |inline|
    requires 0 <= st.lineCount < st.chapterBreakLines
    ensures ChapterAccount(st, AfterSentenceLoop(st, inline, first, found))
    decreases |inline|
  {
    if first > 0 {
      var item := if found == "EOS" then inline[..first] else inline[..first] + found;
      var mid := AfterSentence(st, item);
      SentenceChapterStep(st, item);
      if first + |found| < |inline| {
        var rest := inline[first + |found|..];
        match FindSpec(rest, st.eosMarkers)
        case SliceOutOfRange =>
          ChapterAccountRefl(st, st.(crashed := true));
        case Ok(m) =>
          var last := AfterSentenceLoop(mid, rest, m.first, m.found);
          assert AfterSentenceLoop(st, inline, first, found) == last;
          SentenceLoopChapters(mid, rest, m.first, m.found);
          ChapterAccountTrans(st, mid, last);
      }
    } else {
      ChapterAccountRefl(st, st);
    }
  }

  lemma ChapterAccountRefl(st: State, st': State)
    requires 0 <= st.lineCount < st.chapterBreakLines
    requires st'.lineCount == st.lineCount && st'.chapterBreakLines == st.chapterBreakLines
    requires st'.chapterNumber == st.chapterNumber && st'.alreadySentence == st.alreadySentence
    ensures ChapterAccount(st, st')
  {
  }

  lemma ChapterAccountTrans(s0: State, s1: State, s2: State)
    requires ChapterAccount(s0, s1) && ChapterAccount(s1, s2)
    ensures ChapterAccount(s0, s2)
  {
    var n := s0.chapterBreakLines;
    assert (s2.chapterNumber - s0.chapterNumber) * n
        == (s2.chapterNumber - s1.chapterNumber) * n + (s1.chapterNumber - s0.chapterNumber) * n;
  }

  /** SentenceLoopChapters for one sentence. */
  lemma SentenceChapterStep(st: State, item: string)
    requires 0 <= st.lineCount < st.chapterBreakLines
    ensures ChapterAccount(st, AfterSentence(st, item))
    ensures AfterSentence(st, item).eosMarkers == st.eosMarkers
  {
    SentenceCounted(st, item);
  }

  /** A threshold the count has already reached or passed (0, the default,
      or a negative one, or one lowered below the count) never fires: the
      chapter number stays and the count just grows by the new sentences. */
  lemma {:induction false} StaleThresholdNeverFires(st: State, inline: string, first: int, found: string)
    requires -1 <= first <= |inline|
    requires st.chapterBreakLines <= st.lineCount
    ensures var st' := AfterSentenceLoop(st, inline, first, found);
            st'.chapterNumber == st.chapterNumber
            && st'.lineCount == st.lineCount + (|st'.alreadySentence| - |st.alreadySentence|)
    decreases |inline|
  {
    if first > 0 {
      var item := if found == "EOS" then inline[..first] else inline[..first] + found;
      SentenceCounted(st, item);
      SentencesGrow(st, item);
      if first + |found| < |inline| {
        var rest := inline[first + |found|..];
        match FindSpec(rest, st.eosMarkers)
        case SliceOutOfRange =>
        case Ok(m) =>
          var mid := AfterSentence(st, item);
          StaleThresholdNeverFires(mid, rest, m.first, m.found);
      }
    }
  }

  // ---------------------------------------------------------------------
  // Lines

  /** A prose line whose first boundary is at offset 0, or that has none,
      writes nothing: only the line number advances. */
  lemma NoBoundaryDropsLine(st: State, raw: string)
    requires !st.crashed
    requires Trim(raw) != [] && Trim(raw)[0] != '#'
    requires var inline := if st.treatEndOfLineAsEndOfSentence then Trim(raw) + "EOS" else Trim(raw);
             FindSpec(inline, st.eosMarkers).Ok? && FindSpec(inline, st.eosMarkers).m.first <= 0
    ensures AfterLine(st, raw) == st.(inLineNum := st.inLineNum + 1)
  {
  }

  /** With the initial markers and without "#lines", prose that does not
      spell "EOS" is dropped. */
  lemma DefaultDropsProse(st: State, raw: string)
    requires !st.crashed && st.eosMarkers == ["EOS"] && !st.treatEndOfLineAsEndOfSentence
    requires Trim(raw) != [] && Trim(raw)[0] != '#' && Index(Trim(raw), "EOS") < 0
    ensures AfterLine(st, raw) == st.(inLineNum := st.inLineNum + 1)
  {
    var line := Trim(raw);
    NothingBeforeFullStop(line, ["EOS"]);
    FindSpecIsFindUpTo(line, ["EOS"]);
    assert FindSpec(line, ["EOS"]) == Ok(Match(-1, "EOS"));
    NoBoundaryDropsLine(st, raw);
  }

  /** "EOS" appended to a line that does not contain it is found just
      after the line. */
  lemma AppendedEOSFound(line: string)
    requires Index(line, "EOS") < 0
    ensures Index(line + "EOS", "EOS") == |line|
  {
    var s := line + "EOS";
    IndexIsFirst(line, "EOS");
    IndexIsFirst(s, "EOS");
    assert OccursAt(s, "EOS", |line|) by {
      assert s[|line|..|line| + 3] == "EOS";
    }
    forall k | 0 <= k < |line| ensures !OccursAt(s, "EOS", k) {
      if k + 3 <= |line| {
        assert s[k..k + 3] == line[k..k + 3];
        assert !OccursAt(line, "EOS", k);
      } else if k == |line| - 1 {
        assert s[k..k + 3][1] == 'E';
      } else {
        assert s[k..k + 3][2] == 'E';
      }
    }
  }

  /** In "#lines" mode with the initial markers, a prose line that does not
      spell "EOS" is one sentence. */
  lemma LinesModeOneSentence(st: State, raw: string)
    requires !st.crashed && st.eosMarkers == ["EOS"] && st.treatEndOfLineAsEndOfSentence
    requires Trim(raw) != [] && Trim(raw)[0] != '#' && Index(Trim(raw), "EOS") < 0
    ensures AfterLine(st, raw) == AfterSentence(st.(inLineNum := st.inLineNum + 1), Trim(raw))
  {
    var line := Trim(raw);
    var inline := line + "EOS";
    AppendedEOSFound(line);
    FindUpToStep(inline, ["EOS"], 0, Match(-1, ""));
    FindSpecIsFindUpTo(inline, ["EOS"]);
    assert FindSpec(inline, ["EOS"]) == Ok(Match(|line|, "EOS"));
    assert inline[..|line|] == line;
  }

  /** Once the process has died nothing more happens. */
  lemma {:induction false} CrashIsFinal(st: State, lines: seq<string>)
    requires st.crashed
    ensures AfterLines(st, lines) == st
    decreases |lines|
  {
    if lines != [] {
      CrashIsFinal(st, lines[..|lines| - 1]);
    }
  }

  /** Over any run the markers and the output only grow, the question keys
      and the sentences seen are never forgotten (unlike the answer keys,
      which "#reset" clears), and the line number counts the lines read
      until a panic. */
  lemma {:induction false} RunGrows(st: State, lines: seq<string>)
    ensures var st' := AfterLines(st, lines);
            st.eosMarkers <= st'.eosMarkers && st.output <= st'.output
            && st.alreadyAsked <= st'.alreadyAsked && st.alreadySentence <= st'.alreadySentence
            && st.inLineNum <= st'.inLineNum <= st.inLineNum + |lines|
            && (!st'.crashed ==> st'.inLineNum == st.inLineNum + |lines|)
    decreases |lines|
  {
    if lines != [] {
      var init := lines[..|lines| - 1];
      RunGrows(st, init);
      var mid := AfterLines(st, init);
      LineGrows(mid, lines[|lines| - 1]);
      if !AfterLines(st, lines).crashed {
        assert !mid.crashed;
      }
    }
  }

  lemma LineGrows(st: State, raw: string)
    ensures var st' := AfterLine(st, raw);
            st.eosMarkers <= st'.eosMarkers && st.output <= st'.output
            && st.alreadyAsked <= st'.alreadyAsked && st.alreadySentence <= st'.alreadySentence
            && st'.inLineNum == (if st.crashed then st.inLineNum else st.inLineNum + 1)
            && (st.crashed ==> st'.crashed)
  {
    if !st.crashed {
      var st1 := st.(inLineNum := st.inLineNum + 1);
      var line := Trim(raw);
      if line != [] {
        if line[0] == '#' {
          DirectiveKeepsCounts(st1, line);
        } else {
          ProseGrows(st1, if st1.treatEndOfLineAsEndOfSentence then line + "EOS" else line);
        }
      }
    }
  }

  lemma ProseGrows(st: State, inline: string)
    ensures var st' := AfterSentences(st, inline);
            st.eosMarkers == st'.eosMarkers && st.output <= st'.output
            && st.alreadyAsked <= st'.alreadyAsked && st.alreadySentence <= st'.alreadySentence
            && st'.inLineNum == st.inLineNum
  {
    match FindSpec(inline, st.eosMarkers)
    case SliceOutOfRange =>
    case Ok(m) => SentenceLoopKeeps(st, inline, m.first, m.found);
  }

  /** After "#punctnocommas", the line "A. B" makes the search of its
      remainder "B" panic: the sentence "A. " before it is lost with the
      rest of the input. */
  lemma PanicLosesSentence(rest: seq<string>)
    ensures var st := AfterLines(Initial(), ["#punctnocommas\n", "A. B\n"] + rest);
            st.crashed && st.output == ["#punctnocommas"] && st.alreadySentence == {}
  {
    var lines := ["#punctnocommas\n", "A. B\n"];
    var s1 := SampleFirstLine();
    assert AfterLines(Initial(), lines[..1]) == s1 by {
      assert lines[..1][..0] == [];
    }
    var s2 := SampleSecondLine(s1);
    assert AfterLines(Initial(), lines) == s2 by {
      assert lines[..2][..1] == lines[..1];
      assert lines[..2] == lines;
    }
    CrashIsFinal(s2, rest);
    AfterLinesAppend(Initial(), lines, rest);
  }

  lemma SampleFirstLine() returns (s1: State)
    ensures s1 == AfterLine(Initial(), "#punctnocommas\n")
    ensures s1 == Initial().(inLineNum := 1, eosMarkers := ["EOS", ". ", " ! ", " ? "], output := ["#punctnocommas"])
  {
    var s0 := Initial().(inLineNum := 1);
    assert Trim("#punctnocommas\n") == "#punctnocommas";
    MarkerDirectivesAppend(s0);
    s1 := AfterLine(Initial(), "#punctnocommas\n");
  }

  lemma SampleSecondLine(s1: State) returns (s2: State)
    requires !s1.crashed && s1.eosMarkers == ["EOS", ". ", " ! ", " ? "] && !s1.treatEndOfLineAsEndOfSentence
    ensures s2 == AfterLine(s1, "A. B\n")
    ensures s2 == s1.(inLineNum := s1.inLineNum + 1, crashed := true)
  {
    assert Trim("A. B\n") == "A. B";
    SampleBoundary();
    OneCharacterBufferPanics('B');
    assert "A. B"[1 + 2..] == "B";
    s2 := AfterLine(s1, "A. B\n");
  }

  /** The first boundary of "A. B" after "#punctnocommas". */
  lemma SampleBoundary()
    ensures FindSpec("A. B", ["EOS", ". ", " ! ", " ? "]) == Ok(Match(1, ". "))
  {
    var str := "A. B";
    var ms := ["EOS", ". ", " ! ", " ? "];
    SampleIndexes();
    NothingBeforeFullStop(str, ms);
    assert FindUpTo(str, ms, 2) == Ok(Match(1, ". "));
    StepHolding(str, Match(1, ". "), " ! ");
    assert FindUpTo(str, ms, 3) == Ok(Match(1, ". "));
    StepHolding(str, Match(1, ". "), " ? ");
    FindSpecIsFindUpTo(str, ms);
  }

  lemma SampleIndexes()
    ensures Index("A. B", "EOS") == -1 && Index("A. B", ". ") == 1
    ensures Index("A. B", " ! ") == -1 && Index("A. B", " ? ") == -1
  {
    var str := "A. B";
    IndexIsFirst(str, "EOS");
    assert Index(str, "EOS") == -1 by {
      assert !OccursAt(str, "EOS", 0) by { assert str[0..3][0] == 'A'; }
      assert !OccursAt(str, "EOS", 1) by { assert str[1..4][0] == '.'; }
    }
    IndexIsFirst(str, ". ");
    assert Index(str, ". ") == 1 by {
      assert OccursAt(str, ". ", 1) by { assert str[1..3] == ". "; }
      assert !OccursAt(str, ". ", 0) by { assert str[0..2][0] == 'A'; }
    }
    IndexIsFirst(str, " ! ");
    assert Index(str, " ! ") == -1 by {
      assert !OccursAt(str, " ! ", 0) by { assert str[0..3][0] == 'A'; }
      assert !OccursAt(str, " ! ", 1) by { assert str[1..4][0] == '.'; }
    }
    IndexIsFirst(str, " ? ");
    assert Index(str, " ? ") == -1 by {
      assert !OccursAt(str, " ? ", 0) by { assert str[0..3][0] == 'A'; }
      assert !OccursAt(str, " ? ", 1) by { assert str[1..4][0] == '.'; }
    }
  }

  /** Reading a + b is reading a, then b. */
  lemma {:induction false} AfterLinesAppend(st: State, a: seq<string>, b: seq<string>)
    ensures AfterLines(st, a + b) == AfterLines(AfterLines(st, a), b)
    decreases |b|
  {
    if b == [] {
      assert a + b == a;
    } else {
      var init := b[..|b| - 1];
      assert (a + b)[..|a + b| - 1] == a + init;
      assert (a + b)[|a + b| - 1] == b[|b| - 1];
      AfterLinesAppend(st, a, init);
    }
  }
}
