/** The cloze generator of punchout.go, blankizeSentence: one line per word
    entry of a sentence, showing the sentence with that entry wrapped in
    underscores, followed by the diagnostics for it; two seen-sets record
    every answer key and question key so that repeats are reported. */
module Cloze {
  import opened Tokenizer

  const AllInBlankNote: string := "# issue: ^^ All characters are in blank!"
  // The two longest notes are written in pieces: the verifier shows piece
  // by piece that no '_' occurs in them (NotesHaveNoUnderscore), which it
  // cannot do within its resource bound for the whole sentence at once.
  const NoneInBlankNote: string := "# issue: ^^ No characters " + "are in blanks! Nothing is " + "being asked!"
  const RepetitionNote: string := "# issue: ^^ answer is a repetition"
  const IndistinguishableNote: string := "# issue: ^^ question being " + "asked is indistinguishable " + "from a previous question!"

  /** The diagnostic lines blankizeSentence can write. */
  const Notes: set<string> := {AllInBlankNote, NoneInBlankNote, RepetitionNote, IndistinguishableNote}

  // ---------------------------------------------------------------------
  // One blanked variant

  /** "_" followed by the section, for every entry, concatenated. */
  function Keys(toks: seq<Entry>): string
    decreases |toks|
  {
    if toks == [] then "" else Keys(toks[..|toks| - 1]) + "_" + toks[|toks| - 1].section
  }

  /** The sum of the length fields. */
  function Lengths(toks: seq<Entry>): int
    decreases |toks|
  {
    if toks == [] then 0 else Lengths(toks[..|toks| - 1]) + toks[|toks| - 1].length
  }

  /** The sentence with entry i wrapped in underscores. */
  function BlankLine(toks: seq<Entry>, i: int): string
    requires 0 <= i < |toks|
  {
    Joined(toks[..i]) + "_" + toks[i].section + "_" + Joined(toks[i + 1..])
  }

  /** What is asked: the blanked section, behind an underscore. */
  function AnswerKey(toks: seq<Entry>, i: int): string
    requires 0 <= i < |toks|
  {
    "_" + toks[i].section
  }

  /** What the question looks like without its answer: every other section,
      each behind an underscore. */
  function QuestionKey(toks: seq<Entry>, i: int): string
    requires 0 <= i < |toks|
  {
    Keys(toks[..i]) + Keys(toks[i + 1..])
  }

  /** The source's count of characters outside the blank: the sum of the
      other entries' length fields. */
  function OutOfBlank(toks: seq<Entry>, i: int): int
    requires 0 <= i < |toks|
  {
    Lengths(toks[..i]) + Lengths(toks[i + 1..])
  }

  lemma JoinedSlice(toks: seq<Entry>, a: int, j: int)
    requires 0 <= a <= j < |toks|
    ensures Joined(toks[a..j + 1]) == Joined(toks[a..j]) + toks[j].section
    ensures Keys(toks[a..j + 1]) == Keys(toks[a..j]) + "_" + toks[j].section
    ensures Lengths(toks[a..j + 1]) == Lengths(toks[a..j]) + toks[j].length
  {
    assert toks[a..j + 1][..j - a] == toks[a..j];
  }

  lemma AppendAssoc<T>(a: seq<T>, b: seq<T>, c: seq<T>)
    ensures (a + b) + c == a + (b + c)
  {
  }

  /** The five values the inner loop of blankizeSentence builds. */
  datatype Variant = Variant(blankSen: string, inBlank: int, outOfBlank: int, answers: string, questions: string)

  /** The inner loop of blankizeSentence after the first j entries, for the
      blanked entry i. */
  function VariantUpTo(toks: seq<Entry>, i: int, j: int): Variant
    requires 0 <= j <= |toks|
    decreases j
  {
    if j == 0 then Variant("", 0, 0, "", "")
    else
      var v := VariantUpTo(toks, i, j - 1);
      var e := toks[j - 1];
      if j - 1 == i then v.(blankSen := v.blankSen + "_" + e.section + "_", inBlank := v.inBlank + e.length,
                            answers := v.answers + "_" + e.section)
      else v.(blankSen := v.blankSen + e.section, outOfBlank := v.outOfBlank + e.length,
              questions := v.questions + "_" + e.section)
  }

  /** Before the blanked entry, the loop has copied the sections and summed
      their lengths, and each section went to the question key. */
  lemma {:induction false} VariantBefore(toks: seq<Entry>, i: int, j: int)
    requires 0 <= j <= i < |toks|
    ensures VariantUpTo(toks, i, j) == Variant(Joined(toks[..j]), 0, Lengths(toks[..j]), "", Keys(toks[..j]))
    decreases j
  {
    if j > 0 {
      VariantBefore(toks, i, j - 1);
      JoinedSlice(toks, 0, j - 1);
      assert toks[0..j - 1] == toks[..j - 1] && toks[0..j] == toks[..j];
    }
  }

  /** The loop's values once it has passed the blanked entry i and the
      entries up to j. */
  function AfterBlank(toks: seq<Entry>, i: int, j: int): Variant
    requires 0 <= i < j <= |toks|
  {
    Variant(Joined(toks[..i]) + "_" + toks[i].section + "_" + Joined(toks[i + 1..j]),
            toks[i].length,
            Lengths(toks[..i]) + Lengths(toks[i + 1..j]),
            "_" + toks[i].section,
            Keys(toks[..i]) + Keys(toks[i + 1..j]))
  }

  /** After the blanked entry, it has been wrapped in underscores, counted
      apart and made the answer key. */
  lemma {:induction false} VariantAfter(toks: seq<Entry>, i: int, j: int)
    requires 0 <= i < j <= |toks|
    ensures VariantUpTo(toks, i, j) == AfterBlank(toks, i, j)
    decreases j
  {
    if j == i + 1 {
      VariantBefore(toks, i, i);
      var pre := Joined(toks[..i]) + "_" + toks[i].section + "_";
      assert toks[i + 1..j] == [];
      assert pre + "" == pre;
      assert Keys(toks[..i]) + "" == Keys(toks[..i]);
    } else {
      VariantAfter(toks, i, j - 1);
      VariantAfterStep(toks, i, j);
    }
  }

  lemma VariantAfterStep(toks: seq<Entry>, i: int, j: int)
    requires 0 <= i < j - 1 && j <= |toks|
    requires VariantUpTo(toks, i, j - 1) == AfterBlank(toks, i, j - 1)
    ensures VariantUpTo(toks, i, j) == AfterBlank(toks, i, j)
  {
    var sec := toks[j - 1].section;
    JoinedSlice(toks, i + 1, j - 1);
    AppendAssoc(Joined(toks[..i]) + "_" + toks[i].section + "_", Joined(toks[i + 1..j - 1]), sec);
    AppendAssoc(Keys(toks[..i]), Keys(toks[i + 1..j - 1]), "_" + sec);
    AppendAssoc(Keys(toks[i + 1..j - 1]), "_", sec);
    AppendAssoc(Keys(toks[..i]) + Keys(toks[i + 1..j - 1]), "_", sec);
  }

  /** The inner loop of blankizeSentence for the word entry i: the blanked
      line, the two character counts, the answer key and the question key. */
  method BlankVariant(splitSen: seq<Entry>, i: int)
    returns (blankSen: string, inblankchars: int, outofblankchars: int,
             combinedAnswers: string, combinedQuestions: string)
    requires 0 <= i < |splitSen|
    ensures blankSen == BlankLine(splitSen, i)
    ensures inblankchars == splitSen[i].length
    ensures outofblankchars == OutOfBlank(splitSen, i)
    ensures combinedAnswers == AnswerKey(splitSen, i)
    ensures combinedQuestions == QuestionKey(splitSen, i)
  {
    blankSen := "";
    inblankchars := 0;
    outofblankchars := 0;
    combinedAnswers := "";
    combinedQuestions := "";
    for j := 0 to |splitSen|
      invariant Variant(blankSen, inblankchars, outofblankchars, combinedAnswers, combinedQuestions)
                == VariantUpTo(splitSen, i, j)
    {
      if j == i {
        blankSen := blankSen + "_" + splitSen[j].section + "_";
        inblankchars := inblankchars + splitSen[j].length;
        combinedAnswers := combinedAnswers + "_" + splitSen[j].section;
      } else {
        blankSen := blankSen + splitSen[j].section;
        outofblankchars := outofblankchars + splitSen[j].length;
        combinedQuestions := combinedQuestions + "_" + splitSen[j].section;
      }
    }
    VariantAfter(splitSen, i, |splitSen|);
    assert splitSen[i + 1..|splitSen|] == splitSen[i + 1..];
    assert blankSen == AfterBlank(splitSen, i, |splitSen|).blankSen;
  }

  // ---------------------------------------------------------------------
  // The lines of one sentence and the seen-sets

  /** What blankizeSentence writes for the word entry i, given the answer
      keys and question keys seen so far. */
  function EntryLines(toks: seq<Entry>, i: int, used: set<string>, asked: set<string>, ignoreRepeats: bool): seq<string>
    requires 0 <= i < |toks|
  {
    [BlankLine(toks, i)]
    + (if OutOfBlank(toks, i) == 0 then [AllInBlankNote] else [])
    + (if toks[i].length == 0 then [NoneInBlankNote] else [])
    + (if AnswerKey(toks, i) in used && !ignoreRepeats then [RepetitionNote] else [])
    + (if QuestionKey(toks, i) in asked then [IndistinguishableNote] else [])
  }

  /** Lines written so far, and the two seen-sets. */
  datatype Sheet = Sheet(lines: seq<string>, used: set<string>, asked: set<string>)

  /** The effect of the outer loop of blankizeSentence over the first k
      entries. Keys are recorded whether or not a message was written. */
  function ClozeUpTo(toks: seq<Entry>, k: int, used: set<string>, asked: set<string>, ignoreRepeats: bool): Sheet
    requires 0 <= k <= |toks|
    decreases k
  {
    if k == 0 then Sheet([], used, asked)
    else
      var c := ClozeUpTo(toks, k - 1, used, asked, ignoreRepeats);
      var i := k - 1;
      if toks[i].kind != Word then c
      else Sheet(c.lines + EntryLines(toks, i, c.used, c.asked, ignoreRepeats),
                 c.used + {AnswerKey(toks, i)},
                 c.asked + {QuestionKey(toks, i)})
  }

  /** Everything blankizeSentence writes for a sentence, and the seen-sets
      it leaves behind. */
  function ClozeOf(sentence: string, used: set<string>, asked: set<string>, ignoreRepeats: bool): Sheet {
    var toks := Split(sentence);
    var c := ClozeUpTo(toks, |toks|, used, asked, ignoreRepeats);
    Sheet(["", "# " + sentence] + c.lines, c.used, c.asked)
  }

  /** The body of the outer loop of blankizeSentence for the word entry i:
      write the blanked line and its diagnostics after out, and record both
      keys. */
  method BlankizeEntry(splitSen: seq<Entry>, i: int, out: seq<string>,
                       alreadyused: set<string>, alreadyasked: set<string>, ignoreRepeats: bool)
    returns (out': seq<string>, used: set<string>, asked: set<string>)
    requires 0 <= i < |splitSen|
    ensures out' == out + EntryLines(splitSen, i, alreadyused, alreadyasked, ignoreRepeats)
    ensures used == alreadyused + {AnswerKey(splitSen, i)}
    ensures asked == alreadyasked + {QuestionKey(splitSen, i)}
  {
    used, asked := alreadyused, alreadyasked;
    var blankSen, inblankchars, outofblankchars, combinedAnswers, combinedQuestions := BlankVariant(splitSen, i);
    // block: what this entry adds to the output
    ghost var block := [blankSen];
    out' := out + [blankSen];
    if outofblankchars == 0 {
      out', block := out' + [AllInBlankNote], block + [AllInBlankNote];
    }
    assert out' == out + block;
    assert block == [blankSen] + (if outofblankchars == 0 then [AllInBlankNote] else []);
    ghost var block1 := block;
    if inblankchars == 0 {
      out', block := out' + [NoneInBlankNote], block + [NoneInBlankNote];
    }
    assert out' == out + block;
    assert block == block1 + (if inblankchars == 0 then [NoneInBlankNote] else []);
    ghost var block2 := block;
    if combinedAnswers in used {
      if !ignoreRepeats {
        out', block := out' + [RepetitionNote], block + [RepetitionNote];
      }
    } else {
      used := used + {combinedAnswers};
    }
    assert out' == out + block;
    assert block == block2 + (if combinedAnswers in alreadyused && !ignoreRepeats then [RepetitionNote] else []);
    ghost var block3 := block;
    if combinedQuestions in asked {
      out', block := out' + [IndistinguishableNote], block + [IndistinguishableNote];
    } else {
      asked := asked + {combinedQuestions};
    }
    assert out' == out + block;
    assert block == block3 + (if combinedQuestions in alreadyasked then [IndistinguishableNote] else []);
  }

  /** blankizeSentence. The two maps it updates in place are passed in and
      handed back. */
  method BlankizeSentence(sentence: string, alreadyused: set<string>, alreadyasked: set<string>, ignoreRepeats: bool)
    returns (sheet: Sheet)
    ensures sheet == ClozeOf(sentence, alreadyused, alreadyasked, ignoreRepeats)
  {
    var out := ["", "# " + sentence];
    var used, asked := alreadyused, alreadyasked;
    var splitSen := SmartSplitter(sentence);
    ghost var head := out;
    for i := 0 to |splitSen|
      invariant out == head + ClozeUpTo(splitSen, i, alreadyused, alreadyasked, ignoreRepeats).lines
      invariant used == ClozeUpTo(splitSen, i, alreadyused, alreadyasked, ignoreRepeats).used
      invariant asked == ClozeUpTo(splitSen, i, alreadyused, alreadyasked, ignoreRepeats).asked
    {
      if splitSen[i].kind == Word {
        ghost var c := ClozeUpTo(splitSen, i, alreadyused, alreadyasked, ignoreRepeats);
        out, used, asked := BlankizeEntry(splitSen, i, out, used, asked, ignoreRepeats);
        AppendAssoc(head, c.lines, EntryLines(splitSen, i, c.used, c.asked, ignoreRepeats));
      }
    }
    sheet := Sheet(out, used, asked);
  }

  // ---------------------------------------------------------------------
  // What blankizeSentence promises

  /** The answer keys of the word entries before k. */
  function AnswersBefore(toks: seq<Entry>, k: int): set<string>
    requires 0 <= k <= |toks|
  {
    set i | 0 <= i < k && toks[i].kind == Word :: AnswerKey(toks, i)
  }

  /** The question keys of the word entries before k. */
  function QuestionsBefore(toks: seq<Entry>, k: int): set<string>
    requires 0 <= k <= |toks|
  {
    set i | 0 <= i < k && toks[i].kind == Word :: QuestionKey(toks, i)
  }

  /** After the first k entries the seen-sets hold what they held before plus
      the answer key and the question key of every word entry so far, and
      nothing else. */
  lemma {:induction false} ClozeSeen(toks: seq<Entry>, k: int, used: set<string>, asked: set<string>, ignoreRepeats: bool)
    requires 0 <= k <= |toks|
    ensures ClozeUpTo(toks, k, used, asked, ignoreRepeats).used == used + AnswersBefore(toks, k)
    ensures ClozeUpTo(toks, k, used, asked, ignoreRepeats).asked == asked + QuestionsBefore(toks, k)
    decreases k
  {
    if k > 0 {
      var i := k - 1;
      var c := ClozeUpTo(toks, i, used, asked, ignoreRepeats);
      ClozeSeen(toks, i, used, asked, ignoreRepeats);
      KeysBeforeStep(toks, i);
      if toks[i].kind == Word {
        assert ClozeUpTo(toks, k, used, asked, ignoreRepeats).used == c.used + {AnswerKey(toks, i)};
        assert ClozeUpTo(toks, k, used, asked, ignoreRepeats).asked == c.asked + {QuestionKey(toks, i)};
      } else {
        assert ClozeUpTo(toks, k, used, asked, ignoreRepeats) == c;
      }
    }
  }

  lemma KeysBeforeStep(toks: seq<Entry>, i: int)
    requires 0 <= i < |toks|
    ensures AnswersBefore(toks, i + 1)
         == AnswersBefore(toks, i) + (if toks[i].kind == Word then {AnswerKey(toks, i)} else {})
    ensures QuestionsBefore(toks, i + 1)
         == QuestionsBefore(toks, i) + (if toks[i].kind == Word then {QuestionKey(toks, i)} else {})
  {
    AnswersBeforeStep(toks, i);
    QuestionsBeforeStep(toks, i);
  }

  lemma AnswersBeforeStep(toks: seq<Entry>, i: int)
    requires 0 <= i < |toks|
    ensures AnswersBefore(toks, i + 1)
         == AnswersBefore(toks, i) + (if toks[i].kind == Word then {AnswerKey(toks, i)} else {})
  {
    var extra := if toks[i].kind == Word then {AnswerKey(toks, i)} else {};
    forall x | x in AnswersBefore(toks, i + 1) ensures x in AnswersBefore(toks, i) + extra {
      var j :| 0 <= j < i + 1 && toks[j].kind == Word && x == AnswerKey(toks, j);
      if j < i { assert x in AnswersBefore(toks, i); }
    }
  }

  lemma QuestionsBeforeStep(toks: seq<Entry>, i: int)
    requires 0 <= i < |toks|
    ensures QuestionsBefore(toks, i + 1)
         == QuestionsBefore(toks, i) + (if toks[i].kind == Word then {QuestionKey(toks, i)} else {})
  {
    var extra := if toks[i].kind == Word then {QuestionKey(toks, i)} else {};
    forall x | x in QuestionsBefore(toks, i + 1) ensures x in QuestionsBefore(toks, i) + extra {
      var j :| 0 <= j < i + 1 && toks[j].kind == Word && x == QuestionKey(toks, j);
      if j < i { assert x in QuestionsBefore(toks, i); }
    }
  }

  /** The lines for the word entry k: the repetition note depends on whether
      an earlier word entry of the sentence, or an earlier sentence, had the
      same answer key; the indistinguishable note on the same for the
      question key. */
  lemma ClozeStep(toks: seq<Entry>, k: int, used: set<string>, asked: set<string>, ignoreRepeats: bool)
    requires 0 <= k < |toks| && toks[k].kind == Word
    ensures ClozeUpTo(toks, k + 1, used, asked, ignoreRepeats).lines
         == ClozeUpTo(toks, k, used, asked, ignoreRepeats).lines
            + EntryLines(toks, k, used + AnswersBefore(toks, k), asked + QuestionsBefore(toks, k), ignoreRepeats)
  {
    ClozeSeen(toks, k, used, asked, ignoreRepeats);
  }

  lemma {:induction false} JoinedAppend(a: seq<Entry>, b: seq<Entry>)
    ensures Joined(a + b) == Joined(a) + Joined(b)
    decreases |b|
  {
    if b != [] {
      var init := b[..|b| - 1];
      var e := b[|b| - 1];
      assert b == init + [e];
      assert a + b == (a + init) + [e];
      JoinedAppend(a, init);
      JoinedSnoc(a + init, e);
      JoinedSnoc(init, e);
      AppendAssoc(Joined(a), Joined(init), e.section);
    } else {
      assert a + b == a;
    }
  }

  /** With every length at least 1, the lengths sum to at least the number
      of entries. */
  lemma {:induction false} LengthsAtLeastCount(toks: seq<Entry>)
    requires forall k :: 0 <= k < |toks| ==> toks[k].length >= 1
    ensures Lengths(toks) >= |toks|
    decreases |toks|
  {
    if toks != [] {
      LengthsAtLeastCount(toks[..|toks| - 1]);
    }
  }

  /** What blankizeSentence writes for the word entry i of sentence s,
      stated over s: the sentence with the characters a..b of the entry
      wrapped in underscores; "All characters are in blank" exactly when the
      entry is the whole sentence; never "No characters are in blanks",
      because the length field is cumulative and so never 0; then the
      repetition and indistinguishable notes. */
  lemma EntryLinesOfSentence(s: string, i: int, used: set<string>, asked: set<string>, ignoreRepeats: bool)
    requires 0 <= i < |Split(s)| && Split(s)[i].kind == Word
    ensures var toks := Split(s);
            var b := toks[i].length;
            var a := b - |toks[i].section|;
            0 <= a < b <= |s| && toks[i].section == s[a..b]
            && EntryLines(toks, i, used, asked, ignoreRepeats)
               == [s[..a] + "_" + s[a..b] + "_" + s[b..]]
                  + (if |toks| == 1 then [AllInBlankNote] else [])
                  + (if "_" + s[a..b] in used && !ignoreRepeats then [RepetitionNote] else [])
                  + (if QuestionKey(toks, i) in asked then [IndistinguishableNote] else [])
  {
    var toks := Split(s);
    SplitSentinel(s);
    assert s != [];
    SplitParts(s, i);
    var b := toks[i].length;
    var a := b - |toks[i].section|;
    assert BlankLine(toks, i) == s[..a] + "_" + s[a..b] + "_" + s[b..];
    assert AnswerKey(toks, i) == "_" + s[a..b];
    EntryLinesParts(toks, i, used, asked, ignoreRepeats, |toks| == 1);
  }

  /** EntryLines when the entry's length field is not 0 and whether the
      other entries' lengths sum to 0 is known. */
  lemma EntryLinesParts(toks: seq<Entry>, i: int, used: set<string>, asked: set<string>, ignoreRepeats: bool, alone: bool)
    requires 0 <= i < |toks| && toks[i].length != 0 && (OutOfBlank(toks, i) == 0 <==> alone)
    ensures EntryLines(toks, i, used, asked, ignoreRepeats)
            == [BlankLine(toks, i)]
               + (if alone then [AllInBlankNote] else [])
               + (if AnswerKey(toks, i) in used && !ignoreRepeats then [RepetitionNote] else [])
               + (if QuestionKey(toks, i) in asked then [IndistinguishableNote] else [])
  {
    var head := [BlankLine(toks, i)] + (if alone then [AllInBlankNote] else []);
    assert head + [] == head;
  }

  /** SentenceAroundEntry and OutOfBlankZero for the tokenization Split
      computes. */
  lemma SplitParts(s: string, i: int)
    requires s != [] && 0 <= i < |Split(s)|
    ensures var toks := Split(s);
            var b := toks[i].length;
            var a := b - |toks[i].section|;
            0 <= a < b <= |s|
            && Joined(toks[..i]) == s[..a] && toks[i].section == s[a..b] && Joined(toks[i + 1..]) == s[b..]
            && toks[i].length != 0
            && (OutOfBlank(toks, i) == 0 <==> |toks| == 1)
  {
    SplitIsTokenization(s);
    SentenceAroundEntry(s, Split(s), i);
    OutOfBlankZero(s, Split(s), i);
  }

  /** In a tokenization of a non-empty sentence, the entries before i, entry
      i and the entries after it are s[..a], s[a..b] and s[b..], where b is
      entry i's length field. */
  lemma SentenceAroundEntry(s: string, toks: seq<Entry>, i: int)
    requires IsTokenization(s, toks) && s != [] && 0 <= i < |toks|
    ensures var b := toks[i].length;
            var a := b - |toks[i].section|;
            0 <= a < b <= |s|
            && Joined(toks[..i]) == s[..a] && toks[i].section == s[a..b] && Joined(toks[i + 1..]) == s[b..]
  {
    var pre := Joined(toks[..i]);
    var sec := toks[i].section;
    var post := Joined(toks[i + 1..]);
    assert toks[i].length == |Joined(toks[..i + 1])|;
    assert sec != [];
    JoinedPrefix(toks, i);
    assert toks == toks[..i + 1] + toks[i + 1..];
    JoinedAppend(toks[..i + 1], toks[i + 1..]);
    ThreeParts(s, pre, sec, post);
  }

  /** The three parts of a concatenation, recovered by slicing. */
  lemma ThreeParts(s: string, pre: string, sec: string, post: string)
    requires s == (pre + sec) + post
    ensures s[..|pre|] == pre && s[|pre|..|pre| + |sec|] == sec && s[|pre| + |sec|..] == post
  {
  }

  /** In a tokenization of a non-empty sentence no length field is 0, so the
      other entries' lengths sum to 0 exactly when there are none. */
  lemma OutOfBlankZero(s: string, toks: seq<Entry>, i: int)
    requires IsTokenization(s, toks) && s != [] && 0 <= i < |toks|
    ensures toks[i].length != 0
    ensures OutOfBlank(toks, i) == 0 <==> |toks| == 1
  {
    forall k | 0 <= k < |toks| ensures toks[k].length >= 1 {
      LengthBounds(s, toks, k);
    }
    LengthsAtLeastCount(toks[..i]);
    LengthsAtLeastCount(toks[i + 1..]);
  }

  /** The lines that are not diagnostics. */
  function WithoutNotes(lines: seq<string>): seq<string>
    decreases |lines|
  {
    if lines == [] then []
    else WithoutNotes(lines[..|lines| - 1]) + (if lines[|lines| - 1] in Notes then [] else [lines[|lines| - 1]])
  }

  lemma {:induction false} WithoutNotesAppend(a: seq<string>, b: seq<string>)
    ensures WithoutNotes(a + b) == WithoutNotes(a) + WithoutNotes(b)
    decreases |b|
  {
    if b != [] {
      var init := b[..|b| - 1];
      var x := b[|b| - 1];
      var tail := if x in Notes then [] else [x];
      assert (a + b)[..|a + b| - 1] == a + init;
      assert (a + b)[|a + b| - 1] == x;
      WithoutNotesAppend(a, init);
      assert WithoutNotes(b) == WithoutNotes(init) + tail;
      AppendAssoc(WithoutNotes(a), WithoutNotes(init), tail);
    } else {
      assert a + b == a;
    }
  }

  /** The blanked lines of the word entries before k, in order. */
  function BlankLines(toks: seq<Entry>, k: int): seq<string>
    requires 0 <= k <= |toks|
    decreases k
  {
    if k == 0 then []
    else BlankLines(toks, k - 1) + (if toks[k - 1].kind == Word then [BlankLine(toks, k - 1)] else [])
  }

  /** A blanked line holds an underscore and no diagnostic does, so a
      blanked line is never taken for a diagnostic. */
  lemma BlankLineIsNoNote(toks: seq<Entry>, i: int)
    requires 0 <= i < |toks|
    ensures BlankLine(toks, i) !in Notes
  {
    var l := BlankLine(toks, i);
    assert l[|Joined(toks[..i])|] == '_';
    NotesHaveNoUnderscore();
  }

  lemma NotesHaveNoUnderscore()
    ensures forall n :: n in Notes ==> '_' !in n
  {
    AllInBlankNoteChars();
    NoneInBlankNoteChars();
    RepetitionNoteChars();
    IndistinguishableNoteChars();
  }

  lemma AllInBlankNoteChars() ensures '_' !in AllInBlankNote { }
  lemma NoneInBlankNoteChars() ensures '_' !in NoneInBlankNote { }
  lemma RepetitionNoteChars() ensures '_' !in RepetitionNote { }
  lemma IndistinguishableNoteChars() ensures '_' !in IndistinguishableNote { }

  /** Apart from its diagnostics, blankizeSentence writes exactly one
      blanked line per word entry, in the order of the entries. */
  lemma {:induction false} ClozeBlankLines(toks: seq<Entry>, k: int, used: set<string>, asked: set<string>, ignoreRepeats: bool)
    requires 0 <= k <= |toks|
    ensures WithoutNotes(ClozeUpTo(toks, k, used, asked, ignoreRepeats).lines) == BlankLines(toks, k)
    decreases k
  {
    if k > 0 {
      var i := k - 1;
      var c := ClozeUpTo(toks, i, used, asked, ignoreRepeats);
      ClozeBlankLines(toks, i, used, asked, ignoreRepeats);
      if toks[i].kind == Word {
        var e := EntryLines(toks, i, c.used, c.asked, ignoreRepeats);
        WithoutNotesAppend(c.lines, e);
        EntryWithoutNotes(toks, i, c.used, c.asked, ignoreRepeats);
      }
    }
  }

  /** Of the lines for one word entry, only the blanked line is not a
      diagnostic. */
  lemma EntryWithoutNotes(toks: seq<Entry>, i: int, used: set<string>, asked: set<string>, ignoreRepeats: bool)
    requires 0 <= i < |toks|
    ensures WithoutNotes(EntryLines(toks, i, used, asked, ignoreRepeats)) == [BlankLine(toks, i)]
  {
    var e := EntryLines(toks, i, used, asked, ignoreRepeats);
    var line := BlankLine(toks, i);
    BlankLineIsNoNote(toks, i);
    var tail := e[1..];
    assert e == [line] + tail;
    assert forall l :: l in tail ==> l in Notes;
    NotesOnly(tail);
    WithoutNotesAppend([line], tail);
    assert WithoutNotes([line]) == [line] by {
      assert [line][..0] == [];
    }
  }

  lemma {:induction false} NotesOnly(lines: seq<string>)
    requires forall l :: l in lines ==> l in Notes
    ensures WithoutNotes(lines) == []
    decreases |lines|
  {
    if lines != [] {
      assert lines[|lines| - 1] in lines;
      NotesOnly(lines[..|lines| - 1]);
    }
  }
}
