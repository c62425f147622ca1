/** The tokenizer of punchout.go, smartSplitter: a two-state classifier that
    cuts a sentence into maximal runs of word characters and of punctuation
    characters. */
module Tokenizer {

  /** The class of a run: 0, 1 and 2 in the source. Sentinel is the state
      before the first character and the kind of the single entry an empty
      sentence yields. */
  datatype Kind = Sentinel | Word | Punct

  /** splitEntryRecord. The length field is the number of characters from
      the start of the sentence through the end of this entry, because the
      source's counter is never reset between entries. */
  datatype Entry = Entry(kind: Kind, section: string, length: int)

  /** The punctuation set: space . , : ; ! ? « » ( ) and the double quote. */
  const PunctuationChars: string := " .,:;!?«»()" + "\""

  function KindOf(c: char): Kind {
    if c in PunctuationChars then Punct else Word
  }

  /** The inner loop of smartSplitter over the punctuation characters. */
  method Classify(ch: char) returns (neuknd: Kind)
    ensures neuknd == (if ch in PunctuationChars then Punct else Word)
  {
    neuknd := Word;
    for n := 0 to |PunctuationChars|
      invariant neuknd == (if ch in PunctuationChars[..n] then Punct else Word)
    {
      assert PunctuationChars[..n + 1] == PunctuationChars[..n] + [PunctuationChars[n]];
      if ch == PunctuationChars[n] {
        neuknd := Punct;
      }
    }
    assert PunctuationChars[..|PunctuationChars|] == PunctuationChars;
  }

  /** The entries smartSplitter returns for s, built one character at a time
      the way its loop consumes them. */
  function Split(s: string): (toks: seq<Entry>)
    ensures |toks| >= 1
    decreases |s|
  {
    if s == [] then [Entry(Sentinel, "", 0)]
    else
      var prev := Split(s[..|s| - 1]);
      var last := prev[|prev| - 1];
      var c := s[|s| - 1];
      if KindOf(c) == last.kind then prev[..|prev| - 1] + [Entry(last.kind, last.section + [c], |s|)]
      else if last.kind == Sentinel then [Entry(KindOf(c), [c], |s|)]
      else prev + [Entry(KindOf(c), [c], |s|)]
  }

  /** Split(p + [c]) in terms of Split(p). */
  lemma SplitSnoc(p: string, c: char)
    ensures var prev := Split(p);
            var last := prev[|prev| - 1];
            Split(p + [c])
            == if KindOf(c) == last.kind then prev[..|prev| - 1] + [Entry(last.kind, last.section + [c], |p| + 1)]
               else if last.kind == Sentinel then [Entry(KindOf(c), [c], |p| + 1)]
               else prev + [Entry(KindOf(c), [c], |p| + 1)]
  {
    assert (p + [c])[..|p|] == p;
  }

  /** Extending a sentence keeps every entry of its split but the last, and
      the new last entry ends at the end of the sentence. */
  lemma SplitKeepsEarlier(p: string, c: char)
    ensures |Split(p + [c])| - 1 <= |Split(p)|
    ensures forall k :: 0 <= k < |Split(p + [c])| - 1 ==> Split(p + [c])[k] == Split(p)[k]
    ensures Split(p + [c])[|Split(p + [c])| - 1].length == |p| + 1
  {
    SplitSnoc(p, c);
  }

  /** smartSplitter. */
  method SmartSplitter(sentence: string) returns (rv: seq<Entry>)
    ensures rv == Split(sentence)
    ensures IsTokenization(sentence, rv)
  {
    rv := [];
    var inknd := Sentinel;
    var current := "";
    var count := 0;
    for n := 0 to |sentence|
      invariant count == n
      invariant (inknd == Sentinel) == (n == 0)
      invariant inknd == Sentinel ==> rv == [] && current == []
      invariant rv + [Entry(inknd, current, count)] == Split(sentence[..n])
    {
      var chSentence := sentence[n];
      ghost var prev := Split(sentence[..n]);
      ghost var next := sentence[..n + 1];
      assert next[..|next| - 1] == sentence[..n] && next[|next| - 1] == chSentence;
      assert prev[|prev| - 1] == Entry(inknd, current, count);
      assert prev[..|prev| - 1] == rv;
      var neuknd := Classify(chSentence);
      if neuknd != inknd {
        var entry := Entry(inknd, current, count);
        if inknd != Sentinel {
          rv := rv + [entry];
        }
        current := "";
        inknd := neuknd;
      }
      current := current + [chSentence];
      count := count + 1;
      assert KindOf(chSentence) == neuknd;
      assert Split(next) == rv + [Entry(inknd, current, count)] by {
        var last := prev[|prev| - 1];
        if KindOf(chSentence) == last.kind {
          assert Split(next) == prev[..|prev| - 1] + [Entry(last.kind, last.section + [chSentence], |next|)];
          assert rv == prev[..|prev| - 1];
          assert inknd == last.kind;
          assert current == last.section + [chSentence];
        } else if last.kind == Sentinel {
          assert Split(next) == [Entry(KindOf(chSentence), [chSentence], |next|)];
          assert rv == [];
          assert current == [chSentence];
        } else {
          assert Split(next) == prev + [Entry(KindOf(chSentence), [chSentence], |next|)];
          assert rv == prev;
          assert current == [chSentence];
        }
      }
    }
    assert sentence[..|sentence|] == sentence;
    rv := rv + [Entry(inknd, current, count)];
    SplitIsTokenization(sentence);
  }

  // ---------------------------------------------------------------------
  // What the tokenizer promises

  /** The sections of toks, concatenated in order. */
  function Joined(toks: seq<Entry>): string
    decreases |toks|
  {
    if toks == [] then "" else Joined(toks[..|toks| - 1]) + toks[|toks| - 1].section
  }

  /** Every character of the section has the entry's kind. */
  ghost predicate Homogeneous(e: Entry) {
    forall c :: c in e.section ==> KindOf(c) == e.kind
  }

  /** toks cuts s into maximal runs: the sections give back s; the empty
      sentence yields the single sentinel entry; otherwise every entry is a
      non-empty run of word or of punctuation characters and neighbours
      differ in kind; and each length is the number of characters up to the
      end of its entry. */
  ghost predicate IsTokenization(s: string, toks: seq<Entry>) {
    |toks| >= 1
    && Joined(toks) == s
    && (s == [] ==> toks == [Entry(Sentinel, "", 0)])
    && (s != [] ==> forall k :: 0 <= k < |toks| ==>
          toks[k].kind != Sentinel && toks[k].section != [] && Homogeneous(toks[k]))
    && (forall k :: 0 < k < |toks| ==> toks[k - 1].kind != toks[k].kind)
    && (forall k :: 0 <= k < |toks| ==> toks[k].length == |Joined(toks[..k + 1])|)
  }

  lemma JoinedPrefix(toks: seq<Entry>, k: nat)
    requires k < |toks|
    ensures Joined(toks[..k + 1]) == Joined(toks[..k]) + toks[k].section
  {
    assert toks[..k + 1][..k] == toks[..k];
  }

  lemma JoinedSnoc(toks: seq<Entry>, e: Entry)
    ensures Joined(toks + [e]) == Joined(toks) + e.section
  {
    assert (toks + [e])[..|toks|] == toks;
  }

  /** Concatenating the sections gives back the sentence. */
  lemma {:induction false} SplitJoined(s: string)
    ensures Joined(Split(s)) == s
    decreases |s|
  {
    if s != [] {
      var p := s[..|s| - 1];
      var c := s[|s| - 1];
      assert s == p + [c];
      var prev := Split(p);
      SplitJoined(p);
      var last := prev[|prev| - 1];
      var init := prev[..|prev| - 1];
      assert prev == init + [last];
      JoinedSnoc(init, last);
      if KindOf(c) == last.kind {
        JoinedSnoc(init, Entry(last.kind, last.section + [c], |s|));
      } else if last.kind == Sentinel {
        SplitSentinel(p);
        JoinedSnoc([], Entry(KindOf(c), [c], |s|));
      } else {
        JoinedSnoc(prev, Entry(KindOf(c), [c], |s|));
      }
    }
  }

  /** The sentinel entry only ever stands alone, for the empty sentence. */
  lemma {:induction false} SplitSentinel(s: string)
    ensures s != [] ==> forall k :: 0 <= k < |Split(s)| ==> Split(s)[k].kind != Sentinel
    ensures s == [] ==> Split(s) == [Entry(Sentinel, "", 0)]
    decreases |s|
  {
    if s != [] {
      var p := s[..|s| - 1];
      SplitSentinel(p);
    }
  }

  /** Every entry of a non-empty sentence is a non-empty run of one kind. */
  lemma {:induction false} SplitRuns(s: string)
    ensures s != [] ==> forall k :: 0 <= k < |Split(s)| ==>
              Split(s)[k].section != [] && Homogeneous(Split(s)[k])
    decreases |s|
  {
    if s != [] {
      var p := s[..|s| - 1];
      SplitRuns(p);
      SplitSentinel(p);
      var prev := Split(p);
      var last := prev[|prev| - 1];
      var c := s[|s| - 1];
      var toks := Split(s);
      if KindOf(c) == last.kind {
        var e := Entry(last.kind, last.section + [c], |s|);
        assert toks == prev[..|prev| - 1] + [e];
        assert Homogeneous(e) by {
          forall x | x in e.section ensures KindOf(x) == e.kind {
            assert x in last.section || x == c;
          }
        }
        forall k | 0 <= k < |toks| ensures toks[k].section != [] && Homogeneous(toks[k]) {
          if k < |toks| - 1 {
            assert toks[k] == prev[k];
          }
        }
      } else if last.kind != Sentinel {
        assert toks == prev + [Entry(KindOf(c), [c], |s|)];
        forall k | 0 <= k < |toks| ensures toks[k].section != [] && Homogeneous(toks[k]) {
          if k < |prev| {
            assert toks[k] == prev[k];
          }
        }
      }
    }
  }

  /** Neighbouring entries differ in kind. */
  lemma {:induction false} SplitAlternates(s: string)
    ensures forall k :: 0 < k < |Split(s)| ==> Split(s)[k - 1].kind != Split(s)[k].kind
    decreases |s|
  {
    if s != [] {
      var p := s[..|s| - 1];
      SplitAlternates(p);
      var prev := Split(p);
      var last := prev[|prev| - 1];
      var c := s[|s| - 1];
      var toks := Split(s);
      if KindOf(c) == last.kind {
        assert toks == prev[..|prev| - 1] + [Entry(last.kind, last.section + [c], |s|)];
        forall k | 0 < k < |toks| ensures toks[k - 1].kind != toks[k].kind {
          assert toks[k - 1] == prev[k - 1];
          assert toks[k].kind == prev[k].kind;
        }
      } else if last.kind != Sentinel {
        assert toks == prev + [Entry(KindOf(c), [c], |s|)];
        forall k | 0 < k < |toks| ensures toks[k - 1].kind != toks[k].kind {
          assert toks[k - 1] == prev[k - 1];
        }
      }
    }
  }

  /** Each entry's length counts the characters through the end of that
      entry; the last one is the length of the sentence. */
  lemma {:induction false} SplitLengths(s: string)
    ensures forall k :: 0 <= k < |Split(s)| ==> Split(s)[k].length == |Joined(Split(s)[..k + 1])|
    decreases |s|
  {
    if s != [] {
      var p := s[..|s| - 1];
      var c := s[|s| - 1];
      assert s == p + [c];
      SplitLengths(p);
      SplitJoined(s);
      SplitKeepsEarlier(p, c);
      LengthsExtend(Split(p), Split(s));
    }
  }

  /** Lengths that count through the end of each entry stay so when the
      last entry is replaced by one that counts through the end of all. */
  lemma LengthsExtend(prev: seq<Entry>, toks: seq<Entry>)
    requires forall k :: 0 <= k < |prev| ==> prev[k].length == |Joined(prev[..k + 1])|
    requires 1 <= |toks| <= |prev| + 1
    requires forall k :: 0 <= k < |toks| - 1 ==> toks[k] == prev[k]
    requires toks[|toks| - 1].length == |Joined(toks)|
    ensures forall k :: 0 <= k < |toks| ==> toks[k].length == |Joined(toks[..k + 1])|
  {
    assert toks[..|toks|] == toks;
    forall k | 0 <= k < |toks| - 1 ensures toks[k].length == |Joined(toks[..k + 1])| {
      assert toks[..k + 1] == prev[..k + 1];
    }
  }

  /** Split(s) is a tokenization of s. */
  lemma SplitIsTokenization(s: string)
    ensures IsTokenization(s, Split(s))
  {
    SplitJoined(s);
    SplitSentinel(s);
    SplitRuns(s);
    SplitAlternates(s);
    SplitLengths(s);
  }

  /** The lengths of a tokenization grow strictly from entry to entry,
      starting from at least 1. */
  lemma {:induction false} LengthsIncrease(s: string, toks: seq<Entry>, j: int, k: int)
    requires IsTokenization(s, toks) && s != []
    requires 0 <= j < k < |toks|
    ensures 1 <= toks[j].length < toks[k].length
    decreases k - j
  {
    JoinedPrefix(toks, k);
    JoinedPrefix(toks, k - 1);
    if j < k - 1 {
      LengthsIncrease(s, toks, j, k - 1);
    }
  }

  /** Every length of a tokenization of a non-empty sentence lies between
      1 and the length of the sentence, which the last entry reaches. */
  lemma LengthBounds(s: string, toks: seq<Entry>, k: int)
    requires IsTokenization(s, toks) && s != []
    requires 0 <= k < |toks|
    ensures 1 <= toks[k].length <= |s|
    ensures k == |toks| - 1 ==> toks[k].length == |s|
  {
    assert toks[..|toks|] == toks;
    if k < |toks| - 1 {
      LengthsIncrease(s, toks, k, |toks| - 1);
    } else {
      JoinedPrefix(toks, k);
    }
  }
}
