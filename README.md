# punchout — a verified model of the cloze-sheet generator

punchout reads a text file line by line and writes a cloze sheet: every
sentence it finds is printed, then printed again once for every word run
with that run wrapped in underscores, followed by diagnostics about answers
and questions that repeat. Lines starting with `#` are directives that change
the sentence markers and switches or set a chapter length. This project
models the core of `punchout.go` in Dafny:

- `text.dfy` (module `Text`): the Go library routines the core calls, stated
  over character sequences. These are `strings.Index`, `strings.Trim` with the
  cutset `"\r\n\t "`, `strconv.FormatInt` and `strconv.ParseInt` in base 10
  for a 64-bit `int`.
- `sentences.dfy` (module `Sentences`): `findFirstEndOfSentence`. The method
  keeps the source's loop and is proved equal to `FindSpec`, a left fold of
  one `Step` per marker. The slice `str[ls-lm+1:ls]` panics when the buffer
  is shorter than the marker minus its space; the model returns
  `SliceOutOfRange` there.
- `tokenizer.dfy` (module `Tokenizer`): `smartSplitter`. The method keeps the
  two-state loop and is proved equal to `Split`. `Split` is proved to be a
  tokenization: maximal runs of one class that concatenate back to the
  sentence, with cumulative length fields.
- `cloze.dfy` (module `Cloze`): `blankizeSentence`. There is one method per
  loop level, and each is proved equal to a fold over the entries. The lines
  written and the two seen-sets are returned as a `Sheet`.
- `driver.dfy` (module `Driver`): the line loop of `makeblanks`.
  - Class `Punchout` holds the loop's variables as fields. Its methods update
    them as the source does, and each is proved to move `Snapshot()` the way a
    function over the `State` datatype says.
  - `MakeBlanks` runs `ProcessLine` over a sequence of lines and returns
    everything written.

In four places the model follows the code rather than what one might expect
of it:

- When no marker occurs, `findFirstEndOfSentence` returns -1 together with
  the last marker it examined, not the empty string (`EarliestMarkerWins`).
- The sentence loop runs while `first > 0`. A boundary at offset 0 ends the
  line, and nothing of it is written (`NoBoundaryDropsLine`).
- `smartSplitter`'s `count` is never reset, so an entry's length field counts
  from the start of the sentence.
  - "No characters are in blanks" can never be written.
  - "All characters are in blank" is written exactly when the word is the
    whole sentence (`EntryLinesOfSentence`).
- Inside the sentence loop, the rest of the line is searched before the
  current sentence is written. So when that search panics, the sentence
  before it is lost as well (`PanicLosesSentence`).
  - The panic itself is reachable: after `#punctnocommas`, any remainder of
    one character that holds no boundary makes the search for `" ! "` slice
    out of range (`OneCharacterBufferPanics`).
  - The model records the panic in `crashed`. Every later line is then
    ignored (`CrashIsFinal`), as the process has died.

## Model

| member | source | states |
|---|---|---|
| Text.Index | punchout.go:40 | The offset is -1, or an offset at which the marker fits in the buffer; the empty marker is found at 0. |
| Text.IndexIsFirst | punchout.go:40 | strings.Index returns an offset where the marker occurs with no occurrence before it, and -1 only when the marker occurs nowhere. |
| Text.TrimIsInfix | punchout.go:185 | Trim keeps one contiguous part of the line; everything it removes is in "\r\n\t ", and the part kept neither starts nor ends with such a character. |
| Text.ParseInt | punchout.go:221-223 | The parse succeeds exactly when the string is an optional sign followed by at least one digit and nothing else, and its value is in the 64-bit range; the result is then that value, negated after '-'. A lone sign and the empty string are errors. |
| Text.ParseIntLenient | punchout.go:221-223 | ParseInt also accepts what intToStr never writes: a leading '+' and leading zeros, with the same value. |
| Text.NatToStrDigits | punchout.go:19-21 | FormatInt of a non-negative number is a non-empty string of digits whose decimal value is that number. |
| Text.ParseIntRoundTrip | punchout.go:221-223 | ParseInt reads back every 64-bit number that intToStr writes. |
| Sentences.FindSpec | punchout.go:35-63 | The boundary found is -1 or an offset inside the buffer. |
| Sentences.FindFirstEndOfSentence | punchout.go:35-63 | The loop over the markers returns FindSpec: the fold of one Step per marker, panic included. |
| Sentences.PanicPersists | punchout.go:39-61 | Once the search has panicked on some prefix of the marker list, the whole call panics. |
| Sentences.EndsWithStemIsSlice | punchout.go:55 | The character-by-character test of the end-of-buffer rule is the slice comparison of the buffer's last characters with the marker minus its last character. |
| Sentences.FindSpecIsFindUpTo | punchout.go:39-61 | Folding Step over the whole marker list is the search over its first n markers with n its length. |
| Sentences.EarliestMarkerWins | punchout.go:39-51 | Provided the end-of-buffer rule does not fire for a marker searched while none of the markers before it and itself has occurred, the search over the first n markers returns the smallest offset at which any of them occurs, and on a tie the marker listed first. When none occurs it returns -1 with the last marker searched for. |
| Sentences.EndOfBufferRule | punchout.go:52-59 | While nothing is found, a marker ending in a space that does not occur is matched when the buffer ends with the marker minus its space; the boundary is where the marker would start. |
| Sentences.StepHolding | punchout.go:44-51 | Once a boundary is held, one more marker replaces it exactly when that marker occurs strictly before it. |
| Sentences.BestIsEarliest | punchout.go:39-51 | Best names the marker of a range that occurs earliest, the first listed on a tie, or -1 exactly when none of them occurs. |
| Sentences.AfterEndOfBuffer | punchout.go:39-61 | After the end-of-buffer rule set a boundary for marker k, the search over the first n markers returns the earliest offset among markers k+1..n-1 (first listed on a tie) when it lies strictly before that boundary, and otherwise the boundary with marker k. |
| Sentences.OnlyEndOfBuffer | punchout.go:39-61 | When none of the later markers occurs, the boundary the end-of-buffer rule set is the result of the whole call. |
| Sentences.LastSentenceOfLine | punchout.go:52-59 | With the markers in force after "#punctnocommas", a buffer ending in "." that holds no marker has its boundary at that full stop, found for ". ". |
| Sentences.ShortBufferPanics | punchout.go:52-59 | While nothing is found, a marker ending in a space that is more than one character longer than the buffer makes the call panic. |
| Sentences.NoPanicOnLongBuffers | punchout.go:52-59 | The call never panics when every marker ending in a space is at most one character longer than the buffer. |
| Sentences.OneCharacterBufferPanics | punchout.go:52-59 | With the markers in force after "#punctnocommas", a one-character buffer other than "." panics. |
| Tokenizer.Classify | punchout.go:74-79 | The inner loop classifies a character as punctuation exactly when it is in the punctuation set, and as a word character otherwise. |
| Tokenizer.Split | punchout.go:93-96 | There is always at least one entry, because the last entry is appended after the loop. |
| Tokenizer.SmartSplitter | punchout.go:65-98 | The loop returns Split(sentence), and that is a tokenization of the sentence. |
| Tokenizer.SplitJoined | punchout.go:65-98 | The sections concatenate back to the sentence: no character is lost, added or moved. |
| Tokenizer.SplitSentinel | punchout.go:80-96 | The empty sentence yields exactly the sentinel entry; a non-empty sentence has no sentinel entry. |
| Tokenizer.SplitRuns | punchout.go:80-90 | Every entry of a non-empty sentence is a non-empty section whose characters all have the entry's kind. |
| Tokenizer.SplitAlternates | punchout.go:80-89 | Neighbouring entries differ in kind: runs are maximal. |
| Tokenizer.SplitLengths | punchout.go:83-95 | Each length field is the number of characters from the start of the sentence through the end of that entry. |
| Tokenizer.SplitIsTokenization | punchout.go:65-98 | Split(s) satisfies all of the above at once. |
| Tokenizer.LengthsIncrease | punchout.go:83-95 | In a tokenization of a non-empty sentence the length fields are at least 1 and strictly increase. |
| Tokenizer.LengthBounds | punchout.go:91-95 | Every length field lies between 1 and the sentence length, and the last one equals it. |
| Cloze.VariantBefore | punchout.go:111-121 | Before the blanked entry, the inner loop has copied the sections, summed their lengths and put each into the question key. |
| Cloze.VariantAfter | punchout.go:111-121 | After it, the blanked entry is wrapped in underscores, its length counted apart and its section made the answer key. |
| Cloze.BlankVariant | punchout.go:106-121 | The inner loop yields the sentence with entry i in underscores, entry i's length, the other entries' lengths summed, "_" plus the section as answer key, and the other sections each behind "_" as question key. |
| Cloze.BlankizeEntry | punchout.go:105-145 | One word entry appends its blanked line and diagnostics to the output and adds both keys to the seen-sets. |
| Cloze.BlankizeSentence | punchout.go:100-148 | The outer loop writes an empty line, "# " plus the sentence, then the lines of each word entry in order, and returns the updated seen-sets: ClozeOf. |
| Cloze.ClozeSeen | punchout.go:130-144 | After k entries the seen-sets hold what they held before plus the keys of every word entry so far, whether or not a note was written, and nothing else. |
| Cloze.ClozeStep | punchout.go:130-144 | The notes for word entry k depend on the keys of earlier sentences together with those of the earlier word entries of the same sentence. |
| Cloze.SentenceAroundEntry | punchout.go:111-121 | In a tokenization, the entries before i, entry i and the entries after it are s[..a], s[a..b] and s[b..], with b the entry's length field. |
| Cloze.OutOfBlankZero | punchout.go:114-128 | No length field is 0, and the other entries' lengths sum to 0 exactly when there is only one entry. |
| Cloze.EntryLinesOfSentence | punchout.go:122-144 | For a word in a sentence: the sentence with the word in underscores; "All characters are in blank" exactly when the word is the whole sentence; never "No characters are in blanks"; then the repetition and indistinguishable notes. |
| Cloze.BlankLineIsNoNote | punchout.go:122-141 | A blanked line is never one of the diagnostic texts. |
| Cloze.EntryWithoutNotes | punchout.go:122-144 | Of the lines for one word entry, all but the blanked line are diagnostics. |
| Cloze.ClozeBlankLines | punchout.go:104-144 | Apart from diagnostics, one blanked line is written per word entry, in the order of the entries. |
| Driver.Punchout.constructor | punchout.go:166-178 | The loop starts with only the "EOS" marker, every switch off, no chapter threshold, chapter 1 and empty seen-sets. |
| Driver.Punchout.ProcessLine | punchout.go:182-266 | One pass of the line loop does to the state what AfterLine says: nothing after a panic; otherwise it counts the line and trims it, then echoes a blank line, applies a directive, or cuts prose into sentences (with "EOS" appended in "#lines" mode). |
| Driver.Punchout.ApplyDirective | punchout.go:189-229 | A directive line is echoed, then each directive it names is applied: AfterDirective. |
| Driver.Punchout.ApplySwitches | punchout.go:191-215 | The sequential tests of the whole-line directives do what Switches says. |
| Driver.Punchout.ApplyChapterBreaks | punchout.go:219-229 | "#chapterbreaks " plus a number sets the threshold, restarts at chapter 1 and writes its heading; anything else is left alone. |
| Driver.Punchout.SplitSentences | punchout.go:234-264 | The sentence loop does what AfterSentences says, including the panic of a later search. |
| Driver.Punchout.EmitSentence | punchout.go:249-263 | A sentence seen before changes nothing; a new one is written and counted. |
| Driver.Punchout.WriteSentence | punchout.go:251-255 | A new sentence: the source line number if asked for, its cloze lines, the seen-sets updated and the sentence recorded. |
| Driver.Punchout.CountSentence | punchout.go:256-262 | The count goes up by one; when it reaches the threshold the next chapter's heading is written and the count restarts at 0. |
| Driver.MakeBlanks | punchout.go:150-274 | Everything written for a sequence of input lines is the output of AfterLines from the initial state. |
| Driver.ResetReplacesOnlyUsed | punchout.go:191-195 | "#reset" empties the answer keys only and writes its note after the echo. |
| Driver.MarkerDirectivesAppend | punchout.go:202-212 | "#commas" appends ", ", ". ", " ! " and " ? "; "#punctnocommas" appends ". ", " ! " and " ? "; nothing else changes. |
| Driver.SwitchDirectives | punchout.go:196-215 | "#lines", "#sourcelinenumbers" and "#ignorerepeats" each turn on their switch only. |
| Driver.SwitchesIgnoreChapterBreaks | punchout.go:191-220 | A "#chapterbreaks " line is none of the whole-line directives. |
| Driver.ChapterBreaksSet | punchout.go:219-229 | "#chapterbreaks " followed by any text ParseInt reads as N sets the threshold to N, restarts at chapter 1 and writes "" and "# chapter 1", leaving the count in the chapter as it was. |
| Driver.ChapterBreaksCanonical | punchout.go:219-229 | In particular "#chapterbreaks " followed by intToStr(N), for any 64-bit N, sets the threshold to N. |
| Driver.ChapterBreaksIgnoresNonNumber | punchout.go:219-229 | "#chapterbreaks " followed by anything that is not a 64-bit number is only echoed. |
| Driver.SwitchesKeep | punchout.go:191-215 | The whole-line directives keep the question keys, sentences, counters and chapter; the markers and the output only grow. |
| Driver.DirectiveKeepsCounts | punchout.go:189-229 | No directive touches the question keys, the sentences seen, the count or the line number; the markers grow, and the output begins with the echoed line. |
| Driver.SentenceCounted | punchout.go:249-263 | A sentence seen before changes nothing. A new one is recorded; the count goes up by one, or wraps to 0 with the next chapter's heading written last when it reaches the threshold. |
| Driver.SentencesGrow | punchout.go:249-263 | Writing a sentence keeps markers, switches, threshold and line number; question keys, sentences and output only grow. |
| Driver.SentenceLoopKeeps | punchout.go:235-264 | The same holds for the whole sentence loop of a line. |
| Driver.SentenceChapterStep | punchout.go:256-262 | With a positive threshold above the count, one sentence keeps the chapter accounting. |
| Driver.SentenceLoopChapters | punchout.go:235-264 | With a positive threshold above the count, the count stays below it, and one chapter is started per threshold's worth of new sentences. |
| Driver.StaleThresholdNeverFires | punchout.go:256-262 | A threshold the count has already reached (0, the default, a negative one, or one lowered below the count) never fires again; the count grows by the new sentences. |
| Driver.NoBoundaryDropsLine | punchout.go:234-235 | A prose line whose first boundary is at offset 0, or that has none, writes nothing; only the line number advances. |
| Driver.DefaultDropsProse | punchout.go:231-235 | With the initial marker and without "#lines", prose that does not contain "EOS" is dropped. |
| Driver.AppendedEOSFound | punchout.go:231-233 | "EOS" appended to a line without it is found just after the line. |
| Driver.LinesModeOneSentence | punchout.go:231-244 | In "#lines" mode with the initial marker, a prose line without "EOS" is one whole sentence. |
| Driver.CrashIsFinal | punchout.go:52-59 | After a panic no further line changes anything. |
| Driver.LineGrows | punchout.go:182-266 | One line keeps the markers, output, question keys and sentences growing, and advances the line number unless the process has died. |
| Driver.ProseGrows | punchout.go:231-264 | A prose line keeps the markers and the line number; output, question keys and sentences only grow. |
| Driver.RunGrows | punchout.go:180-273 | Over any run the markers, output, question keys and sentences only grow, and the line number counts the lines read until a panic. |
| Driver.PanicLosesSentence | punchout.go:245-248 | After "#punctnocommas", the line "A. B" makes the search of its remainder panic before "A. " is written, and nothing of the line or of later lines appears. |

## Left out

- File handling is not modelled: creating and opening the files, their errors, `defer Close` and the `bufio.Reader`. `MakeBlanks` takes the lines that `ReadString('\n')` returned whole and returns the lines written.
- A last line without a newline is not modelled. `ReadString` returns it with `io.EOF`, so it is never processed; callers pass only terminated lines.
- The console messages for I/O errors are not modelled.
- `readline`, `makeBlanksFromBaseName` and `main` are left out: they handle command-line arguments and file names only.
- Go strings are bytes, and `smartSplitter` walks runes. The model uses characters throughout. The two agree for ASCII text; with multi-byte characters, the panic threshold of the end-of-buffer slice counts bytes in Go.
- The counters `lineCount`, `chapterNumber` and `inLineNum` are unbounded integers here. Go's 64-bit `int` would wrap only after 2^63 lines.
- The maps `alreadyused` and `alreadyasked` are sets passed by value and handed back. Only `makeblanks` holds them, so updating them in place is not observable.
- A panic is recorded as the `crashed` flag rather than ending the program. The lines already written stay written.
- `strings.Index`, `strings.Trim`, `strconv.FormatInt` and `strconv.ParseInt` are modelled from their documented behaviour. The two kinds of `ParseInt` error (syntax and range) are one `None`.
- Driver.Switches: an else-if chain, while `ApplySwitches` keeps the source's sequential tests. They agree because the directive strings are distinct.
- Sentences.FindSpec: its own contract only bounds the offset. What it computes is stated by EarliestMarkerWins, EndOfBufferRule, AfterEndOfBuffer, OnlyEndOfBuffer, ShortBufferPanics and NoPanicOnLongBuffers.
- Text.Index: its own contract only bounds the offset. That it is the first occurrence is IndexIsFirst.
- Tokenizer.Split: its own contract only says there is an entry. What it computes is stated by SplitIsTokenization and the lemmas it gathers.
