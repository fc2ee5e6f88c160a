/** The essay-check widget: the live word/character/reading-time counter that
    runs on every input event (main.js `initWordCounter`), and the feedback
    produced when the submit button is clicked (main.js `initEssaySubmit`,
    `displayEssayFeedback`). The DOM reads and writes are left to the caller:
    the text goes in, the values shown on the page come out. */
module Essay {
  import opened Wrappers
  import opened Text

  /** Reading speed assumed by the reading-time estimate. */
  const WordsPerMinute: nat := 200
  /** The submit button stays disabled below this many words. */
  const MinEssayWords: nat := 50
  /** A click on submit is refused below this many characters of raw text. */
  const MinEssayChars: nat := 50
  /** Shown instead of a minute count when there are no words. */
  const UnderOneMinute: string := "< 1 min"
  const MinuteSuffix: string := " min"

  /** The number of words in `raw`: its maximal runs of non-whitespace. */
  function Words(raw: string): nat {
    RunCount(raw, IsWs, true)
  }

  // ---------------------------------------------------------------------
  // Live counter

  /** Word count of the live counter: the trimmed text split on whitespace
      runs, with blank text counting zero words. */
  function LiveWordCount(raw: string): (n: nat)
    ensures n == Words(raw)
    ensures n == 0 <==> AllWs(raw)
  {
    var text := Trim(raw);
    TrimKeepsRuns(raw);
    if |text| > 0 then
      SplitCountsRuns(text, IsWs);
      |Split(text, IsWs)|
    else
      RunCountAllSeps(raw, IsWs, true);
      0
  }

  /** Character count of the live counter: the `length` of the trimmed text,
      in UTF-16 code units. It never exceeds the raw text's length and is at
      least the word count. */
  function LiveCharCount(raw: string): (n: nat)
    ensures n == Utf16Length(Trim(raw))
    ensures LiveWordCount(raw) <= n <= Utf16Length(raw)
    ensures n == 0 <==> AllWs(raw)
  {
    TrimKeepsRuns(raw);
    RunCountBound(Trim(raw), IsWs, true);
    Utf16LengthTrim(raw);
    Utf16Length(Trim(raw))
  }

  /** `Math.ceil(words / 200)`: the least number of minutes in which `words`
      words can be read at 200 words per minute. */
  function ReadingMinutes(words: nat): (m: nat)
    ensures m == 0 <==> words == 0
    ensures words > 0 ==> WordsPerMinute * (m - 1) < words <= WordsPerMinute * m
  {
    (words + WordsPerMinute - 1) / WordsPerMinute
  }

  /** The reading-time label: "< 1 min" for no words, otherwise the minute
      count in decimal followed by " min". */
  function ReadingLabel(words: nat): (shown: string)
    ensures shown == UnderOneMinute <==> words == 0
    ensures words > 0 ==>
              && |shown| > |MinuteSuffix|
              && shown[|shown| - |MinuteSuffix|..] == MinuteSuffix
              && var digits := shown[..|shown| - |MinuteSuffix|];
                 (forall i | 0 <= i < |digits| :: IsDigit(digits[i]))
                 && digits[0] != '0'
                 && ParseNat(digits) == ReadingMinutes(words)
  {
    var minutes := ReadingMinutes(words);
    if minutes < 1 then UnderOneMinute
    else
      var digits := NatToString(minutes);
      ParseNatToString(minutes);
      assert (digits + MinuteSuffix)[..|digits|] == digits;
      assert (digits + MinuteSuffix)[0] == digits[0];
      digits + MinuteSuffix
  }

  /** What the live counter puts on the page for one input event. */
  datatype CounterView = CounterView(words: nat, chars: nat, readingTime: string, submitDisabled: bool)

  /** One input event on the essay box. */
  function OnEssayInput(raw: string): (v: CounterView)
    ensures v.words == Words(raw)
    ensures v.chars == LiveCharCount(raw) && v.words <= v.chars <= Utf16Length(raw)
    ensures v.readingTime == ReadingLabel(Words(raw))
    ensures v.readingTime == UnderOneMinute <==> AllWs(raw)
    ensures v.submitDisabled <==> Words(raw) < MinEssayWords
  {
    var words := LiveWordCount(raw);
    CounterView(words, LiveCharCount(raw), ReadingLabel(words), words < MinEssayWords)
  }

  // ---------------------------------------------------------------------
  // Feedback

  /** Sentence terminators: one or more in a row end a sentence. */
  predicate IsTerminator(c: char) {
    c == '.' || c == '!' || c == '?'
  }

  /** Word count used by the feedback: the trimmed text split on whitespace
      runs, WITHOUT the blank-text guard of the live counter, so blank text
      counts as one word. */
  function FeedbackWordCount(text: string): (n: nat)
    ensures n >= 1
    ensures AllWs(text) ==> n == 1
    ensures !AllWs(text) ==> n == LiveWordCount(text)
  {
    |Split(Trim(text), IsWs)|
  }

  /** Number of pieces whose trimmed text is non-empty. */
  function CountNonBlank(pieces: seq<string>): nat {
    if |pieces| == 0 then 0
    else (if |Trim(pieces[0])| > 0 then 1 else 0) + CountNonBlank(pieces[1..])
  }

  /** Every character of `s` is a separator or whitespace. */
  predicate SepOrWs(s: string, sep: char -> bool) {
    forall i | 0 <= i < |s| :: sep(s[i]) || IsWs(s[i])
  }

  /** Splitting on runs of `sep` leaves no non-blank piece exactly when every
      character is a separator or whitespace. */
  lemma {:induction false} NoNonBlankPieces(s: string, sep: char -> bool)
    ensures CountNonBlank(Split(s, sep)) == 0 <==> forall i | 0 <= i < |s| :: sep(s[i]) || IsWs(s[i])
    decreases |s|
  {
    var i := Span(s, sep, false);
    if i == |s| {
      assert Split(s, sep) == [s] == [s] + [];
      CountNonBlankCons(s, []);
    } else {
      var j := SplitStep(s, sep);
      var piece, rest := s[..i], s[j..];
      NoNonBlankPieces(rest, sep);
      assert CountNonBlank(Split(s, sep)) ==
             (if AllWs(piece) then 0 else 1) + CountNonBlank(Split(rest, sep)) by {
        CountNonBlankCons(piece, Split(rest, sep));
      }
      SepOrWsParts(s, sep, i, j);
    }
  }

  /** A string of a separator-free piece, a run of separators and a rest is
      all separators and whitespace exactly when the piece is blank and the
      rest is all separators and whitespace. */
  lemma SepOrWsParts(s: string, sep: char -> bool, i: nat, j: nat)
    requires i <= j <= |s|
    requires forall k | 0 <= k < i :: !sep(s[k])
    requires forall k | i <= k < j :: sep(s[k])
    ensures SepOrWs(s, sep) <==> AllWs(s[..i]) && SepOrWs(s[j..], sep)
  {
    var piece, rest := s[..i], s[j..];
    if SepOrWs(s, sep) {
      forall k | 0 <= k < |piece| ensures IsWs(piece[k]) {
        assert piece[k] == s[k];
      }
      forall k | 0 <= k < |rest| ensures sep(rest[k]) || IsWs(rest[k]) {
        assert rest[k] == s[j + k];
      }
    }
    if AllWs(piece) && SepOrWs(rest, sep) {
      forall k | 0 <= k < |s| ensures sep(s[k]) || IsWs(s[k]) {
        if k < i {
          assert piece[k] == s[k];
        } else if k >= j {
          assert rest[k - j] == s[k];
        }
      }
    }
  }

  /** `text.split(/[.!?]+/).filter(s => s.trim().length > 0).length`. It is
      the number of maximal terminator-free runs holding a non-whitespace
      character, and zero exactly when the text holds nothing but whitespace
      and terminators. */
  function SentenceCount(text: string): (n: nat)
    ensures n == SentenceRuns(text, false)
    ensures n == 0 <==> forall i | 0 <= i < |text| :: IsTerminator(text[i]) || IsWs(text[i])
  {
    NoNonBlankPieces(text, IsTerminator);
    SplitCountsSentences(text);
    CountNonBlank(Split(text, IsTerminator))
  }

  /** Reference count of sentences, read character by character: a sentence
      starts at the first non-whitespace character after the start or after
      a terminator. `open` says the current run already holds one. */
  function SentenceRuns(s: string, open: bool): nat {
    if |s| == 0 then 0
    else if IsTerminator(s[0]) then SentenceRuns(s[1..], false)
    else if IsWs(s[0]) then SentenceRuns(s[1..], open)
    else (if open then 0 else 1) + SentenceRuns(s[1..], true)
  }

  /** A terminator-free prefix adds one sentence when it holds a
      non-whitespace character and no sentence is open yet. */
  lemma {:induction false} SentenceRunsPiece(s: string, open: bool, i: nat)
    requires i <= |s|
    requires forall k | 0 <= k < i :: !IsTerminator(s[k])
    ensures SentenceRuns(s, open) ==
            (if open || AllWs(s[..i]) then 0 else 1) + SentenceRuns(s[i..], open || !AllWs(s[..i]))
    decreases i
  {
    if i > 0 {
      SentenceRunsPiece(s[1..], if IsWs(s[0]) then open else true, i - 1);
      assert s[1..][i - 1..] == s[i..];
      var p, q := s[..i], s[1..][..i - 1];
      assert AllWs(p) <==> IsWs(s[0]) && AllWs(q) by {
        assert p[0] == s[0];
        forall k | 0 <= k < |q| ensures q[k] == p[k + 1] { }
      }
    }
  }

  /** A block of terminators closes the open sentence. */
  lemma {:induction false} SentenceRunsSkipTerminators(s: string, open: bool, k: nat)
    requires 0 < k <= |s|
    requires forall m | 0 <= m < k :: IsTerminator(s[m])
    ensures SentenceRuns(s, open) == SentenceRuns(s[k..], false)
    decreases k
  {
    if k > 1 {
      SentenceRunsSkipTerminators(s[1..], false, k - 1);
      assert s[1..][k - 1..] == s[k..];
    }
  }

  /** The filtered split counts exactly the reference sentences. */
  lemma {:induction false} SplitCountsSentences(s: string)
    ensures CountNonBlank(Split(s, IsTerminator)) == SentenceRuns(s, false)
    decreases |s|
  {
    var i := Span(s, IsTerminator, false);
    if i == |s| {
      SentencesOnePiece(s);
    } else {
      var j := SplitStep(s, IsTerminator);
      SentencesStep(s, i, j);
      SplitCountsSentences(s[j..]);
    }
  }

  /** Text without a terminator is one piece and at most one sentence. */
  lemma SentencesOnePiece(s: string)
    requires Span(s, IsTerminator, false) == |s|
    ensures CountNonBlank(Split(s, IsTerminator)) == SentenceRuns(s, false)
  {
    PiecesOfOnePiece(s);
    SentenceRunsOfOnePiece(s);
  }

  lemma PiecesOfOnePiece(s: string)
    requires Span(s, IsTerminator, false) == |s|
    ensures CountNonBlank(Split(s, IsTerminator)) == if AllWs(s) then 0 else 1
  {
    SplitWhole(s, IsTerminator);
    assert [s] == [s] + [];
    CountNonBlankCons(s, []);
  }

  lemma SentenceRunsOfOnePiece(s: string)
    requires forall k | 0 <= k < |s| :: !IsTerminator(s[k])
    ensures SentenceRuns(s, false) == if AllWs(s) then 0 else 1
  {
    SentenceRunsStep(s, |s|, |s|);
    assert s[..|s|] == s;
  }

  /** The first piece and the terminators after it add the same to both counts. */
  lemma SentencesStep(s: string, i: nat, j: nat)
    requires i < j <= |s|
    requires forall k | 0 <= k < i :: !IsTerminator(s[k])
    requires forall k | i <= k < j :: IsTerminator(s[k])
    requires Split(s, IsTerminator) == [s[..i]] + Split(s[j..], IsTerminator)
    ensures CountNonBlank(Split(s, IsTerminator)) - SentenceRuns(s, false) ==
            CountNonBlank(Split(s[j..], IsTerminator)) - SentenceRuns(s[j..], false)
  {
    CountNonBlankCons(s[..i], Split(s[j..], IsTerminator));
    SentenceRunsStep(s, i, j);
  }

  lemma CountNonBlankCons(piece: string, pieces: seq<string>)
    ensures CountNonBlank([piece] + pieces) == (if AllWs(piece) then 0 else 1) + CountNonBlank(pieces)
  {
    assert ([piece] + pieces)[1..] == pieces;
  }

  /** A sentence piece, then the terminators after it (none at the very end):
      the piece counts one sentence unless it is blank. */
  lemma SentenceRunsStep(s: string, i: nat, j: nat)
    requires i <= j <= |s| && (i == j <==> i == |s|)
    requires forall k | 0 <= k < i :: !IsTerminator(s[k])
    requires forall k | i <= k < j :: IsTerminator(s[k])
    ensures SentenceRuns(s, false) == (if AllWs(s[..i]) then 0 else 1) + SentenceRuns(s[j..], false)
  {
    SentenceRunsPiece(s, false, i);
    var t := s[i..];
    if i < j {
      forall m | 0 <= m < j - i ensures IsTerminator(t[m]) { assert t[m] == s[i + m]; }
      SentenceRunsSkipTerminators(t, !AllWs(s[..i]), j - i);
      assert t[j - i..] == s[j..];
    } else {
      assert t == s[j..] == "";
    }
  }

  /** `Math.round(words / sentences)`, which rounds halves up. Dividing by
      zero sentences has no integer result (the script gets `Infinity`):
      None. */
  function AverageSentenceLength(words: nat, sentences: nat): (avg: Option<nat>)
    ensures avg.None? <==> sentences == 0
    ensures avg.Some? ==>
              2 * sentences * avg.value <= 2 * words + sentences < 2 * sentences * avg.value + 2 * sentences
  {
    if sentences == 0 then None else Some((2 * words + sentences) / (2 * sentences))
  }

  /** How the script turns the average into text: a positive word count over
      zero sentences rounds to `Infinity`. */
  function AverageText(avg: Option<nat>): (t: string)
    ensures |t| >= 1
    ensures avg.Some? ==>
              && (forall i | 0 <= i < |t| :: IsDigit(t[i]))
              && (t[0] == '0' ==> |t| == 1)
              && ParseNat(t) == avg.value
    ensures avg.None? ==> t == "Infinity"
  {
    match avg
    case Some(n) =>
      ParseNatToString(n);
      NatToString(n)
    case None => "Infinity"
  }

  datatype FeedbackItem = FeedbackItem(kind: string, message: string)

  const GrammarItem := FeedbackItem("\U{2713} Grammar", "No major grammar issues detected. Great work!")
  const StyleKind := "\U{26A0} Style"
  const StylePrefix := "Your average sentence length is "
  const StyleSuffix := " words. Consider varying sentence length for better readability."
  const ClarityItem := FeedbackItem("\U{2713} Clarity", "Your writing is clear and well-structured.")
  const SuggestionsItem := FeedbackItem("\U{1F4A1} Suggestions", "Consider adding more specific examples to support your arguments.")

  /** The four feedback entries. Only the Style entry depends on the text: it
      reports the rounded average sentence length. */
  function Feedback(text: string): (r: seq<FeedbackItem>)
    ensures r == FeedbackFor(AverageSentenceLength(FeedbackWordCount(text), SentenceCount(text)))
  {
    FeedbackFor(AverageSentenceLength(FeedbackWordCount(text), SentenceCount(text)))
  }

  /** The four entries for a given average: Grammar, Clarity and Suggestions
      are fixed; the Style message frames the average in canonical decimal,
      or `Infinity` when there is no average. */
  function FeedbackFor(avg: Option<nat>): (r: seq<FeedbackItem>)
    ensures |r| == 4
    ensures r[0] == GrammarItem && r[2] == ClarityItem && r[3] == SuggestionsItem
    ensures r[1].kind == StyleKind
    ensures |r[1].message| > |StylePrefix| + |StyleSuffix|
    ensures r[1].message[..|StylePrefix|] == StylePrefix
    ensures r[1].message[|r[1].message| - |StyleSuffix|..] == StyleSuffix
    ensures var number := r[1].message[|StylePrefix|..|r[1].message| - |StyleSuffix|];
            if avg.Some? then
              && (forall i | 0 <= i < |number| :: IsDigit(number[i]))
              && (number[0] == '0' ==> |number| == 1)
              && ParseNat(number) == avg.value
            else
              number == "Infinity"
  {
    [GrammarItem, FeedbackItem(StyleKind, Framed(StylePrefix, AverageText(avg), StyleSuffix)), ClarityItem, SuggestionsItem]
  }

  /** `prefix + middle + suffix`, from which the three parts can be read back. */
  function Framed(prefix: string, middle: string, suffix: string): (m: string)
    ensures |m| == |prefix| + |middle| + |suffix|
    ensures m[..|prefix|] == prefix
    ensures m[|m| - |suffix|..] == suffix
    ensures m[|prefix|..|m| - |suffix|] == middle
  {
    var m := prefix + middle + suffix;
    assert m[..|prefix|] == prefix;
    assert m[|m| - |suffix|..] == suffix;
    assert m[|prefix|..|m| - |suffix|] == middle;
    m
  }

  /** A click on the submit button: raw text whose `length` (in UTF-16 code
      units) is below 50 is refused (the script alerts and stops); otherwise
      the feedback of the raw text is shown. */
  function OnSubmitClick(raw: string): (r: Option<seq<FeedbackItem>>)
    ensures r.None? <==> Utf16Length(raw) < MinEssayChars
    ensures r.Some? ==> r.value == Feedback(raw)
    ensures r.Some? ==> |r.value| == 4 && r.value[1].kind == StyleKind
  {
    if Utf16Length(raw) < MinEssayChars then None else Some(Feedback(raw))
  }

  // ---------------------------------------------------------------------
  // Properties relating the two handlers

  /** Whenever the live counter leaves the button enabled, a click on it is
      accepted, and the feedback counts the same words as the counter. */
  lemma EnabledSubmitIsAccepted(raw: string)
    ensures !OnEssayInput(raw).submitDisabled ==>
              && OnSubmitClick(raw).Some?
              && FeedbackWordCount(raw) == LiveWordCount(raw) >= MinEssayWords
  {
    RunCountBound(raw, IsWs, true);
  }

  /** The click check counts raw characters, whitespace included, so blank
      text of 50 characters passes it; the feedback then counts one word and
      no sentence, and the Style entry reads `Infinity`. */
  lemma BlankEssayPassesClickCheck(raw: string)
    requires |raw| >= MinEssayChars && AllWs(raw)
    ensures OnSubmitClick(raw).Some?
    ensures FeedbackWordCount(raw) == 1 && LiveWordCount(raw) == 0
    ensures Feedback(raw)[1].message == StylePrefix + "Infinity" + StyleSuffix
  {
    assert SentenceCount(raw) == 0;
  }

  /** Text of terminators and whitespace has no sentence, so its Style entry
      reads `Infinity` however many words the counter sees. */
  lemma PunctuationOnlyEssayHasNoAverage(text: string)
    requires forall i | 0 <= i < |text| :: IsTerminator(text[i]) || IsWs(text[i])
    ensures SentenceCount(text) == 0
    ensures Feedback(text)[1].message == StylePrefix + "Infinity" + StyleSuffix
  {
  }
}
