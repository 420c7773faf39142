/** The transcription edge function (`transcribe-audio`): the upload size
    gate and the keyword sentiment classifier applied to the transcript.
    Authentication and the call to the speech-to-text service are left to
    the caller; the service's reply is a parameter. */
module Transcribe {
  import opened Wrappers
  import opened Text

  datatype Sentiment = Positive | Neutral | Negative

  const PositiveWords: seq<string> :=
    ["goed", "fijn", "blij", "gelukkig", "trots", "succesvol", "geweldig", "fantastisch"]
  const NegativeWords: seq<string> :=
    ["slecht", "verdrietig", "boos", "gefrustreerd", "moeilijk", "zwaar", "stress", "pijn"]

  /** JavaScript `s.split(/\s+/)`: the pieces between maximal whitespace
      runs, with an empty first or last piece when `s` starts or ends with
      whitespace, and `[""]` for the empty text. Only the first and the last
      piece can be empty. */
  function SplitWords(s: string): (words: seq<string>)
    ensures |words| >= 1
    ensures forall k :: 0 <= k < |words| ==> NoSpace(words[k])
    ensures forall k :: 0 < k < |words| - 1 ==> words[k] != []
    ensures |s| > 0 && !IsSpace(s[0]) ==> words[0] != []
    decreases |s|
  {
    if |s| == 0 then [[]]
    else if IsSpace(s[0]) then
      TrimStartShortens(s);
      [[]] + SplitWords(TrimStart(s))
    else
      var rest := SplitWords(s[1..]);
      [[s[0]] + rest[0]] + rest[1..]
  }

  /** The whitespace runs of `s` in order: the separators the split
      removes, one between each two consecutive pieces. */
  function SpaceRuns(s: string): (runs: seq<string>)
    ensures |runs| == |SplitWords(s)| - 1
    ensures forall k :: 0 <= k < |runs| ==> |runs[k]| > 0 && IsBlank(runs[k])
    decreases |s|
  {
    if |s| == 0 then []
    else if IsSpace(s[0]) then
      TrimStartShortens(s);
      [LeadingRun(s)] + SpaceRuns(TrimStart(s))
    else SpaceRuns(s[1..])
  }

  /** The pieces with the separators put back between them. */
  function Join(words: seq<string>, seps: seq<string>): string
    requires |words| == |seps| + 1
    decreases |seps|
  {
    if |seps| == 0 then words[0] else words[0] + seps[0] + Join(words[1..], seps[1..])
  }

  /** Putting the whitespace runs back between the pieces gives the text. */
  lemma {:induction false} SplitWordsRejoin(s: string)
    ensures Join(SplitWords(s), SpaceRuns(s)) == s
    decreases |s|
  {
    if |s| == 0 {
    } else if IsSpace(s[0]) {
      TrimStartShortens(s);
      SplitWordsRejoin(TrimStart(s));
      RejoinSpaceStep(s);
    } else {
      SplitWordsRejoin(s[1..]);
      JoinPrepend(s[0], SplitWords(s[1..]), SpaceRuns(s[1..]));
    }
  }

  /** The step of `SplitWordsRejoin` for text that starts with whitespace. */
  lemma RejoinSpaceStep(s: string)
    requires |s| > 0 && IsSpace(s[0])
    requires Join(SplitWords(TrimStart(s)), SpaceRuns(TrimStart(s))) == TrimStart(s)
    ensures Join(SplitWords(s), SpaceRuns(s)) == s
  {
    var t := TrimStart(s);
    var ws := LeadingRun(s);
    SplitWordsSpace(s);
    SpaceRunsSpace(s);
    JoinCons([], SplitWords(t), ws, SpaceRuns(t));
    assert [] + ws == ws;
    assert Join([[]] + SplitWords(t), [ws] + SpaceRuns(t)) == ws + t;
  }

  lemma SplitWordsSpace(s: string)
    requires |s| > 0 && IsSpace(s[0])
    ensures SplitWords(s) == [[]] + SplitWords(TrimStart(s))
  {
  }

  lemma SpaceRunsSpace(s: string)
    requires |s| > 0 && IsSpace(s[0])
    ensures SpaceRuns(s) == [LeadingRun(s)] + SpaceRuns(TrimStart(s))
  {
  }

  /** One step of `Join`. */
  lemma JoinCons(w: string, words: seq<string>, sep: string, seps: seq<string>)
    requires |words| == |seps| + 1
    ensures Join([w] + words, [sep] + seps) == w + sep + Join(words, seps)
  {
    assert ([w] + words)[1..] == words && ([sep] + seps)[1..] == seps;
  }

  /** Extending the first piece extends the joined text. */
  lemma JoinPrepend(c: char, words: seq<string>, seps: seq<string>)
    requires |words| == |seps| + 1
    ensures Join([[c] + words[0]] + words[1..], seps) == [c] + Join(words, seps)
  {
    var w := [[c] + words[0]] + words[1..];
    assert w[0] == [c] + words[0] && w[1..] == words[1..];
  }

  /** The split is the only way to cut `s` into whitespace-free pieces,
      non-empty except possibly the first and the last, separated by
      non-empty whitespace runs. */
  lemma {:induction false} SplitIsUnique(s: string, words: seq<string>, seps: seq<string>)
    requires |words| == |seps| + 1
    requires forall k :: 0 <= k < |words| ==> NoSpace(words[k])
    requires forall k :: 0 < k < |words| - 1 ==> words[k] != []
    requires forall k :: 0 <= k < |seps| ==> |seps[k]| > 0 && IsBlank(seps[k])
    requires Join(words, seps) == s
    ensures SplitWords(s) == words
    decreases |s|
  {
    if |seps| == 0 {
      SingleWord(s);
    } else if words[0] == [] {
      var rest := Join(words[1..], seps[1..]);
      assert s == seps[0] + rest;
      DropFirstPiece(words, seps);
      SplitIsUnique(rest, words[1..], seps[1..]);
      UniqueSpaceStep(s, words, seps);
    } else {
      var w := [words[0][1..]] + words[1..];
      assert words[0] == [words[0][0]] + words[0][1..];
      JoinPrepend(words[0][0], w, seps);
      assert [[words[0][0]] + w[0]] + w[1..] == words;
      assert s[1..] == Join(w, seps);
      assert !IsSpace(s[0]);
      ShortenFirstPiece(words, w);
      SplitIsUnique(s[1..], w, seps);
      UniqueWordStep(s, words, w);
    }
  }

  /** Dropping an empty first piece and its separator keeps the pieces free
      of whitespace, the inner pieces non-empty and the separators blank;
      the rest of the text does not start with whitespace. */
  lemma DropFirstPiece(words: seq<string>, seps: seq<string>)
    requires |words| == |seps| + 1 && |seps| > 0
    requires forall k :: 0 <= k < |words| ==> NoSpace(words[k])
    requires forall k :: 0 < k < |words| - 1 ==> words[k] != []
    requires forall k :: 0 <= k < |seps| ==> |seps[k]| > 0 && IsBlank(seps[k])
    ensures forall k :: 0 <= k < |words[1..]| ==> NoSpace(words[1..][k])
    ensures forall k :: 0 < k < |words[1..]| - 1 ==> words[1..][k] != []
    ensures forall k :: 0 <= k < |seps[1..]| ==> |seps[1..][k]| > 0 && IsBlank(seps[1..][k])
    ensures var rest := Join(words[1..], seps[1..]); rest == [] || !IsSpace(rest[0])
  {
    var rest := Join(words[1..], seps[1..]);
    if |seps| > 1 {
      assert words[1] != [] && NoSpace(words[1]);
      assert rest == words[1] + seps[1] + Join(words[2..], seps[2..]) by {
        assert words[1..][1..] == words[2..] && seps[1..][1..] == seps[2..];
      }
      assert rest[0] == words[1][0];
    } else {
      assert rest == words[1];
    }
  }

  /** The step of `SplitIsUnique` for an empty first piece: the text starts
      with the first separator, and the split of the rest is the rest of the
      pieces. */
  lemma UniqueSpaceStep(s: string, words: seq<string>, seps: seq<string>)
    requires |words| == |seps| + 1 && |seps| > 0 && words[0] == []
    requires |seps[0]| > 0 && IsBlank(seps[0])
    requires var rest := Join(words[1..], seps[1..]);
      && s == seps[0] + rest
      && (rest == [] || !IsSpace(rest[0]))
      && SplitWords(rest) == words[1..]
    ensures SplitWords(s) == words
  {
    var rest := Join(words[1..], seps[1..]);
    SkipSpaces(seps[0], rest);
    assert IsSpace(s[0]);
    SplitWordsSpace(s);
    assert words == [[]] + words[1..];
  }

  /** Dropping the first character of the first piece keeps the pieces
      free of whitespace and the inner pieces non-empty. */
  lemma ShortenFirstPiece(words: seq<string>, w: seq<string>)
    requires |words| >= 1 && words[0] != []
    requires forall k :: 0 <= k < |words| ==> NoSpace(words[k])
    requires forall k :: 0 < k < |words| - 1 ==> words[k] != []
    requires w == [words[0][1..]] + words[1..]
    ensures forall k :: 0 <= k < |w| ==> NoSpace(w[k])
    ensures forall k :: 0 < k < |w| - 1 ==> w[k] != []
  {
    forall k | 0 <= k < |w| ensures NoSpace(w[k]) {
      if k == 0 {
        forall i | 0 <= i < |w[0]| ensures !IsSpace(w[0][i]) {
          assert w[0][i] == words[0][i + 1];
        }
      } else {
        assert w[k] == words[k];
      }
    }
    forall k | 0 < k < |w| - 1 ensures w[k] != [] {
      assert w[k] == words[k];
    }
  }

  /** The step of `SplitIsUnique` for a first piece that is not empty: the
      split of the tail has the first piece without its first character. */
  lemma UniqueWordStep(s: string, words: seq<string>, w: seq<string>)
    requires |words| >= 1 && words[0] != []
    requires w == [words[0][1..]] + words[1..]
    requires |s| > 0 && s[0] == words[0][0] && !IsSpace(s[0])
    requires SplitWords(s[1..]) == w
    ensures SplitWords(s) == words
  {
    SplitWordsWord(s);
    assert words[0] == [s[0]] + w[0];
    assert words == [[s[0]] + w[0]] + w[1..];
  }

  lemma SplitWordsWord(s: string)
    requires |s| > 0 && !IsSpace(s[0])
    ensures SplitWords(s) == [[s[0]] + SplitWords(s[1..])[0]] + SplitWords(s[1..])[1..]
  {
  }

  /** Every word of the split is a piece of the text. */
  lemma {:induction false} SplitWordsAreInfixes(s: string)
    ensures forall k :: 0 <= k < |SplitWords(s)| ==> IsInfix(SplitWords(s)[k], s)
    decreases |s|
  {
    if |s| == 0 {
      assert OccursAt(SplitWords(s)[0], s, 0);
    } else if IsSpace(s[0]) {
      TrimStartShortens(s);
      SplitWordsAreInfixes(TrimStart(s));
      SpaceStepInfixes(s);
    } else {
      SplitWordsAreInfixes(s[1..]);
      WordStepInfixes(s);
    }
  }

  /** The step of `SplitWordsAreInfixes` for text that starts with whitespace. */
  lemma SpaceStepInfixes(s: string)
    requires |s| > 0 && IsSpace(s[0])
    requires forall k :: 0 <= k < |SplitWords(TrimStart(s))| ==>
               IsInfix(SplitWords(TrimStart(s))[k], TrimStart(s))
    ensures forall k :: 0 <= k < |SplitWords(s)| ==> IsInfix(SplitWords(s)[k], s)
  {
    var t := TrimStart(s);
    var words := SplitWords(s);
    TrimStartShortens(s);
    assert words == [[]] + SplitWords(t);
    forall k | 0 <= k < |words| ensures IsInfix(words[k], s) {
      if k == 0 {
        assert OccursAt(words[0], s, 0);
      } else {
        assert words[k] == SplitWords(t)[k - 1];
        SuffixInfix(words[k], t, s);
      }
    }
  }

  /** A piece of a suffix is a piece of the whole. */
  lemma SuffixInfix(w: string, t: string, s: string)
    requires |t| <= |s| && t == s[|s| - |t|..] && IsInfix(w, t)
    ensures IsInfix(w, s)
  {
    var i :| 0 <= i <= |t| - |w| && OccursAt(w, t, i);
    assert s[i + |s| - |t|..i + |s| - |t| + |w|] == t[i..i + |w|];
    assert OccursAt(w, s, i + |s| - |t|);
  }

  /** The step of `SplitWordsAreInfixes` for text that starts with a word
      character. */
  lemma WordStepInfixes(s: string)
    requires |s| > 0 && !IsSpace(s[0])
    requires forall k :: 0 <= k < |SplitWords(s[1..])| ==> IsInfix(SplitWords(s[1..])[k], s[1..])
    ensures forall k :: 0 <= k < |SplitWords(s)| ==> IsInfix(SplitWords(s)[k], s)
  {
    var rest := SplitWords(s[1..]);
    var words := SplitWords(s);
    FirstWordAtStart(s);
    assert IsInfix(words[0], s);
    assert words[1..] == rest[1..];
    forall k | 1 <= k < |words| ensures IsInfix(words[k], s) {
      assert words[k] == words[1..][k - 1];
      SuffixInfix(rest[k], s[1..], s);
    }
  }

  /** The first word of the split is a prefix of the text. */
  lemma {:induction false} FirstWordAtStart(s: string)
    ensures OccursAt(SplitWords(s)[0], s, 0)
    decreases |s|
  {
    if |s| > 0 && !IsSpace(s[0]) {
      FirstWordAtStart(s[1..]);
      var rest := SplitWords(s[1..]);
      assert s[..1 + |rest[0]|] == [s[0]] + s[1..][..|rest[0]|];
    }
  }

  /** `word` contains one of the keywords `kws` as a substring. */
  predicate MentionsAny(word: string, kws: seq<string>) {
    exists k :: 0 <= k < |kws| && IsInfix(kws[k], word)
  }

  /** The number of words that contain at least one keyword: each word adds
      at most one, however many keywords it contains. */
  function Score(words: seq<string>, kws: seq<string>): (n: nat)
    ensures n <= |words|
  {
    if |words| == 0 then 0
    else Score(words[..|words| - 1], kws) + (if MentionsAny(words[|words| - 1], kws) then 1 else 0)
  }

  /** A score is zero when no word mentions a keyword. */
  lemma {:induction false} ScoreZero(words: seq<string>, kws: seq<string>)
    requires forall k :: 0 <= k < |words| ==> !MentionsAny(words[k], kws)
    ensures Score(words, kws) == 0
  {
    if |words| > 0 {
      ScoreZero(words[..|words| - 1], kws);
    }
  }

  /** The three-way comparison of the two scores. */
  function Compare(positive: nat, negative: nat): Sentiment {
    if positive > negative then Positive
    else if negative > positive then Negative
    else Neutral
  }

  /** The words of the lower-cased text. */
  function Words(text: string): seq<string> {
    SplitWords(ToLowerAscii(text))
  }

  /** `analyzeSentiment`: positive exactly when more words mention a
      positive keyword than a negative one, negative in the opposite case,
      neutral on a tie; neither score exceeds the number of words. */
  function AnalyzeSentiment(text: string): (r: Sentiment)
    ensures var pos := Score(Words(text), PositiveWords);
            var neg := Score(Words(text), NegativeWords);
      && pos <= |Words(text)| && neg <= |Words(text)|
      && (r == Positive <==> pos > neg)
      && (r == Negative <==> neg > pos)
      && (r == Neutral <==> pos == neg)
  {
    Compare(Score(Words(text), PositiveWords), Score(Words(text), NegativeWords))
  }

  /** The classifier ignores ASCII case: an upper-cased transcript gets the
      same sentiment as the original. */
  lemma SentimentIgnoresCase(text: string)
    ensures AnalyzeSentiment(ToUpperAscii(text)) == AnalyzeSentiment(text)
  {
    LowerOfUpper(text);
  }

  /** A keyword inside a word is inside the text the word came from. */
  lemma InfixTransitive(k: string, w: string, t: string)
    requires IsInfix(k, w) && IsInfix(w, t)
    ensures IsInfix(k, t)
  {
    var i :| 0 <= i <= |w| - |k| && OccursAt(k, w, i);
    var j :| 0 <= j <= |t| - |w| && OccursAt(w, t, j);
    forall m | 0 <= m < |k| ensures t[j + i..j + i + |k|][m] == k[m] {
      assert k[m] == w[i + m];
      assert w[i + m] == t[j..j + |w|][i + m];
    }
    assert OccursAt(k, t, j + i);
  }

  /** Text whose lower-cased form contains no keyword at all, the empty
      text among them, is neutral with both scores zero. */
  lemma NoKeywordsIsNeutral(text: string)
    requires forall k :: 0 <= k < |PositiveWords| ==> !IsInfix(PositiveWords[k], ToLowerAscii(text))
    requires forall k :: 0 <= k < |NegativeWords| ==> !IsInfix(NegativeWords[k], ToLowerAscii(text))
    ensures Score(Words(text), PositiveWords) == 0 && Score(Words(text), NegativeWords) == 0
    ensures AnalyzeSentiment(text) == Neutral
  {
    var words := Words(text);
    SplitWordsAreInfixes(ToLowerAscii(text));
    forall w | 0 <= w < |words| ensures !MentionsAny(words[w], PositiveWords) && !MentionsAny(words[w], NegativeWords) {
      forall k | 0 <= k < |PositiveWords| ensures !IsInfix(PositiveWords[k], words[w]) {
        if IsInfix(PositiveWords[k], words[w]) {
          InfixTransitive(PositiveWords[k], words[w], ToLowerAscii(text));
        }
      }
      forall k | 0 <= k < |NegativeWords| ensures !IsInfix(NegativeWords[k], words[w]) {
        if IsInfix(NegativeWords[k], words[w]) {
          InfixTransitive(NegativeWords[k], words[w], ToLowerAscii(text));
        }
      }
    }
    ScoreZero(words, PositiveWords);
    ScoreZero(words, NegativeWords);
  }

  /** The empty transcript is neutral. */
  lemma EmptyIsNeutral()
    ensures AnalyzeSentiment("") == Neutral
  {
    forall k | 0 <= k < |PositiveWords| ensures !IsInfix(PositiveWords[k], ToLowerAscii("")) {
      assert |PositiveWords[k]| > 0;
    }
    forall k | 0 <= k < |NegativeWords| ensures !IsInfix(NegativeWords[k], ToLowerAscii("")) {
      assert |NegativeWords[k]| > 0;
    }
    NoKeywordsIsNeutral("");
  }

  /** Matching is by substring: a single lower-case word that contains a
      positive and a negative keyword counts once for each list, and the
      text is a tie. */
  lemma OneWordCountsForBoth(w: string, p: nat, i: int, n: nat, j: int)
    requires forall m :: 0 <= m < |w| ==> IsAsciiLower(w[m])
    requires p < |PositiveWords| && OccursAt(PositiveWords[p], w, i)
    requires n < |NegativeWords| && OccursAt(NegativeWords[n], w, j)
    ensures Score(Words(w), PositiveWords) == 1
    ensures Score(Words(w), NegativeWords) == 1
    ensures AnalyzeSentiment(w) == Neutral
  {
    LowerWord(w);
    LoneWordScore(w, PositiveWords, p, i);
    LoneWordScore(w, NegativeWords, n, j);
  }

  /** For instance "goedslecht" is neutral. */
  lemma BothKeywordsTie(w: string)
    requires w == "goedslecht"
    ensures AnalyzeSentiment(w) == Neutral
  {
    assert w[0..4] == PositiveWords[0];
    assert w[4..10] == NegativeWords[0];
    OneWordCountsForBoth(w, 0, 0, 0, 4);
  }

  /** A word that merely starts with a negative keyword counts as negative. */
  lemma PrefixedKeywordCounts(w: string)
    requires w == "stressvol"
    ensures Score(Words(w), NegativeWords) == 1
  {
    LowerWord(w);
    assert w[0..6] == NegativeWords[6];
    LoneWordScore(w, NegativeWords, 6, 0);
  }

  /** A lower-case text without whitespace is its own single word. */
  lemma LowerWord(w: string)
    requires forall i :: 0 <= i < |w| ==> IsAsciiLower(w[i])
    ensures Words(w) == [w]
  {
    assert ToLowerAscii(w) == w;
    assert NoSpace(w) by {
      forall i | 0 <= i < |w| ensures !IsSpace(w[i]) {
        assert IsAsciiLower(w[i]);
      }
    }
    SingleWord(w);
  }

  /** A single word scores one when it contains a keyword. */
  lemma LoneWordScore(w: string, kws: seq<string>, k: nat, i: int)
    requires k < |kws| && OccursAt(kws[k], w, i)
    ensures Score([w], kws) == 1
  {
    assert IsInfix(kws[k], w);
    assert [w][..0] == [];
  }

  /** A text without whitespace is a single word. */
  lemma {:induction false} SingleWord(s: string)
    requires NoSpace(s)
    ensures SplitWords(s) == [s]
    decreases |s|
  {
    if |s| > 0 {
      SingleWord(s[1..]);
      assert [s[0]] + s[1..] == s;
    }
  }

  // ---------------------------------------------------------------------
  // The request handler

  /** The largest upload passed on for transcription. */
  const MaxTranscribeBytes := 25 * 1024 * 1024

  datatype TranscribeError = NoAudioFile | AudioTooLarge | ServiceError(detail: string) | NoTranscript

  /** The handler's reply: the transcript with its sentiment and the upload
      size reported as duration, or an error. */
  datatype TranscribeReply =
    | Transcribed(transcript: string, sentiment: Sentiment, duration: nat)
    | TranscribeFailed(error: TranscribeError)

  /** The handler after authentication, given the uploaded file's size
      (`None` when no file was sent) and the reply the transcription service
      would give. A missing or oversized file is refused whatever that reply
      is, so it is never sent; an empty transcript is an error. */
  function HandleTranscription(audioSize: Option<nat>, service: Result<string, string>): (r: TranscribeReply)
    ensures audioSize.None? ==> r == TranscribeFailed(NoAudioFile)
    ensures audioSize.Some? && audioSize.value > MaxTranscribeBytes ==> r == TranscribeFailed(AudioTooLarge)
    ensures r.Transcribed? <==>
              audioSize.Some? && audioSize.value <= MaxTranscribeBytes && service.Success? && service.value != []
    ensures r.Transcribed? ==>
              r.transcript == service.value && r.sentiment == AnalyzeSentiment(service.value)
              && r.duration == audioSize.value
  {
    match audioSize
    case None => TranscribeFailed(NoAudioFile)
    case Some(size) =>
      if size > MaxTranscribeBytes then TranscribeFailed(AudioTooLarge)
      else
        match service
        case Failure(e) => TranscribeFailed(ServiceError(e))
        case Success(t) =>
          if t == [] then TranscribeFailed(NoTranscript)
          else Transcribed(t, AnalyzeSentiment(t), size)
  }
}
