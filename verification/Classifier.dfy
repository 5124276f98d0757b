/** The gambling-site classifier (teht2/classifier.py): the overlap ratio of a
    page's word profile with the fingerprint of common gambling words, the
    strict threshold decision, and the threshold calibration over a training
    set of known gambling sites. */
module Classifier {
  import opened Wrappers
  import opened Seqs
  import opened PyStr
  import opened Counter
  import opened Preprocessing

  /** `DEFAULT_GAMBLING_SITE_THRESHOLD`, as an exact decimal. */
  const DefaultGamblingSiteThreshold: real := 0.2681992337164751

  /** The default `num_of_keywords` of `get_most_common_words`. */
  const ProfileLimit: int := 150

  /** Calibration skips a training page whose profile has fewer entries. */
  const MinProfileSize: nat := 20

  datatype Label = GamblingSite | NonGamblingSite

  /** The profile entries whose word is in the fingerprint. */
  function Shared(profile: seq<WordCount>, fingerprint: set<string>): seq<WordCount>
  {
    Filter(profile, (e: WordCount) => e.word in fingerprint)
  }

  lemma Fraction(part: real, whole: real)
    requires 0.0 <= part <= whole && whole > 0.0
    ensures 0.0 <= part / whole <= 1.0
    ensures part / whole == 1.0 <==> part == whole
    ensures part / whole == 0.0 <==> part == 0.0
  {
    assert part / whole * whole == part;
  }

  /** The share of profile entries whose word is in the fingerprint;
      `None` stands for the `ZeroDivisionError` of an empty profile. */
  function OverlapRatio(profile: seq<WordCount>, fingerprint: set<string>): (ratio: Option<real>)
    ensures ratio.None? <==> profile == []
    ensures ratio.Some? ==> 0.0 <= ratio.value <= 1.0
  {
    if profile == [] then None
    else
      FilterLength(profile, (e: WordCount) => e.word in fingerprint);
      Fraction(|Shared(profile, fingerprint)| as real, |profile| as real);
      Some(|Shared(profile, fingerprint)| as real / |profile| as real)
  }

  /** The ratio is 1 exactly when every profile word is in the fingerprint,
      and 0 exactly when none is. */
  lemma OverlapRatioExtremes(profile: seq<WordCount>, fingerprint: set<string>)
    requires profile != []
    ensures OverlapRatio(profile, fingerprint).value == 1.0 <==> forall e :: e in profile ==> e.word in fingerprint
    ensures OverlapRatio(profile, fingerprint).value == 0.0 <==> forall e :: e in profile ==> e.word !in fingerprint
  {
    FilterLength(profile, (e: WordCount) => e.word in fingerprint);
    Fraction(|Shared(profile, fingerprint)| as real, |profile| as real);
  }

  /** Two of the three profile words are in the fingerprint: the ratio is 2/3. */
  lemma OverlapRatioExample(profile: seq<WordCount>, fingerprint: set<string>)
    requires profile == [WordCount("bet", 10), WordCount("bonus", 5), WordCount("win", 3)]
    requires fingerprint == {"bet", "win", "jackpot"}
    ensures OverlapRatio(profile, fingerprint) == Some(2.0 / 3.0)
  {
    SharedInExample(profile, fingerprint);
    assert |profile| == 3;
    assert OverlapRatio(profile, fingerprint) == Some(2 as real / 3 as real);
  }

  lemma SharedInExample(profile: seq<WordCount>, fingerprint: set<string>)
    requires profile == [WordCount("bet", 10), WordCount("bonus", 5), WordCount("win", 3)]
    requires fingerprint == {"bet", "win", "jackpot"}
    ensures |Shared(profile, fingerprint)| == 2
  {
    var keep := (e: WordCount) => e.word in fingerprint;
    var win := [WordCount("win", 3)];
    var bonusWin := [WordCount("bonus", 5)] + win;
    assert profile == [WordCount("bet", 10)] + bonusWin;
    assert "bonus" !in fingerprint by {
      assert "bonus"[1] != "bet"[1] && "bonus"[1] != "win"[1] && "bonus"[1] != "jackpot"[1];
    }
    FilterCons(WordCount("win", 3), [], keep);
    assert [WordCount("win", 3)] + [] == win;
    FilterCons(WordCount("bonus", 5), win, keep);
    FilterCons(WordCount("bet", 10), bonusWin, keep);
  }

  /** The decision of `classify_site`: gambling only when the ratio strictly exceeds the threshold. */
  function Decide(ratio: real, threshold: real): (verdict: Label)
    ensures verdict == GamblingSite <==> ratio > threshold
  {
    if ratio > threshold then GamblingSite else NonGamblingSite
  }

  /** Raising the ratio never turns a gambling verdict into a non-gambling one,
      and a ratio equal to the threshold is not enough. */
  lemma DecideMonotone(ratio: real, ratio': real, threshold: real)
    requires ratio <= ratio'
    ensures Decide(ratio, threshold) == GamblingSite ==> Decide(ratio', threshold) == GamblingSite
    ensures Decide(threshold, threshold) == NonGamblingSite
  {
  }

  /** How a classification run ends: with no label (the page text was empty and
      the script exits), with a label, or with a `ZeroDivisionError`. */
  datatype Outcome = Exited | Classified(verdict: Label) | ZeroDivisionError

  /** The frequency profile `classify_site` scores: the preprocessed page text,
      profiled with the default limit and delimiter. */
  function PageProfile(text: string, tokenize: string -> seq<string>, lemmatize: string -> string,
                       stopwords: set<string>): seq<WordCount>
  {
    GetMostCommonWords([Join(WithoutStopwords(Lemmas(tokenize(text), lemmatize), stopwords), ' ')], ProfileLimit, ' ')
  }

  /** `classify_site`, with the fetched page, the NLP collaborators and the
      fingerprint given. */
  method ClassifySite(page: Fetch, tokenize: string -> seq<string>, lemmatize: string -> string,
                      stopwords: set<string>, fingerprint: set<string>, threshold: real)
    returns (outcome: Outcome)
    ensures outcome == Exited <==> GetTextsFromUrl(page) == ""
    ensures outcome != ZeroDivisionError
    ensures outcome.Classified? ==>
              var ratio := OverlapRatio(PageProfile(GetTextsFromUrl(page), tokenize, lemmatize, stopwords), fingerprint);
              ratio.Some? && (outcome.verdict == GamblingSite <==> ratio.value > threshold)
  {
    var textContent := GetTextsFromUrl(page);
    if textContent == "" {
      return Exited;
    }
    var processed := PreprocessTextDocuments([textContent], tokenize, lemmatize, stopwords);
    var commonWords := GetMostCommonWords(processed, ProfileLimit, ' ');
    assert commonWords == PageProfile(textContent, tokenize, lemmatize, stopwords);
    MostCommonWordsNonEmpty(processed, ProfileLimit, ' ');
    var ratio := OverlapRatio(commonWords, fingerprint);
    if ratio.None? {
      return ZeroDivisionError;
    }
    outcome := Classified(Decide(ratio.value, threshold));
  }

  // ---------------------------------------------------------------------
  // retrain_classifier

  /** The training set file: unreadable, or one fetched page per line. */
  datatype TrainingFile = Unreadable | Lines(pages: seq<Fetch>)

  /** The profile calibration computes for a training page: the raw page text,
      without preprocessing, profiled with the default limit. */
  function TrainingProfile(page: Fetch): seq<WordCount>
  {
    GetMostCommonWords([GetTextsFromUrl(page)], ProfileLimit, ' ')
  }

  /** Number of profiles too short to be scored. */
  function SkippedCount(profiles: seq<seq<WordCount>>): nat
    decreases |profiles|
  {
    if profiles == [] then 0
    else SkippedCount(profiles[..|profiles| - 1]) + (if |profiles[|profiles| - 1]| < MinProfileSize then 1 else 0)
  }

  /** Sum of the overlap ratios of the profiles long enough to be scored. */
  function RatioSum(profiles: seq<seq<WordCount>>, fingerprint: set<string>): real
    decreases |profiles|
  {
    if profiles == [] then 0.0
    else
      var last := profiles[|profiles| - 1];
      RatioSum(profiles[..|profiles| - 1], fingerprint)
      + (if |last| < MinProfileSize then 0.0 else OverlapRatio(last, fingerprint).value)
  }

  function Max(a: int, b: int): int { if a < b then b else a }

  /** One more profile adds its ratio, when it is scored, or one more skip. */
  lemma CalibrationStep(profiles: seq<seq<WordCount>>, k: nat, fingerprint: set<string>)
    requires k < |profiles|
    ensures RatioSum(profiles[..k + 1], fingerprint) == RatioSum(profiles[..k], fingerprint)
              + (if |profiles[k]| < MinProfileSize then 0.0 else OverlapRatio(profiles[k], fingerprint).value)
    ensures SkippedCount(profiles[..k + 1]) == SkippedCount(profiles[..k]) + (if |profiles[k]| < MinProfileSize then 1 else 0)
  {
    assert profiles[..k + 1][..k] == profiles[..k];
  }

  /** `total / max(count, 1)`. */
  function Mean(total: real, count: int): real
  {
    total / Max(count, 1) as real
  }

  /** A total of at most one per counted item averages to a value in [0, 1]. */
  lemma MeanBounds(total: real, count: int)
    requires 0.0 <= total <= count as real
    ensures 0.0 <= Mean(total, count) <= 1.0
    ensures count < 1 ==> Mean(total, count) == 0.0
  {
    if count >= 1 {
      Fraction(total, count as real);
    }
  }

  /** The average ratio over the scored profiles, the divisor never below 1. */
  function AverageRatio(profiles: seq<seq<WordCount>>, fingerprint: set<string>): real
  {
    Mean(RatioSum(profiles, fingerprint), |profiles| - SkippedCount(profiles))
  }

  /** What `retrain_classifier` returns for a training file. */
  function Calibration(file: TrainingFile, fingerprint: set<string>): (threshold: real)
    ensures 0.0 <= threshold <= 1.0
    ensures file.Unreadable? ==> threshold == 0.0
    ensures file.Lines? && (forall i :: 0 <= i < |file.pages| ==> |TrainingProfile(file.pages[i])| < MinProfileSize) ==>
              threshold == 0.0
  {
    match file
    case Unreadable => 0.0
    case Lines(pages) =>
      var profiles := seq(|pages|, i requires 0 <= i < |pages| => TrainingProfile(pages[i]));
      AverageRatioBounds(profiles, fingerprint);
      AllSkipped(profiles);
      AverageRatio(profiles, fingerprint)
  }

  /** When every profile is too short, every page is skipped. */
  lemma {:induction false} AllSkipped(profiles: seq<seq<WordCount>>)
    ensures (forall i :: 0 <= i < |profiles| ==> |profiles[i]| < MinProfileSize) ==> SkippedCount(profiles) == |profiles|
    decreases |profiles|
  {
    if profiles != [] {
      AllSkipped(profiles[..|profiles| - 1]);
    }
  }

  /** The scored profiles contribute a ratio in [0, 1] each. */
  lemma {:induction false} RatioSumBounds(profiles: seq<seq<WordCount>>, fingerprint: set<string>)
    ensures 0.0 <= RatioSum(profiles, fingerprint) <= (|profiles| - SkippedCount(profiles)) as real
    decreases |profiles|
  {
    if profiles != [] {
      RatioSumBounds(profiles[..|profiles| - 1], fingerprint);
    }
  }

  /** The divisor counts exactly the training pages whose profile has at least 20 entries. */
  lemma {:induction false} CalibrationDivisor(profiles: seq<seq<WordCount>>)
    ensures |profiles| - SkippedCount(profiles) == |Filter(profiles, (p: seq<WordCount>) => |p| >= MinProfileSize)|
    decreases |profiles|
  {
    if profiles != [] {
      var init := profiles[..|profiles| - 1];
      var last := profiles[|profiles| - 1];
      CalibrationDivisor(init);
      assert profiles == init + [last];
      FilterConcat(init, [last], (p: seq<WordCount>) => |p| >= MinProfileSize);
      assert [last][1..] == [];
    }
  }

  /** The calibrated threshold is an average of ratios, so it lies in [0, 1];
      when no page was scored (no lines, or all skipped) it is 0. */
  lemma AverageRatioBounds(profiles: seq<seq<WordCount>>, fingerprint: set<string>)
    ensures 0.0 <= AverageRatio(profiles, fingerprint) <= 1.0
    ensures SkippedCount(profiles) == |profiles| ==> AverageRatio(profiles, fingerprint) == 0.0
  {
    RatioSumBounds(profiles, fingerprint);
    MeanBounds(RatioSum(profiles, fingerprint), |profiles| - SkippedCount(profiles));
  }

  /** What the loop of `retrain_classifier` has accumulated at its end gives the calibration. */
  lemma CalibrationOfLines(pages: seq<Fetch>, fingerprint: set<string>, profiles: seq<seq<WordCount>>, total: real, errors: int)
    requires profiles == seq(|pages|, i requires 0 <= i < |pages| => TrainingProfile(pages[i]))
    requires total == RatioSum(profiles[..|pages|], fingerprint)
    requires errors == SkippedCount(profiles[..|pages|])
    ensures total / Max(|pages| - errors, 1) as real == Calibration(Lines(pages), fingerprint)
  {
    assert profiles[..|pages|] == profiles;
  }

  /** `retrain_classifier`, with the training file's pages already fetched. */
  method RetrainClassifier(file: TrainingFile, fingerprint: set<string>) returns (threshold: real)
    ensures threshold == Calibration(file, fingerprint)
    ensures 0.0 <= threshold <= 1.0
    ensures file.Unreadable? ==> threshold == 0.0
  {
    if file.Unreadable? {
      return 0.0;
    }
    var lines := file.pages;
    ghost var profiles := seq(|lines|, i requires 0 <= i < |lines| => TrainingProfile(lines[i]));
    var avgSimilarity: real := 0.0;
    var errors: nat := 0;
    for k := 0 to |lines|
      invariant avgSimilarity == RatioSum(profiles[..k], fingerprint)
      invariant errors == SkippedCount(profiles[..k])
    {
      var mostCommon := TrainingProfile(lines[k]);
      CalibrationStep(profiles, k, fingerprint);
      if |mostCommon| < MinProfileSize {
        errors := errors + 1;
        continue;
      }
      var percentage := OverlapRatio(mostCommon, fingerprint).value;
      avgSimilarity := avgSimilarity + percentage;
    }
    threshold := avgSimilarity / Max(|lines| - errors, 1) as real;
    CalibrationOfLines(lines, fingerprint, profiles, avgSimilarity, errors);
  }

  /** The module-level threshold: the calibrated one when a training set path is
      given, else the default. */
  method GamblingSiteThreshold(trainingSet: Option<TrainingFile>, fingerprint: set<string>) returns (threshold: real)
    ensures trainingSet.None? ==> threshold == DefaultGamblingSiteThreshold
    ensures trainingSet.Some? ==> threshold == Calibration(trainingSet.value, fingerprint)
    ensures 0.0 <= threshold <= 1.0
  {
    if trainingSet.Some? {
      threshold := RetrainClassifier(trainingSet.value, fingerprint);
    } else {
      threshold := DefaultGamblingSiteThreshold;
    }
  }
}
