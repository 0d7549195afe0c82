/**
  `ClassifierService.classify`: the whitespace guard, truncation to
  `MaxTextChars` characters, and reading the top label and score off the
  zero-shot model's ranking. The model itself is a parameter.
 */
module Classifier {
  import opened Wrappers
  import opened Text
  import opened Adapters

  const MaxTextChars: nat := 10000

  /** The model's ranked output: labels and scores, best first. */
  datatype Ranking = Ranking(labels: seq<string>, scores: seq<real>)

  /** The zero-shot pipeline: text, candidate labels, multi-label flag. */
  type ZeroShotModel = (string, seq<string>, bool) -> Result<Ranking, Error>

  datatype Prediction = Prediction(classification: string, confidence: real)

  /** The degenerate result returned without consulting the model. */
  const Unknown: Prediction := Prediction("unknown", 0.0)

  /** `classify(text, labels)`: whitespace-only text is answered with `Unknown`
      and no model call; anything else is truncated, ranked once in
      single-label mode against the unchanged candidates, and the top entry
      is returned. */
  function Classify(model: ZeroShotModel, text: string, labels: seq<string>): (run: Run<Prediction>)
    ensures IsBlank(text) ==> run == Run(Success(Unknown), [])
    ensures !IsBlank(text) ==> run.calls == [RankCall(Take(text, MaxTextChars), labels, false)]
    ensures !IsBlank(text) && run.result.Success? ==>
      var ranking := model(Take(text, MaxTextChars), labels, false);
      && ranking.Success? && |ranking.value.labels| > 0 && |ranking.value.scores| > 0
      && run.result.value == Prediction(ranking.value.labels[0], ranking.value.scores[0])
    ensures !IsBlank(text) && model(Take(text, MaxTextChars), labels, false).Success? ==>
      var ranking := model(Take(text, MaxTextChars), labels, false).value;
      && (|ranking.labels| > 0 && |ranking.scores| > 0 ==>
            run.result == Success(Prediction(ranking.labels[0], ranking.scores[0])))
      && (|ranking.labels| == 0 || |ranking.scores| == 0 ==> run.result == Failure(EmptyRanking))
    ensures !IsBlank(text) && model(Take(text, MaxTextChars), labels, false).Failure? ==>
      run.result == model(Take(text, MaxTextChars), labels, false).PropagateFailure()
  {
    if IsBlank(text) then Run(Success(Unknown), [])
    else
      var trimmed := Take(text, MaxTextChars);
      var calls := [RankCall(trimmed, labels, false)];
      match model(trimmed, labels, false)
      case Failure(e) => Run(Failure(e), calls)
      case Success(ranking) =>
        if |ranking.labels| == 0 || |ranking.scores| == 0 then Run(Failure(EmptyRanking), calls)
        else Run(Success(Prediction(ranking.labels[0], ranking.scores[0])), calls)
  }

  /** The model sees a prefix of the text of length `min(|text|, MaxTextChars)`. */
  lemma ModelInputIsBoundedPrefix(model: ZeroShotModel, text: string, labels: seq<string>)
    requires !IsBlank(text)
    ensures |Classify(model, text, labels).calls| == 1
    ensures var input := Classify(model, text, labels).calls[0].text;
      && |input| == (if |text| < MaxTextChars then |text| else MaxTextChars)
      && input == text[..|input|]
  {
  }

  /** Truncation is idempotent: classifying a text and classifying its first
      `MaxTextChars` characters give the model identical input and so give
      identical results, unless that prefix is blank. */
  lemma TruncationIdempotent(model: ZeroShotModel, text: string, labels: seq<string>)
    requires !IsBlank(Take(text, MaxTextChars)) || IsBlank(text)
    ensures Classify(model, text, labels) == Classify(model, Take(text, MaxTextChars), labels)
  {
    var t := Take(text, MaxTextChars);
    assert Take(t, MaxTextChars) == t;
    if IsBlank(text) {
      assert IsBlank(t) by {
        forall i | 0 <= i < |t| ensures IsSpace(t[i]) {
          assert t[i] == text[i];
        }
      }
    }
  }

  /** The guard looks at the whole text, not at what the model will see: a
      text whose first `MaxTextChars` characters are whitespace but which has
      a visible character later is sent to the model as whitespace only. */
  lemma BlankPrefixReachesModel(model: ZeroShotModel, text: string, labels: seq<string>)
    requires !IsBlank(text) && IsBlank(Take(text, MaxTextChars))
    ensures Classify(model, text, labels).calls == [RankCall(Take(text, MaxTextChars), labels, false)]
    ensures IsBlank(Classify(model, text, labels).calls[0].text)
    ensures Classify(model, Take(text, MaxTextChars), labels) == Run(Success(Unknown), [])
  {
    assert Take(Take(text, MaxTextChars), MaxTextChars) == Take(text, MaxTextChars);
  }

  /** `n` copies of `c`. */
  function Repeat(c: char, n: nat): (s: string)
    ensures |s| == n
    ensures forall i | 0 <= i < n :: s[i] == c
  {
    if n == 0 then [] else [c] + Repeat(c, n - 1)
  }

  /** Such a text exists: 10 000 spaces followed by "x". */
  lemma BlankPrefixWitness(model: ZeroShotModel, labels: seq<string>)
    ensures var text := Repeat(' ', MaxTextChars) + "x";
      && !IsBlank(text)
      && IsBlank(Classify(model, text, labels).calls[0].text)
  {
    var text := Repeat(' ', MaxTextChars) + "x";
    assert text[MaxTextChars] == 'x';
    assert Take(text, MaxTextChars) == Repeat(' ', MaxTextChars);
    BlankPrefixReachesModel(model, text, labels);
  }

  /** If the model only ever ranks the candidates it was given, the returned
      label is one of the candidates or the degenerate "unknown". */
  lemma LabelIsCandidate(model: ZeroShotModel, text: string, labels: seq<string>)
    requires var r := model(Take(text, MaxTextChars), labels, false);
      r.Success? ==> forall i | 0 <= i < |r.value.labels| :: r.value.labels[i] in labels
    requires Classify(model, text, labels).result.Success?
    ensures var p := Classify(model, text, labels).result.value;
      p.classification in labels || p == Unknown
  {
  }
}
