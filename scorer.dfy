/** `compute_score`: every example of a batch scored on format, shape, presence
    and similarity, and the four combined with fixed weights. */
module Scorer {
  import opened Wrappers
  import opened Text
  import opened Grids
  import opened Normalizer
  import opened Format
  import opened Parser
  import opened Metrics

  /** One example of the batch: the model's response and the reference answer. */
  datatype RewardInput = RewardInput(response: string, groundTruth: string)

  /** The score breakdown emitted for one example. */
  datatype ScoreRecord = ScoreRecord(overall: real, format: real, similarity: real, shape: real, presence: real)

  /** The weighted sum of `compute_score`, with its weights 0.1, 0.6, 0.2 and 0.1 written in. */
  function Overall(format: real, similarity: real, shape: real, presence: real): real {
    format * 0.1 + similarity * 0.6 + shape * 0.2 + presence * 0.1
  }

  /** The weights sum to one, so the overall score of component scores in [0, 1] is in [0, 1]. */
  lemma OverallBounds(format: real, similarity: real, shape: real, presence: real)
    requires 0.0 <= format <= 1.0 && 0.0 <= similarity <= 1.0
    requires 0.0 <= shape <= 1.0 && 0.0 <= presence <= 1.0
    ensures 0.0 <= Overall(format, similarity, shape, presence) <= 1.0
    ensures Overall(1.0, 1.0, 1.0, 1.0) == 1.0
  {
  }

  /** What every record satisfies: each score in [0, 1], the 0/1 scores exactly 0 or 1,
      the overall score the weighted sum, and no similarity without a shape match. */
  predicate ValidRecord(r: ScoreRecord) {
    && (r.format == 0.0 || r.format == 1.0)
    && (r.shape == 0.0 || r.shape == 1.0)
    && (r.presence == 0.0 || r.presence == 1.0)
    && 0.0 <= r.similarity <= 1.0
    && 0.0 <= r.overall <= 1.0
    && r.overall == Overall(r.format, r.similarity, r.shape, r.presence)
    && (r.shape == 0.0 ==> r.similarity == 0.0)
  }

  datatype GridScores = GridScores(similarity: real, shape: real, presence: real)

  /** The `try` block on two parsed grids: None when `np.asarray` raises on a ragged grid. */
  function TryGridScores(a: Grid, b: Grid): (s: Option<GridScores>)
    requires DigitGrid(a) && !(a == [] && b == [])
    ensures s.None? <==> !Rectangular(a) || !Rectangular(b)
    ensures s.Some? ==> (s.value.shape == 0.0 || s.value.shape == 1.0) && (s.value.shape == 1.0 <==> SameShape(a, b))
    ensures s.Some? ==> (s.value.presence == 0.0 || s.value.presence == 1.0)
    ensures s.Some? ==> (s.value.presence == 1.0 <==> SameValues(a, b))
    ensures s.Some? ==> 0.0 <= s.value.similarity <= 1.0 && (s.value.shape == 0.0 ==> s.value.similarity == 0.0)
    ensures s.Some? ==> (s.value.similarity == 1.0 <==> a == b)
    ensures s.Some? && s.value.shape == 1.0 ==> |Flatten(a)| > 0 && s.value.similarity == Similarity(a, b)
  {
    match ComputeShape(a, b)
    case None => None
    case Some(shape) =>
      DigitGridCells(a);
      Some(GridScores(if shape == 1.0 then Similarity(a, b) else 0.0, shape, ComputePresence(a, b)))
  }

  /** The grid metrics as the `try` block leaves them, or all 0.0 as the `except`
      clause leaves them when a parse failed or a grid is ragged. */
  function CompareGrids(res: Option<Grid>, ans: Option<Grid>): (s: GridScores)
    requires res.Some? ==> DigitGrid(res.value)
    requires !(res == Some([]) && ans == Some([]))
    ensures s.shape == 0.0 || s.shape == 1.0
    ensures s.presence == 0.0 || s.presence == 1.0
    ensures 0.0 <= s.similarity <= 1.0
    ensures s.shape == 0.0 ==> s.similarity == 0.0
    ensures res.None? || ans.None? ==> s == GridScores(0.0, 0.0, 0.0)
    ensures s.shape == 1.0 <==>
      res.Some? && ans.Some? && Rectangular(res.value) && Rectangular(ans.value) && SameShape(res.value, ans.value)
    ensures s.presence == 1.0 <==>
      res.Some? && ans.Some? && Rectangular(res.value) && Rectangular(ans.value) && SameValues(res.value, ans.value)
    ensures s.similarity == 1.0 <==> res.Some? && res == ans && Rectangular(res.value)
    ensures s.shape == 1.0 ==>
      res.Some? && ans.Some? && SameShape(res.value, ans.value) && |Flatten(res.value)| > 0 &&
      s.similarity == Similarity(res.value, ans.value)
  {
    if res.None? || ans.None? || TryGridScores(res.value, ans.value).None? then GridScores(0.0, 0.0, 0.0)
    else TryGridScores(res.value, ans.value).value
  }

  /** Rules out the one input scored as NaN: both sides parse to the empty grid
      (their text after the prefix is all whitespace), so the similarity would be
      the mean of no cells. */
  predicate SimilarityDefined(input: RewardInput) {
    !(AllSpace(Remainder(Normalize(input.response))) && AllSpace(Remainder(input.groundTruth)))
  }

  /** The excluded input is exactly the one where both sides parse to the empty grid. */
  lemma SimilarityDefinedIff(input: RewardInput)
    ensures SimilarityDefined(input) <==>
      !(ParseAnswer(Normalize(input.response)) == Some([]) && ParseAnswer(input.groundTruth) == Some([]))
  {
    var a, b := ParseAnswer(Normalize(input.response)), ParseAnswer(input.groundTruth);
  }

  /** The record `compute_score` emits for one example. */
  function ScoreExample(input: RewardInput): ScoreRecord
    requires SimilarityDefined(input)
  {
    Record(FormatReward(Normalize(input.response)),
           CompareGrids(ParseAnswer(Normalize(input.response)), ParseAnswer(input.groundTruth)))
  }

  /** The record of a format score and the grid metrics, with its overall score. */
  function Record(format: real, s: GridScores): ScoreRecord {
    ScoreRecord(Overall(format, s.similarity, s.shape, s.presence), format, s.similarity, s.shape, s.presence)
  }

  /** A record built from 0/1 format, shape and presence scores and a similarity in
      [0, 1] that is 0 without a shape match is valid. */
  lemma RecordValid(format: real, s: GridScores)
    requires format == 0.0 || format == 1.0
    requires s.shape == 0.0 || s.shape == 1.0
    requires s.presence == 0.0 || s.presence == 1.0
    requires 0.0 <= s.similarity <= 1.0 && (s.shape == 0.0 ==> s.similarity == 0.0)
    ensures ValidRecord(Record(format, s))
  {
    assert 0.0 <= Record(format, s).overall <= 1.0 by {
      OverallBounds(format, s.similarity, s.shape, s.presence);
    }
  }

  /** Every record is valid, its format score is the format reward of the normalised
      response, and a response or reference that does not parse zeroes the grid metrics. */
  lemma ScoreExampleValid(input: RewardInput)
    requires SimilarityDefined(input)
    ensures ValidRecord(ScoreExample(input))
    ensures ScoreExample(input).format == FormatReward(Normalize(input.response))
    ensures ParseAnswer(Normalize(input.response)).None? || ParseAnswer(input.groundTruth).None? ==>
      ScoreExample(input).shape == 0.0 && ScoreExample(input).presence == 0.0 && ScoreExample(input).similarity == 0.0
  {
    RecordValid(FormatReward(Normalize(input.response)),
                CompareGrids(ParseAnswer(Normalize(input.response)), ParseAnswer(input.groundTruth)));
  }

  /** A response that does not parse also fails the format check, so it scores 0.0 throughout. */
  lemma UnparseableScoresZero(input: RewardInput)
    requires ParseAnswer(Normalize(input.response)).None?
    ensures SimilarityDefined(input)
    ensures ScoreExample(input) == ScoreRecord(0.0, 0.0, 0.0, 0.0, 0.0)
  {
    var response := Normalize(input.response);
    if FormatReward(response) == 1.0 {
      FormatImpliesParse(response);
    }
  }

  /** A response that parses to the reference's own non-empty rectangular grid gets full
      similarity, shape and presence, and an overall score of 0.9 plus the format share. */
  lemma MatchingAnswerScores(input: RewardInput, g: Grid)
    requires ParseAnswer(Normalize(input.response)) == Some(g)
    requires ParseAnswer(input.groundTruth) == Some(g)
    requires g != [] && Rectangular(g)
    ensures SimilarityDefined(input)
    ensures ScoreExample(input).similarity == 1.0
    ensures ScoreExample(input).shape == 1.0
    ensures ScoreExample(input).presence == 1.0
    ensures ScoreExample(input).overall == 0.9 + ScoreExample(input).format * 0.1
  {
    var s := CompareGrids(Some(g), Some(g));
    assert s.similarity == 1.0;
  }

  /** The `try` block and its `except` clause: parse both sides, then shape, presence
      and, after a shape match, similarity; any exception leaves all three at 0.0. */
  method TryBlock(response: string, groundTruth: string) returns (simScore: real, shapeScore: real, presenceScore: real)
    requires !(ParseAnswer(response) == Some([]) && ParseAnswer(groundTruth) == Some([]))
    ensures GridScores(simScore, shapeScore, presenceScore) == CompareGrids(ParseAnswer(response), ParseAnswer(groundTruth))
  {
    simScore := 0.0;
    var resList := GetAnswer(response);
    if resList.None? {
      return 0.0, 0.0, 0.0;
    }
    var ansList := GetAnswer(groundTruth);
    if ansList.None? {
      return 0.0, 0.0, 0.0;
    }
    var shape := ComputeShape(resList.value, ansList.value);
    if shape.None? {
      return 0.0, 0.0, 0.0;
    }
    shapeScore := shape.value;
    presenceScore := ComputePresence(resList.value, ansList.value);
    if shapeScore == 1.0 {
      DigitGridCells(resList.value);
      simScore := Similarity(resList.value, ansList.value);
    }
    assert TryGridScores(resList.value, ansList.value) == Some(GridScores(simScore, shapeScore, presenceScore));
  }

  /** The body of `compute_score`'s loop for one example: normalise, score the format,
      then the `try` block, and assemble the record. */
  method ScoreOne(input: RewardInput) returns (record: ScoreRecord)
    requires SimilarityDefined(input)
    ensures record == ScoreExample(input)
  {
    var response := Normalize(input.response);
    var formatScore := FormatReward(response);
    var simScore, shapeScore, presenceScore := TryBlock(response, input.groundTruth);
    record := ScoreRecord(Overall(formatScore, simScore, shapeScore, presenceScore),
                          formatScore, simScore, shapeScore, presenceScore);
  }

  /** Every example of the batch has a defined similarity. */
  predicate AllDefined(inputs: seq<RewardInput>) {
    forall i {:trigger SimilarityDefined(inputs[i])} :: 0 <= i < |inputs| ==> SimilarityDefined(inputs[i])
  }

  /** `f` may be applied to every element of `xs`. */
  ghost predicate Applicable<X, Y>(f: X --> Y, xs: seq<X>) {
    forall i :: 0 <= i < |xs| ==> f.requires(xs[i])
  }

  /** The results of `f` on the first `n` elements of `xs`, in order. */
  function MapPrefix<X, Y>(f: X --> Y, xs: seq<X>, n: nat): seq<Y>
    requires Applicable(f, xs) && n <= |xs|
  {
    if n == 0 then [] else MapPrefix(f, xs, n - 1) + [f(xs[n - 1])]
  }

  /** Mapping keeps length and order: element i of the result is `f` of element i. */
  lemma {:induction false} MapPrefixPointwise<X, Y>(f: X --> Y, xs: seq<X>, n: nat)
    requires Applicable(f, xs) && n <= |xs|
    ensures |MapPrefix(f, xs, n)| == n
    ensures forall i :: 0 <= i < n ==> MapPrefix(f, xs, n)[i] == f(xs[i])
  {
    if n > 0 {
      MapPrefixPointwise(f, xs, n - 1);
    }
  }

  /** A batch without a NaN example can be scored example by example. */
  lemma AllDefinedApplicable(inputs: seq<RewardInput>)
    requires AllDefined(inputs)
    ensures Applicable(ScoreExample, inputs)
  {
    forall i | 0 <= i < |inputs|
      ensures ScoreExample.requires(inputs[i])
    {
      assert SimilarityDefined(inputs[i]);
    }
  }

  /** The records `compute_score` returns for a batch. */
  function Scores(inputs: seq<RewardInput>): seq<ScoreRecord>
    requires AllDefined(inputs)
  {
    AllDefinedApplicable(inputs);
    MapPrefix(ScoreExample, inputs, |inputs|)
  }

  /** One valid record per example, in input order: record i scores example i. */
  lemma ScoresPointwise(inputs: seq<RewardInput>)
    requires AllDefined(inputs)
    ensures |Scores(inputs)| == |inputs|
    ensures forall i :: 0 <= i < |inputs| ==> Scores(inputs)[i] == ScoreExample(inputs[i])
    ensures forall i :: 0 <= i < |inputs| ==> ValidRecord(Scores(inputs)[i])
  {
    AllDefinedApplicable(inputs);
    MapPrefixPointwise(ScoreExample, inputs, |inputs|);
    forall i | 0 <= i < |inputs|
      ensures ValidRecord(Scores(inputs)[i])
    {
      ScoreExampleValid(inputs[i]);
    }
  }

  /** One turn of `compute_score`'s loop: the record of example `i`, appended to
      the records of the examples before it. */
  method ScoreAt(inputs: seq<RewardInput>, i: nat) returns (record: ScoreRecord)
    requires Applicable(ScoreExample, inputs) && i < |inputs|
    ensures MapPrefix(ScoreExample, inputs, i + 1) == MapPrefix(ScoreExample, inputs, i) + [record]
  {
    record := ScoreOne(inputs[i]);
  }

  /** `compute_score`: the records of the batch, which `ScoresPointwise` shows are one
      valid record per input in input order; a malformed example gets degraded scores
      and never stops the loop. `formatWeight` is accepted and, as in the source, not used. */
  method ComputeScore(inputs: seq<RewardInput>, formatWeight: real) returns (scores: seq<ScoreRecord>)
    requires AllDefined(inputs)
    ensures scores == Scores(inputs)
  {
    AllDefinedApplicable(inputs);
    scores := [];
    for i := 0 to |inputs|
      invariant scores == MapPrefix(ScoreExample, inputs, i)
    {
      var record := ScoreAt(inputs, i);
      scores := scores + [record];
    }
  }
}
