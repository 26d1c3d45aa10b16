/** The start-up build of backend/model.py (lines 19-82) and
    `predict_disease` (lines 94-127), composed from the other modules. The
    decision tree stands behind a `Classifier` value whose only contract is
    that it returns one probability per class. */
module Pipeline {
  import opened Optional
  import opened Text
  import opened Tables
  import opened Vocabulary
  import opened Encoding
  import opened Ranking

  /** `predict_disease`'s default `top_n`. */
  const DefaultTopN := 5

  /** The fitted model as the pipeline sees it: `classes_` and
      `predict_proba` on one feature vector. */
  datatype Classifier = Classifier(classes: seq<string>, proba: seq<real> -> seq<real>)

  /** `predict_proba` returns one probability per class, and `classes_`,
      being `np.unique(y)`, holds no class twice. */
  ghost predicate Aligned(model: Classifier)
  {
    && (forall v :: |model.proba(v)| == |model.classes|)
    && (forall i, j :: 0 <= i < j < |model.classes| ==> model.classes[i] != model.classes[j])
  }

  /** `argsort` behaves as `np.argsort` on every probability vector. */
  ghost predicate SortsIndices(argsort: seq<real> -> seq<nat>)
  {
    forall p :: IsArgsort(p, argsort(p))
  }

  /** The module-level state built at import time. */
  datatype Engine = Engine(
    severity: map<string, real>,
    descriptions: map<string, string>,
    precautions: map<string, seq<string>>,
    columns: seq<nat>,
    vocab: seq<string>,
    training: seq<seq<real>>)

  /** What the start-up build promises about the state it leaves. */
  ghost predicate Built(e: Engine, data: Table, severityRows: seq<SeverityRow>, parse: string -> Option<real>,
                        descRows: seq<DescriptionRow>, precRows: seq<PrecautionRow>)
  {
    && LastWriteWins(e.severity, SeverityKeys(severityRows), SeverityWeights(severityRows, parse))
    && (forall k :: k in e.severity ==> Normal(k))
    && LastWriteWins(e.descriptions, DescriptionKeys(descRows), DescriptionTexts(descRows))
    && LastWriteWins(e.precautions, PrecautionKeys(precRows), PrecautionLists(precRows))
    && e.columns == SymptomColumns(data.columns)
    && Ascending(e.vocab)
    && (forall x :: x in e.vocab <==> Observed(data, e.columns, x))
    && |e.training| == |data.rows|
    && (forall i :: 0 <= i < |data.rows| ==> TrainingVector(e.training[i], data.rows[i], e.columns, e.vocab, e.severity))
  }

  /** `X = data.apply(create_feature_vector, axis=1)`: one training vector
      per row, in row order. */
  method BuildTrainingMatrix(data: Table, columns: seq<nat>, vocab: seq<string>, severity: map<string, real>)
    returns (training: seq<seq<real>>)
    requires Rectangular(data) && InTable(data, columns)
    ensures |training| == |data.rows|
    ensures forall i :: 0 <= i < |data.rows| ==> TrainingVector(training[i], data.rows[i], columns, vocab, severity)
  {
    training := [];
    var i := 0;
    while i < |data.rows|
      invariant 0 <= i <= |data.rows| && |training| == i
      invariant forall r :: 0 <= r < i ==> TrainingVector(training[r], data.rows[r], columns, vocab, severity)
    {
      var features := EncodeTrainingRow(data.rows[i], columns, vocab, severity);
      training := training + [features];
      i := i + 1;
    }
  }

  /** Builds the lookup tables, the symptom columns, the sorted vocabulary
      and the training matrix `X`, one `create_feature_vector` per row. */
  method Initialize(data: Table, severityRows: seq<SeverityRow>, parse: string -> Option<real>,
                    descRows: seq<DescriptionRow>, precRows: seq<PrecautionRow>)
    returns (e: Engine)
    requires Rectangular(data)
    ensures Built(e, data, severityRows, parse, descRows, precRows)
  {
    var severity := BuildSeverityMapping(severityRows, parse);
    var descriptions := BuildDescriptions(descRows);
    var precautions := BuildPrecautions(precRows);
    var columns := SymptomColumns(data.columns);
    var found := CollectSymptoms(data, columns);
    var vocab := SortedList(found);
    var training := BuildTrainingMatrix(data, columns, vocab, severity);
    e := Engine(severity, descriptions, precautions, columns, vocab, training);
  }

  /** Every training vector and the vector built for any list of user
      symptoms have one slot per vocabulary entry. */
  lemma VectorLengths(e: Engine, data: Table, severityRows: seq<SeverityRow>, parse: string -> Option<real>,
                      descRows: seq<DescriptionRow>, precRows: seq<PrecautionRow>, obs: seq<Observation>)
    requires Built(e, data, severityRows, parse, descRows, precRows)
    ensures forall i :: 0 <= i < |e.training| ==> |e.training[i]| == |e.vocab|
    ensures |Encode(e.vocab, e.severity, obs)| == |e.vocab|
  {
    forall i | 0 <= i < |e.training| ensures |e.training[i]| == |e.vocab| {
      assert TrainingVector(e.training[i], data.rows[i], e.columns, e.vocab, e.severity);
    }
  }

  /** `predict_disease(user_symptoms, top_n)`: encodes the symptoms, asks the
      classifier for its probabilities and returns the `top_n` most probable
      diseases, most probable first. */
  method PredictDisease(e: Engine, userSymptoms: seq<Observation>, topN: int,
                        model: Classifier, argsort: seq<real> -> seq<nat>)
    returns (top: seq<Prediction>)
    requires topN >= 1 && Aligned(model) && SortsIndices(argsort)
    ensures var probs := model.proba(Encode(e.vocab, e.severity, userSymptoms));
            && top == Predictions(model.classes, probs, TopIndices(argsort(probs), topN))
            && RankedTop(probs, TopIndices(argsort(probs), topN), TopCount(|model.classes|, topN))
            && forall k, l :: 0 <= k < l < |top| ==> top[k].disease != top[l].disease
  {
    var features := EncodeSymptoms(e.vocab, e.severity, userSymptoms);
    var probabilities := model.proba(features);
    var order := argsort(probabilities);
    assert IsArgsort(probabilities, order);
    top := Rank(model.classes, probabilities, order, topN);
    PredictionsDistinct(model.classes, probabilities, TopIndices(order, topN), TopCount(|model.classes|, topN));
  }

  /** `predict_disease(user_symptoms)`, with the default `top_n`: at most
      five diseases, most probable first. */
  method PredictDiseaseDefault(e: Engine, userSymptoms: seq<Observation>,
                               model: Classifier, argsort: seq<real> -> seq<nat>)
    returns (top: seq<Prediction>)
    requires Aligned(model) && SortsIndices(argsort)
    ensures var probs := model.proba(Encode(e.vocab, e.severity, userSymptoms));
            && top == Predictions(model.classes, probs, TopIndices(argsort(probs), DefaultTopN))
            && |top| == TopCount(|model.classes|, DefaultTopN)
            && RankedTop(probs, TopIndices(argsort(probs), DefaultTopN), TopCount(|model.classes|, DefaultTopN))
            && forall k, l :: 0 <= k < l < |top| ==> top[k].disease != top[l].disease
  {
    top := PredictDisease(e, userSymptoms, DefaultTopN, model, argsort);
  }
}
