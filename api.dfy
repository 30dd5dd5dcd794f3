/** The prediction endpoint (`POST /prediction/`): upload, validation,
    cleaning, classification, and the summary of predicted labels. */
module Api {
  import opened Wrappers
  import opened Ingest
  import opened Table
  import opened External

  /** The required feature columns, in the order this endpoint checks and keeps them. */
  const ApiColumns: seq<string> := [MarginLow, MarginUp, Length]

  /** The columns of each returned record. */
  const OutputColumns: seq<string> := ApiColumns + ["prediction"] + ["proba"]

  /** The column names of this endpoint are pairwise different. */
  lemma OutputColumnsDistinct()
    ensures Distinct(ApiColumns) && MarginLow in ApiColumns
    ensures "prediction" !in ApiColumns && "proba" !in ApiColumns + ["prediction"]
    ensures "prediction" != MarginLow && "prediction" != MarginUp && "prediction" != Length
    ensures "proba" != MarginLow && "proba" != MarginUp && "proba" != Length && "proba" != "prediction"
    ensures Distinct(OutputColumns)
  {
    assert MarginLow[7] != MarginUp[7] && MarginLow[0] != Length[0] && MarginUp[0] != Length[0];
    assert "prediction"[0] != MarginLow[0] && "prediction"[0] != MarginUp[0] && "prediction"[0] != Length[0];
    assert "proba"[0] != MarginLow[0] && "proba"[0] != MarginUp[0] && "proba"[0] != Length[0];
    assert "proba"[4] != "prediction"[4];
  }

  /** The required names are non-empty and comma-free. */
  lemma ApiColumnsPlain()
    ensures forall c :: c in ApiColumns ==> PlainName(c)
  {
  }

  /** The missing-column error names exactly the missing columns: two headers
      give the same message only when they lack the same required columns. */
  lemma MissingErrorNamesColumns(h1: seq<string>, h2: seq<string>)
    requires MissingMessage(MissingColumns(ApiColumns, h1)) == MissingMessage(MissingColumns(ApiColumns, h2))
    ensures forall c :: c in ApiColumns ==> (c in h1 <==> c in h2)
  {
    ApiColumnsPlain();
    MissingMessageInjective(MissingColumns(ApiColumns, h1), MissingColumns(ApiColumns, h2));
  }

  /** Any upload whose header has `margin_low` and `margin_up` but no
      `length` is answered with `"Colonnes manquantes : length"`, the prefix
      followed by the one missing name. */
  lemma MissingLengthExample(h: seq<string>)
    requires MarginLow in h && MarginUp in h && Length !in h
    ensures MissingMessage(MissingColumns(ApiColumns, h)) == MissingPrefix + Length
  {
    MissingCons(Length, [], h);
    MissingCons(MarginUp, [Length], h);
    MissingCons(MarginLow, [MarginUp, Length], h);
    assert [Length] + [] == [Length] && [MarginUp] + [Length] == [MarginUp, Length];
    assert [MarginLow] + [MarginUp, Length] == ApiColumns;
    assert MissingColumns(ApiColumns, h) == [Length];
  }

  /** A header holding only `length` is answered in this endpoint's order,
      `margin_low` before `margin_up`. */
  lemma MissingMarginsExample()
    ensures MissingMessage(MissingColumns(ApiColumns, [Length]))
         == MissingPrefix + MarginLow + ", " + MarginUp
  {
    assert MarginLow !in [Length] && MarginUp !in [Length];
    MissingCons(Length, [], [Length]);
    MissingCons(MarginUp, [Length], [Length]);
    MissingCons(MarginLow, [MarginUp, Length], [Length]);
    assert [Length] + [] == [Length] && [MarginUp] + [Length] == [MarginUp, Length];
    assert [MarginLow] + [MarginUp, Length] == ApiColumns;
    assert MissingColumns(ApiColumns, [Length]) == [MarginLow, MarginUp];
    MessageOfTwo(MarginLow, MarginUp);
  }

  /** The two-row example: the missing `margin_low` of the second row becomes
      3.5, the median of the one present value. */
  lemma ImputationExample()
    ensures var frame := Frame([MarginLow, MarginUp, Length],
                               [[Some(3.5), Some(2.1), Some(113.2)], [None, Some(2.0), Some(112.0)]]);
      && MissingColumns(ApiColumns, frame.header) == []
      && Prepared(frame, ApiColumns)[MarginLow] == [Measure(Some(3.5)), Measure(Some(3.5))]
  {
    var frame := Frame([MarginLow, MarginUp, Length],
                       [[Some(3.5), Some(2.1), Some(113.2)], [None, Some(2.0), Some(112.0)]]);
    assert MarginLow in frame.header && MarginUp in frame.header && Length in frame.header;
    assert FirstIndex(frame.header, MarginLow) == 0;
    var col := Column(frame, MarginLow);
    assert col[0] == Some(3.5) && col[1] == None;
    var m := Measures(col);
    assert m == [Measure(Some(3.5)), Measure(None)];
    assert Selected(frame, ApiColumns)[MarginLow] == m;
    FillExample();
    assert Prepared(frame, ApiColumns)[MarginLow] == FillNa(m, BatchMedian(m));
  }

  /** `{"vrai_billet": …, "faux_billet": …, "total": …}`. */
  datatype Summary = Summary(vraiBillet: nat, fauxBillet: nat, total: nat)

  /** The JSON body: the records and the summary, or `{"error": msg}`. */
  datatype Response = Predictions(predictions: seq<Record>, summary: Summary) | Error(error: string)

  /** Number of labels equal to `v`. */
  function Count(labels: seq<int>, v: int): (n: nat)
    ensures n <= |labels|
    ensures n == 0 <==> v !in labels
    ensures n == |labels| <==> forall k :: 0 <= k < |labels| ==> labels[k] == v
  {
    if labels == [] then 0
    else
      assert labels == [labels[0]] + labels[1..];
      (if labels[0] == v then 1 else 0) + Count(labels[1..], v)
  }

  /** The count of `v` is the number of times `v` occurs among the labels. */
  lemma {:induction false} CountIsMultiplicity(labels: seq<int>, v: int)
    ensures Count(labels, v) == multiset(labels)[v]
    decreases |labels|
  {
    if labels != [] {
      CountIsMultiplicity(labels[1..], v);
      assert labels == [labels[0]] + labels[1..];
    }
  }

  /** `value_counts()` read at 0 and 1 (absent counts default to 0), and the
      number of predictions. */
  function Summarize(labels: seq<int>): Summary
  {
    Summary(Count(labels, 0), Count(labels, 1), |labels|)
  }

  /** The two buckets never exceed the total, and fill it exactly when every
      label is 0 or 1. */
  lemma {:induction false} SummaryAccounts(labels: seq<int>)
    ensures Summarize(labels).vraiBillet == Count(labels, 0)
    ensures Summarize(labels).fauxBillet == Count(labels, 1)
    ensures Summarize(labels).total == |labels|
    ensures Summarize(labels).vraiBillet + Summarize(labels).fauxBillet <= Summarize(labels).total
    ensures Summarize(labels).vraiBillet + Summarize(labels).fauxBillet == Summarize(labels).total
        <==> forall k :: 0 <= k < |labels| ==> labels[k] == 0 || labels[k] == 1
  {
    BinaryCounts(labels);
  }

  lemma {:induction false} BinaryCounts(labels: seq<int>)
    ensures Count(labels, 0) + Count(labels, 1) <= |labels|
    ensures Count(labels, 0) + Count(labels, 1) == |labels|
        <==> forall k :: 0 <= k < |labels| ==> labels[k] == 0 || labels[k] == 1
  {
    if labels != [] {
      BinaryCounts(labels[1..]);
      assert forall k :: 1 <= k < |labels| ==> labels[k] == labels[1..][k - 1];
    }
  }

  /** `POST /prediction/`. Any failure (decoding, parsing, a missing column,
      the classifier, a column of the wrong length) gives the error form and
      nothing else; a missing column is reported before the classifier is used. */
  method Predict(libs: Libraries, model: Classifier, content: seq<byte>) returns (r: Response)
    ensures Upload(libs, content).Err? ==> r == Error(Upload(libs, content).msg)
    ensures Upload(libs, content).Ok? ==>
      var frame := Upload(libs, content).value;
      var missing := MissingColumns(ApiColumns, frame.header);
      && (missing != [] ==> r == Error(MissingMessage(missing)))
      && (missing == [] ==> Classified(model, frame, r))
  {
    var upload := Upload(libs, content);
    if upload.Err? {
      return Error(upload.msg);
    }
    var frame := upload.value;
    var missing := MissingColumns(ApiColumns, frame.header);
    if missing != [] {
      return Error(MissingMessage(missing));
    }
    r := PredictFrame(model, frame);
  }

  /** How the response to a validated frame follows from the classifier's
      answers on the cleaned features: its errors are passed on, labels and
      probabilities of any other length than the row count are refused, and
      otherwise every row comes back with its cleaned features, its label and
      its probability, together with the summary of the labels. */
  ghost predicate Classified(model: Classifier, frame: Frame, r: Response)
    requires MissingColumns(ApiColumns, frame.header) == []
  {
    OutputColumnsDistinct();
    var n := |frame.rows|;
    PreparedWellFormed(frame, ApiColumns);
    var features := RecordsOf(ApiColumns, Prepared(frame, ApiColumns), n);
    var labels, probas := model.predict(features), model.predictProba(features);
    && (labels.Err? ==> r == Error(labels.msg))
    && (labels.Ok? && probas.Err? ==> r == Error(probas.msg))
    && (labels.Ok? && probas.Ok? && |labels.value| != n ==> r == Error(LengthMismatch(|labels.value|, n)))
    && (labels.Ok? && probas.Ok? && |labels.value| == n && |probas.value| != n ==>
          r == Error(LengthMismatch(|probas.value|, n)))
    && (r.Predictions? <==> labels.Ok? && probas.Ok? && |labels.value| == n && |probas.value| == n)
    && (r.Predictions? ==>
         && r.predictions == Enriched(frame, labels.value, probas.value)
         && r.summary == Summarize(labels.value))
  }

  /** The cleaned features of every row followed by its `prediction` and its `proba`. */
  function Enriched(frame: Frame, labels: seq<int>, probas: seq<real>): (rs: seq<Record>)
    requires MissingColumns(ApiColumns, frame.header) == []
    requires |labels| == |frame.rows| && |probas| == |frame.rows|
    ensures |rs| == |frame.rows|
  {
    OutputColumnsDistinct();
    var n, prepared := |frame.rows|, Prepared(frame, ApiColumns);
    PreparedWellFormed(frame, ApiColumns);
    WellFormedAppend(ApiColumns, prepared, n, "prediction", Labels(labels));
    WellFormedAppend(ApiColumns + ["prediction"], prepared["prediction" := Labels(labels)], n, "proba", Probas(probas));
    RecordsOf(OutputColumns, prepared["prediction" := Labels(labels)]["proba" := Probas(probas)], n)
  }

  /** The features of row `i` as the classifier sees them: `margin_low`
      (cleaned), then `margin_up` and `length` as parsed. */
  lemma FeatureRecord(frame: Frame, i: nat)
    requires MissingColumns(ApiColumns, frame.header) == []
    requires i < |frame.rows|
    ensures RowOf(ApiColumns, Prepared(frame, ApiColumns), i) == [
      Field(MarginLow, Prepared(frame, ApiColumns)[MarginLow][i]),
      Field(MarginUp, Measure(Column(frame, MarginUp)[i])),
      Field(Length, Measure(Column(frame, Length)[i]))]
  {
    OutputColumnsDistinct();
    var prepared := Prepared(frame, ApiColumns);
    PreparedColumns(frame, ApiColumns);
    PreparedWellFormed(frame, ApiColumns);
    assert prepared[MarginUp] == Measures(Column(frame, MarginUp));
    assert prepared[Length] == Measures(Column(frame, Length));
    RowOfThree(MarginLow, MarginUp, Length, prepared, i);
  }

  /** Record `i` of the response holds exactly the three features of row `i`
      (`margin_low` cleaned, the other two as parsed), then its label and its
      probability. */
  lemma EnrichedRecord(frame: Frame, labels: seq<int>, probas: seq<real>, i: nat)
    requires MissingColumns(ApiColumns, frame.header) == []
    requires |labels| == |frame.rows| && |probas| == |frame.rows|
    requires i < |frame.rows|
    ensures Enriched(frame, labels, probas)[i] == [
      Field(MarginLow, Prepared(frame, ApiColumns)[MarginLow][i]),
      Field(MarginUp, Measure(Column(frame, MarginUp)[i])),
      Field(Length, Measure(Column(frame, Length)[i])),
      Field("prediction", Label(labels[i])),
      Field("proba", Proba(probas[i]))]
  {
    OutputColumnsDistinct();
    var n, prepared := |frame.rows|, Prepared(frame, ApiColumns);
    PreparedWellFormed(frame, ApiColumns);
    var withLabels := prepared["prediction" := Labels(labels)];
    var all := withLabels["proba" := Probas(probas)];
    WellFormedAppend(ApiColumns, prepared, n, "prediction", Labels(labels));
    RowOfAppend(ApiColumns, prepared, i, "prediction", Labels(labels));
    RowOfAppend(ApiColumns + ["prediction"], withLabels, i, "proba", Probas(probas));
    FeatureRecord(frame, i);
    var features := RowOf(ApiColumns, prepared, i);
    var labelled := RowOf(ApiColumns + ["prediction"], withLabels, i);
    assert labelled == features + [Field("prediction", Label(labels[i]))];
    assert Enriched(frame, labels, probas)[i] == labelled + [Field("proba", Proba(probas[i]))];
    AppendTwo(features, Field("prediction", Label(labels[i])), Field("proba", Proba(probas[i])));
  }

  /** The body of the handler once the columns are known to be present:
      `df_model` is copied, cleaned, classified and read out. */
  method PredictFrame(model: Classifier, frame: Frame) returns (r: Response)
    requires MissingColumns(ApiColumns, frame.header) == []
    ensures Classified(model, frame, r)
  {
    OutputColumnsDistinct();
    var df := new WorkingFrame.Select(frame, ApiColumns);
    var low := df.cols[MarginLow];
    var _ := df.Assign(MarginLow, FillNa(low, BatchMedian(low)));
    assert df.cols == Prepared(frame, ApiColumns);
    var features := df.Records();
    var labels := model.predict(features);
    if labels.Err? {
      return Error(labels.msg);
    }
    var probas := model.predictProba(features);
    if probas.Err? {
      return Error(probas.msg);
    }
    ghost var prepared := df.cols;
    var ok := df.Assign("prediction", Labels(labels.value));
    if !ok {
      return Error(LengthMismatch(|labels.value|, df.nrows));
    }
    assert "prediction" !in ApiColumns;
    ok := df.Assign("proba", Probas(probas.value));
    if !ok {
      return Error(LengthMismatch(|probas.value|, df.nrows));
    }
    assert "proba" !in ApiColumns + ["prediction"];
    assert df.names == OutputColumns;
    assert df.cols == prepared["prediction" := Labels(labels.value)]["proba" := Probas(probas.value)];
    r := Predictions(df.Records(), Summarize(labels.value));
  }
}
