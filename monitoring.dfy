/** The monitoring endpoint (`POST /monitoring/`): the same upload,
    validation and cleaning as the prediction endpoint, with the required
    columns checked in another order, one `prediction` column appended, and
    the drift report of the reference batch against the current one. */
module Monitoring {
  import opened Wrappers
  import opened Ingest
  import opened Table
  import opened External

  /** The required feature columns, in the order this endpoint checks and keeps them. */
  const MonitoringColumns: seq<string> := [MarginUp, MarginLow, Length]

  /** The columns of the current batch handed to the report. */
  const CurrentColumns: seq<string> := MonitoringColumns + ["prediction"]

  /** The drift report: the reference features loaded at start-up and the
      report run on them and the current batch, ending in `as_dict()`. */
  datatype Reporter<R> = Reporter(
    reference: seq<Record>,
    run: (seq<Record>, seq<Record>) -> Result<R>)

  /** The JSON body: the report as it comes, or `{"error": msg}`. */
  datatype Outcome<R> = Report(report: R) | Error(error: string)

  lemma CurrentColumnsDistinct()
    ensures Distinct(MonitoringColumns) && MarginLow in MonitoringColumns
    ensures "prediction" !in MonitoringColumns
    ensures "prediction" != MarginLow && "prediction" != MarginUp && "prediction" != Length
    ensures Distinct(CurrentColumns)
  {
    assert MarginLow[7] != MarginUp[7] && MarginLow[0] != Length[0] && MarginUp[0] != Length[0];
    assert "prediction"[0] != MarginLow[0] && "prediction"[0] != MarginUp[0] && "prediction"[0] != Length[0];
  }

  /** The cleaned features of every row followed by its `prediction`. */
  function Current(frame: Frame, labels: seq<int>): (rs: seq<Record>)
    requires MissingColumns(MonitoringColumns, frame.header) == []
    requires |labels| == |frame.rows|
    ensures |rs| == |frame.rows|
  {
    CurrentColumnsDistinct();
    var n, prepared := |frame.rows|, Prepared(frame, MonitoringColumns);
    PreparedWellFormed(frame, MonitoringColumns);
    WellFormedAppend(MonitoringColumns, prepared, n, "prediction", Labels(labels));
    RecordsOf(CurrentColumns, prepared["prediction" := Labels(labels)], n)
  }

  /** The features of row `i` as the classifier sees them here: `margin_up`
      as parsed, `margin_low` cleaned, `length` as parsed. */
  lemma FeatureRecord(frame: Frame, i: nat)
    requires MissingColumns(MonitoringColumns, frame.header) == []
    requires i < |frame.rows|
    ensures RowOf(MonitoringColumns, Prepared(frame, MonitoringColumns), i) == [
      Field(MarginUp, Measure(Column(frame, MarginUp)[i])),
      Field(MarginLow, Prepared(frame, MonitoringColumns)[MarginLow][i]),
      Field(Length, Measure(Column(frame, Length)[i]))]
  {
    CurrentColumnsDistinct();
    var prepared := Prepared(frame, MonitoringColumns);
    PreparedColumns(frame, MonitoringColumns);
    PreparedWellFormed(frame, MonitoringColumns);
    assert prepared[MarginUp] == Measures(Column(frame, MarginUp));
    assert prepared[Length] == Measures(Column(frame, Length));
    RowOfThree(MarginUp, MarginLow, Length, prepared, i);
  }

  /** Row `i` of the current batch holds its three features in this
      endpoint's order (`margin_low` cleaned) and then its label, nothing else. */
  lemma CurrentRecord(frame: Frame, labels: seq<int>, i: nat)
    requires MissingColumns(MonitoringColumns, frame.header) == []
    requires |labels| == |frame.rows| && i < |frame.rows|
    ensures Current(frame, labels)[i] == [
      Field(MarginUp, Measure(Column(frame, MarginUp)[i])),
      Field(MarginLow, Prepared(frame, MonitoringColumns)[MarginLow][i]),
      Field(Length, Measure(Column(frame, Length)[i])),
      Field("prediction", Label(labels[i]))]
  {
    CurrentColumnsDistinct();
    var prepared := Prepared(frame, MonitoringColumns);
    PreparedWellFormed(frame, MonitoringColumns);
    RowOfAppend(MonitoringColumns, prepared, i, "prediction", Labels(labels));
    FeatureRecord(frame, i);
  }

  /** How the outcome for a validated frame follows from the classifier and
      the report: the classifier's error is passed on, labels of any other
      length than the row count are refused, and otherwise the report of the
      reference batch against the labelled current batch is the answer, or
      its error. */
  ghost predicate Reported<R>(model: Classifier, reporter: Reporter<R>, frame: Frame, r: Outcome<R>)
    requires MissingColumns(MonitoringColumns, frame.header) == []
  {
    CurrentColumnsDistinct();
    var n := |frame.rows|;
    PreparedWellFormed(frame, MonitoringColumns);
    var features := RecordsOf(MonitoringColumns, Prepared(frame, MonitoringColumns), n);
    var labels := model.predict(features);
    && (labels.Err? ==> r == Error(labels.msg))
    && (labels.Ok? && |labels.value| != n ==> r == Error(LengthMismatch(|labels.value|, n)))
    && (labels.Ok? && |labels.value| == n ==>
         match reporter.run(reporter.reference, Current(frame, labels.value))
         case Ok(report) => r == Report(report)
         case Err(e) => r == Error(e))
  }

  /** `POST /monitoring/`. A failure in decoding, parsing, validation,
      prediction or reporting gives the error form; a missing column is
      reported before the classifier or the report is used. */
  method Monitor<R>(libs: Libraries, model: Classifier, reporter: Reporter<R>, content: seq<byte>)
      returns (r: Outcome<R>)
    ensures Upload(libs, content).Err? ==> r == Error(Upload(libs, content).msg)
    ensures Upload(libs, content).Ok? ==>
      var frame := Upload(libs, content).value;
      var missing := MissingColumns(MonitoringColumns, frame.header);
      && (missing != [] ==> r == Error(MissingMessage(missing)))
      && (missing == [] ==> Reported(model, reporter, frame, r))
  {
    var upload := Upload(libs, content);
    if upload.Err? {
      return Error(upload.msg);
    }
    var frame := upload.value;
    var missing := MissingColumns(MonitoringColumns, frame.header);
    if missing != [] {
      return Error(MissingMessage(missing));
    }
    r := MonitorFrame(model, reporter, frame);
  }

  /** The body of the handler once the columns are known to be present:
      `current_features` is copied, cleaned, labelled and reported on. */
  method MonitorFrame<R>(model: Classifier, reporter: Reporter<R>, frame: Frame) returns (r: Outcome<R>)
    requires MissingColumns(MonitoringColumns, frame.header) == []
    ensures Reported(model, reporter, frame, r)
  {
    CurrentColumnsDistinct();
    var current := new WorkingFrame.Select(frame, MonitoringColumns);
    var low := current.cols[MarginLow];
    var _ := current.Assign(MarginLow, FillNa(low, BatchMedian(low)));
    assert current.cols == Prepared(frame, MonitoringColumns);
    var labels := model.predict(current.Records());
    if labels.Err? {
      return Error(labels.msg);
    }
    var ok := current.Assign("prediction", Labels(labels.value));
    if !ok {
      return Error(LengthMismatch(|labels.value|, current.nrows));
    }
    assert current.names == CurrentColumns;
    var report := reporter.run(reporter.reference, current.Records());
    match report
    case Ok(value) => r := Report(value);
    case Err(e) => r := Error(e);
  }

  /** A header holding only `length` is answered in this endpoint's order,
      `margin_up` before `margin_low` (the prediction endpoint puts
      `margin_low` first). */
  lemma MissingMarginsExample()
    ensures MissingMessage(MissingColumns(MonitoringColumns, [Length]))
         == MissingPrefix + MarginUp + ", " + MarginLow
  {
    assert MarginLow !in [Length] && MarginUp !in [Length];
    MissingCons(Length, [], [Length]);
    MissingCons(MarginLow, [Length], [Length]);
    MissingCons(MarginUp, [MarginLow, Length], [Length]);
    assert [Length] + [] == [Length] && [MarginLow] + [Length] == [MarginLow, Length];
    assert [MarginUp] + [MarginLow, Length] == MonitoringColumns;
    assert MissingColumns(MonitoringColumns, [Length]) == [MarginUp, MarginLow];
    MessageOfTwo(MarginUp, MarginLow);
  }
}
