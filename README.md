# Counterfeit-banknote detection API: the request pipeline

This project models, in Dafny, the request pipeline shared by the two HTTP
handlers of the banknote service: `predict` (`POST /prediction/`, `api.py`)
and `monitoring` (`POST /monitoring/`, `monitoring.py`). Both handlers take
an uploaded CSV file and do the same steps:

1. decode the text and pick the field delimiter: `;` if the text contains a
   semicolon anywhere, `,` otherwise;
2. check that the three required columns `margin_low`, `margin_up` and
   `length` are in the header, and answer
   `"Colonnes manquantes : " + ", ".join(missing)` when some are absent;
3. copy those three columns into a working frame, and fill each missing
   `margin_low` cell with the median of the `margin_low` values present in
   the same batch;
4. run the pre-trained classifier and attach its output as new columns.

After that, the prediction endpoint returns the records and a summary of the
labels. The monitoring endpoint returns a drift report. Any failure gives
`{"error": msg}`.

Layout, one module per component:

- `wrappers.dfy`, module `Wrappers`: `Option` and `Result`. `Result` carries
  the message of the exception a step would raise.
- `ingest.dfy`, module `Ingest`: the parsed frame (a header plus rows of
  optional real cells), the delimiter rule, column lookup, the missing-column
  list, `Join`, and the error message. It also proves that the message
  identifies the missing columns.
- `stats.dfy`, module `Stats`: insertion sort and the median on exact reals,
  with the proof that the median splits the batch in half.
- `table.dfy`, module `Table`: the working frame `WorkingFrame`, a class whose
  column store is updated in place by column assignment (`df[name] = values`,
  with pandas' length check). It also holds `fillna`, the batch median, the
  cleaning step and the conversion to records.
- `external.dfy`, module `External`: the collaborators. These are the UTF-8
  decoder, the CSV reader and the classifier, each given as a total function
  value that returns a result or an error. `Upload` is the decode, delimiter
  and parse step.
- `api.dfy`, module `Api`: the prediction handler (`Predict`, `PredictFrame`),
  the label counts and the summary.
- `monitoring.dfy`, module `Monitoring`: the monitoring handler (`Monitor`,
  `MonitorFrame`). The report is an opaque function value.

Each handler is split into two methods. `Predict` and `Monitor` cover the
upload and the column check. `PredictFrame` and `MonitorFrame` cover the rest
of the `try` block. The predicates `Api.Classified` and
`Monitoring.Reported` state what the second half answers, in terms of the
cleaned features (`Table.Prepared`) and the collaborators' answers.

Notes on the code:

- The delimiter is `;` or the reader's default `,`. The code does no
  content-based sniffing.
- `total` is `len(predictions)`. It is not `vrai_billet + faux_billet`.
  `Api.SummaryAccounts` shows that the two are equal exactly when every label
  is 0 or 1.
- Column names are matched exactly in both handlers. Neither handler
  normalises case or whitespace.

## Model

| member | source | states |
|---|---|---|
| `Ingest.Delimiter` | api.py:18-21 | the separator is `;` exactly when some character of the decoded text is `;`, and `,` exactly when none is (identical rule at monitoring.py:25-28) |
| `Ingest.Column` | api.py:31 | a column of the parsed frame has one cell per row, the cell under the first header entry with that exact name (missing past the end of a short row) |
| `Ingest.MissingColumns` | api.py:24-25 | the missing list is a subsequence of the required list (order kept); a name is in it exactly when it is required and not in the header; it is empty exactly when every required name is in the header |
| `Ingest.MissingCons` | api.py:25 | the required names are visited in order: the first one is listed exactly when the header lacks it, and the list for the remaining names follows |
| `Ingest.JoinInjective` | api.py:28 | lists of non-empty, comma-free names joined by `", "` give equal strings only when the lists are equal |
| `Ingest.MissingMessageInjective` | api.py:28 | two missing-column messages `"Colonnes manquantes : " + ", ".join(missing)` are equal only when they list the same columns in the same order |
| `Stats.Sort` | api.py:32 | the sorted present values are in non-decreasing order and are a permutation of the input |
| `Stats.InsertSorted` | api.py:32 | placing a value into a sorted batch keeps it sorted |
| `Stats.InsertCounts` | api.py:32 | placing a value into a batch adds exactly that value, keeping all the others |
| `Stats.MedianSplitsBatch` | api.py:32 | the median (middle value for an odd count, mean of the two middle values for an even one) has at least half of the batch at or below it and at least half at or above it |
| `Stats.MedianWithinBatch` | api.py:32 | the median lies between a value of the batch below it and a value of the batch above it |
| `Stats.MedianOfConstantBatch` | api.py:32 | a batch of equal values has that value as its median |
| `Table.PresentMembers` | api.py:32 | a number is among the present values exactly when some cell of the column holds it; there are at most as many as cells, and none exactly when every cell is missing |
| `Table.PresentOne` | api.py:32 | one cell contributes its number when it is a present measurement, and nothing otherwise |
| `Table.PresentAppend` | api.py:32 | the present values of two stretches of cells are those of the first followed by those of the second, so each present cell gives its number once, in row order |
| `Table.BatchMedian` | api.py:32 | `median()` gives no number exactly when no value is present, and otherwise the median of the present values |
| `Table.FillNa` | api.py:32 | `fillna` keeps the column length and every present cell; with a number it fills every missing cell with it; with no number it changes nothing |
| `Table.Selected` | api.py:31 | `df[colonnes_utiles]` holds exactly the required columns, each with the parsed cells of that column |
| `Table.PreparedColumns` | api.py:31-32 | after cleaning, the frame has exactly the selected columns, and `margin_up` and `length` are the parsed columns unchanged |
| `Table.ImputeWithMedian` | api.py:32 | filling `margin_low` with its batch median keeps every present cell, sets every missing cell to the median of the present ones, leaves no missing cell once one value is present, and changes nothing when none is |
| `Table.MedianExample` | api.py:32 | a `margin_low` column holding 3.5 and one missing cell has the median 3.5 |
| `Table.FillExample` | api.py:32 | filling that column with its median gives 3.5 in both cells |
| `Table.RecordsOf` | api.py:50 | `to_dict(orient="records")` gives one record per row in row order, each with the frame's columns in column order |
| `Table.RowOfAppend` | api.py:38-39 | after a new column is appended, each row is the old row followed by one field holding that row's new value |
| `Table.WorkingFrame.Select` | api.py:31 | the copy has the wanted columns in the wanted order and one row per parsed row |
| `Table.WorkingFrame.Assign` | api.py:38-39 | assigning a column succeeds exactly when the values match the row count (pandas' re-index of a frame with no rows is left out); an existing column is overwritten in place, a new one is appended last, and a refused assignment changes nothing |
| `Api.Count` | api.py:42-44 | the count of a label is at most the number of labels, zero exactly when the label does not occur, and the total exactly when every label is that one |
| `Api.CountIsMultiplicity` | api.py:42-44 | the count of a label is the number of times it occurs among the predictions |
| `Api.SummaryAccounts` | api.py:42-47 | `vrai_billet` counts the labels 0, `faux_billet` counts the labels 1, `total` is the number of predictions; the two buckets never exceed the total and fill it exactly when every label is 0 or 1 |
| `Api.Predict` | api.py:12-55 | a decode or parse failure is the error with its message; a missing column is the error `"Colonnes manquantes : …"` whatever the classifier is; otherwise the answer is the one `Classified` describes, so the result is always either the full payload or an error, never partial |
| `Api.PredictFrame` | api.py:31-52 | classifier errors are passed on; labels or probabilities whose count differs from the row count give pandas' length error (the re-index of a frame with no rows is left out); otherwise every row comes back with its cleaned features, its label and its probability, with the summary of the labels |
| `Api.Enriched` | api.py:38-39 | the returned record list has one record per input row |
| `Api.FeatureRecord` | api.py:31-35 | the record of row `i` that the classifier receives holds exactly `margin_low` (cleaned), `margin_up` and `length` as parsed, in that order |
| `Api.EnrichedRecord` | api.py:31-50 | record `i` holds exactly `margin_low` (cleaned), `margin_up`, `length` of row `i`, then `prediction` and `proba`, in that order |
| `Api.MissingErrorNamesColumns` | api.py:24-28 | two headers give the same missing-column message only when they lack the same required columns |
| `Api.MissingLengthExample` | api.py:24-28 | any header that has `margin_low` and `margin_up` but lacks `length` gets `"Colonnes manquantes : length"` |
| `Api.MissingMarginsExample` | api.py:24-28 | a header holding only `length` gets `"Colonnes manquantes : margin_low, margin_up"` |
| `Api.ImputationExample` | api.py:31-32 | in the two-row batch where the second `margin_low` is missing, both cleaned `margin_low` cells are 3.5 |
| `Monitoring.Monitor` | monitoring.py:19-58 | a decode or parse failure is the error with its message; a missing column (checked in the order `margin_up`, `margin_low`, `length`) is the missing-column error, and neither the classifier nor the report is used for it; otherwise the answer is the one `Reported` describes |
| `Monitoring.MonitorFrame` | monitoring.py:38-55 | a classifier error is passed on; labels whose count differs from the row count give pandas' length error (the re-index of a frame with no rows is left out); otherwise the answer is the report of the reference batch against the labelled current batch, or the report's error |
| `Monitoring.Current` | monitoring.py:42-43 | the current batch has one record per input row |
| `Monitoring.FeatureRecord` | monitoring.py:38-42 | the record of row `i` that the classifier receives holds exactly `margin_up` as parsed, `margin_low` (cleaned) and `length` as parsed, in that order |
| `Monitoring.CurrentRecord` | monitoring.py:38-43 | record `i` of the current batch holds exactly `margin_up`, `margin_low` (cleaned), `length` of row `i`, then its `prediction`, nothing else |
| `Monitoring.MissingMarginsExample` | monitoring.py:31-35 | a header holding only `length` gets `"Colonnes manquantes : margin_up, margin_low"`, the reverse of the prediction endpoint's order |

## Left out

- The async file read is abstracted to its bytes: the handlers take the
  uploaded content as the parameter `content`, and a failing read has no
  error path here. UTF-8 decoding and CSV parsing are library calls. They are
  the function values in `External.Libraries`, which return text or a frame,
  or an error message. Only the delimiter decision is modelled.
- FastAPI routing, multipart handling and HTTP status codes are not modelled.
  The handlers return the JSON body as a datatype.
- The pickled classifier (`joblib.load`, `predict`, `predict_proba(...)[:, 1]`)
  is a foreign artifact. It is the pair of function values in
  `External.Classifier`. Its output length is left open. On a frame with at
  least one row, a mismatch takes pandas' length-error path; a frame with no
  rows is the exception described in the next three lines.
- Table.WorkingFrame.Assign: pandas' re-index of a frame with no rows is not
  modelled. Assigning a non-empty list to such a frame makes pandas grow it to
  the list's length, with missing values in the other columns, and then
  accept the list. The model refuses it with the length error and leaves the
  frame unchanged, so its contract promises less than pandas for that case.
- Api.PredictFrame: for a header-only upload and a classifier that answers
  with labels and probabilities for rows that do not exist, the source builds
  those rows at api.py:38-39 and answers with them; the model (through
  `Api.Classified`) answers with the length error. The same holds for
  `Api.Predict`. The pickled pipeline itself refuses an empty input.
- Monitoring.MonitorFrame: likewise, for a header-only upload and non-empty
  labels, the source grows the frame at monitoring.py:43 and runs the report;
  the model (through `Monitoring.Reported`) answers with the length error.
  The same holds for `Monitoring.Monitor`.
- Api.PredictFrame: attaches the probabilities as the classifier returns them,
  without `round(p, 2)`, because that is floating-point rounding. The same
  holds for `Api.Predict` and `Api.Enriched`.
- The Evidently report (presets, `run`, `as_dict`) is an external drift
  library. It is the function value in `Monitoring.Reporter`.
- The reference CSV loaded at start-up is the opaque `reference` records of
  `Monitoring.Reporter`. Loading the model and the reference at import time
  happens outside any `try` block and is not modelled.
- Api.Predict: the fact that the classifier is never called on a
  missing-column error is stated as an answer that does not depend on the
  classifier. Calls are not traced.
- Cells are `Option<real>`. Non-numeric cells, pandas dtypes, the `TypeError`
  that `median()` raises on text, the renaming of duplicate header names by
  the reader, and NaN in `margin_up` or `length` (left to the classifier) are
  not modelled.
- `value_counts()` is modelled as counting integer labels equal to 0 and to 1.
  Labels of other types (booleans, strings) are not modelled.
- The median is computed on exact reals, not on floating point.
- `streamlit.py` is the dashboard (UI rendering, HTTP requests, plotting). It
  is not part of this model.
