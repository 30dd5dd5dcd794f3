/** The collaborators the handlers call but whose code is not part of this
    model: the UTF-8 decoder, the CSV reader and the pre-trained classifier.
    Each is a total function that either answers or fails with the message of
    the exception it would raise; they are loaded once and never change. */
module External {
  import opened Wrappers
  import opened Ingest
  import opened Table

  newtype byte = x: int | 0 <= x < 256

  /** `bytes.decode("utf-8")` and `pd.read_csv(StringIO(text), sep=sep)`. */
  datatype Libraries = Libraries(
    decode: seq<byte> -> Result<string>,
    readCsv: (string, char) -> Result<Frame>)

  /** The pickled pipeline: `predict` gives one label per row, `predictProba`
      the probability of class 1 per row (`predict_proba(X)[:, 1]`). Their row
      counts are left open; a mismatch is caught when the column is attached. */
  datatype Classifier = Classifier(
    predict: seq<Record> -> Result<seq<int>>,
    predictProba: seq<Record> -> Result<seq<real>>)

  /** Read the upload: decode it, choose the delimiter from the text, parse. */
  function Upload(libs: Libraries, content: seq<byte>): Result<Frame>
  {
    match libs.decode(content)
    case Err(e) => Err(e)
    case Ok(text) => libs.readCsv(text, Delimiter(text))
  }

  /** Decimal digits of a natural number. */
  function NatToString(n: nat): string
  {
    var d := ["0", "1", "2", "3", "4", "5", "6", "7", "8", "9"][n % 10];
    if n < 10 then d else NatToString(n / 10) + d
  }

  /** The message pandas raises when a column of the wrong length is assigned. */
  function LengthMismatch(values: nat, index: nat): string
  {
    "Length of values (" + NatToString(values) + ") does not match length of index (" + NatToString(index) + ")"
  }
}
