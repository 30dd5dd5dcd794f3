/** The working frame a handler builds from the parsed upload: a copy of the
    required columns (`df[colonnes_utiles].copy()`), updated in place by column
    assignment (`df[name] = values`), and read out row by row. */
module Table {
  import opened Wrappers
  import opened Ingest
  import opened Stats

  /** A value held in a working-frame column: a measurement cell, a predicted
      label, or a probability attached by the classifier. */
  datatype Value = Measure(cell: Cell) | Label(verdict: int) | Proba(p: real)

  /** One `column: value` entry of a row record. */
  datatype Field = Field(name: string, value: Value)

  /** A row as `to_dict(orient="records")` gives it: its fields in column order. */
  type Record = seq<Field>

  const MarginLow: string := "margin_low"
  const MarginUp: string := "margin_up"
  const Length: string := "length"

  predicate Distinct(s: seq<string>)
  {
    forall i, j :: 0 <= i < j < |s| ==> s[i] != s[j]
  }

  /** Columns keyed by exactly the names, every column with one value per row. */
  ghost predicate WellFormed(names: seq<string>, cols: map<string, seq<Value>>, n: nat)
  {
    && Distinct(names)
    && (forall c :: c in cols <==> c in names)
    && (forall c :: c in cols ==> |cols[c]| == n)
  }

  function Measures(cells: seq<Cell>): (vs: seq<Value>)
    ensures |vs| == |cells|
    ensures forall i :: 0 <= i < |cells| ==> vs[i] == Measure(cells[i])
  {
    seq(|cells|, i requires 0 <= i < |cells| => Measure(cells[i]))
  }

  function Labels(labels: seq<int>): (vs: seq<Value>)
    ensures |vs| == |labels|
    ensures forall i :: 0 <= i < |labels| ==> vs[i] == Label(labels[i])
  {
    seq(|labels|, i requires 0 <= i < |labels| => Label(labels[i]))
  }

  function Probas(ps: seq<real>): (vs: seq<Value>)
    ensures |vs| == |ps|
    ensures forall i :: 0 <= i < |ps| ==> vs[i] == Proba(ps[i])
  {
    seq(|ps|, i requires 0 <= i < |ps| => Proba(ps[i]))
  }

  /** The non-missing measurements of a column, in row order. */
  function Present(col: seq<Value>): seq<real>
  {
    if col == [] then []
    else (if col[0].Measure? && col[0].cell.Some? then [col[0].cell.value] else []) + Present(col[1..])
  }

  /** The present values are the numbers of the present measurements: a value
      is among them exactly when some cell holds it, there are at most as many
      as cells, and there are none exactly when every cell is missing. */
  lemma {:induction false} PresentMembers(col: seq<Value>)
    ensures |Present(col)| <= |col|
    ensures forall x :: x in Present(col) <==> Measure(Some(x)) in col
    ensures Present(col) == [] <==> forall i :: 0 <= i < |col| ==> !col[i].Measure? || col[i].cell.None?
    decreases |col|
  {
    if col != [] {
      PresentMembers(col[1..]);
      assert col == [col[0]] + col[1..];
    }
  }

  /** The present values of one cell: its number if it is a present measurement. */
  lemma PresentOne(v: Value)
    ensures Present([v]) == if v.Measure? && v.cell.Some? then [v.cell.value] else []
  {
    assert [v][1..] == [];
  }

  /** The present values of two stretches of cells are those of the first,
      then those of the second: together with `PresentOne`, every present
      measurement is kept once, in row order, and nothing else is. */
  lemma {:induction false} PresentAppend(a: seq<Value>, b: seq<Value>)
    ensures Present(a + b) == Present(a) + Present(b)
    decreases |a|
  {
    if a == [] {
      assert a + b == b;
    } else {
      assert (a + b)[0] == a[0] && (a + b)[1..] == a[1..] + b;
      PresentAppend(a[1..], b);
    }
  }

  /** `col.median()`: pandas skips missing cells, and gives no number (NaN) when
      none is present. */
  function BatchMedian(col: seq<Value>): (med: Option<real>)
    ensures med.None? <==> Present(col) == []
    ensures med.Some? ==> med.value == Median(Present(col))
  {
    if Present(col) == [] then None else Some(Median(Present(col)))
  }

  /** `col.fillna(med)`: every missing cell takes the fill value; present cells
      and other values stay; filling with no number changes nothing. */
  function FillNa(col: seq<Value>, med: Option<real>): (r: seq<Value>)
    ensures |r| == |col|
    ensures forall i :: 0 <= i < |col| && col[i] != Measure(None) ==> r[i] == col[i]
    ensures med.Some? ==>
      forall i :: 0 <= i < |col| && col[i] == Measure(None) ==> r[i] == Measure(Some(med.value))
    ensures med.None? ==> r == col
  {
    match med
    case None => col
    case Some(m) =>
      seq(|col|, i requires 0 <= i < |col| => if col[i] == Measure(None) then Measure(Some(m)) else col[i])
  }

  /** `df[wanted]`: the named columns of the parsed frame. */
  function Selected(frame: Frame, wanted: seq<string>): (cols: map<string, seq<Value>>)
    requires forall c :: c in wanted ==> c in frame.header
    ensures forall c :: c in cols <==> c in wanted
    ensures forall c :: c in cols ==> cols[c] == Measures(Column(frame, c))
  {
    map c | c in wanted :: Measures(Column(frame, c))
  }

  /** The cleaning step: `margin_low` filled with the median of its own present cells. */
  function Imputed(cols: map<string, seq<Value>>): map<string, seq<Value>>
    requires MarginLow in cols
  {
    cols[MarginLow := FillNa(cols[MarginLow], BatchMedian(cols[MarginLow]))]
  }

  /** The features of a parsed frame after selection and cleaning. */
  function Prepared(frame: Frame, wanted: seq<string>): map<string, seq<Value>>
    requires MarginLow in wanted
    requires forall c :: c in wanted ==> c in frame.header
  {
    Imputed(Selected(frame, wanted))
  }

  /** Cleaning keeps the selected columns, and every column but `margin_low`
      is the parsed column itself. */
  lemma PreparedColumns(frame: Frame, wanted: seq<string>)
    requires MarginLow in wanted
    requires forall c :: c in wanted ==> c in frame.header
    ensures forall c :: c in Prepared(frame, wanted) <==> c in wanted
    ensures forall c :: c in wanted && c != MarginLow ==>
      Prepared(frame, wanted)[c] == Measures(Column(frame, c))
  {
  }

  /** Filling a column of measurements with its own median: every present
      cell is kept, every missing one becomes the median of the present ones,
      and none stays missing once one value is present; with none present the
      column is unchanged. */
  lemma ImputeWithMedian(col: seq<Value>)
    requires forall i :: 0 <= i < |col| ==> col[i].Measure?
    ensures |FillNa(col, BatchMedian(col))| == |col|
    ensures forall i :: 0 <= i < |col| && col[i].cell.Some? ==> FillNa(col, BatchMedian(col))[i] == col[i]
    ensures Present(col) != [] ==>
      forall i :: 0 <= i < |col| && col[i].cell.None? ==>
        FillNa(col, BatchMedian(col))[i] == Measure(Some(Median(Present(col))))
    ensures Present(col) != [] ==>
      forall i :: 0 <= i < |col| ==> FillNa(col, BatchMedian(col))[i].Measure? && FillNa(col, BatchMedian(col))[i].cell.Some?
    ensures Present(col) == [] ==> FillNa(col, BatchMedian(col)) == col
  {
    var med := BatchMedian(col);
    var r := FillNa(col, med);
    if Present(col) != [] {
      assert med == Some(Median(Present(col)));
      forall i | 0 <= i < |col| && col[i].cell.None?
        ensures r[i] == Measure(Some(Median(Present(col))))
      {
        assert col[i] == Measure(None);
      }
    }
  }

  /** The median of a column with one present value and one missing cell is
      that value. */
  lemma MedianExample()
    ensures BatchMedian([Measure(Some(3.5)), Measure(None)]) == Some(3.5)
  {
    var col := [Measure(Some(3.5)), Measure(None)];
    assert Present(col[1..]) == [];
    assert Present(col) == [3.5];
    MedianOfConstantBatch([3.5], 3.5);
  }

  /** Filling that column with its median: the missing cell takes the value. */
  lemma FillExample()
    ensures FillNa([Measure(Some(3.5)), Measure(None)], BatchMedian([Measure(Some(3.5)), Measure(None)]))
      == [Measure(Some(3.5)), Measure(Some(3.5))]
  {
    MedianExample();
  }

  /** The selected and cleaned columns form a well-formed frame. */
  lemma PreparedWellFormed(frame: Frame, wanted: seq<string>)
    requires Distinct(wanted) && MarginLow in wanted
    requires forall c :: c in wanted ==> c in frame.header
    ensures WellFormed(wanted, Prepared(frame, wanted), |frame.rows|)
  {
  }

  /** Appending a new column of the right length keeps a frame well formed. */
  lemma WellFormedAppend(names: seq<string>, cols: map<string, seq<Value>>, n: nat, name: string, vals: seq<Value>)
    requires WellFormed(names, cols, n)
    requires name !in names && |vals| == n
    ensures WellFormed(names + [name], cols[name := vals], n)
  {
  }

  /** The row of column values at position `i`, in column order. */
  function RowOf(names: seq<string>, cols: map<string, seq<Value>>, i: nat): (row: Record)
    requires forall c :: c in names ==> c in cols && i < |cols[c]|
    ensures |row| == |names|
    ensures forall j :: 0 <= j < |names| ==> row[j] == Field(names[j], cols[names[j]][i])
  {
    seq(|names|, j requires 0 <= j < |names| => Field(names[j], cols[names[j]][i]))
  }

  /** The row of a three-column frame, field by field. */
  lemma RowOfThree(a: string, b: string, c: string, cols: map<string, seq<Value>>, i: nat)
    requires a in cols && b in cols && c in cols
    requires i < |cols[a]| && i < |cols[b]| && i < |cols[c]|
    ensures RowOf([a, b, c], cols, i) == [Field(a, cols[a][i]), Field(b, cols[b][i]), Field(c, cols[c][i])]
  {
    var row := RowOf([a, b, c], cols, i);
    assert row[0] == Field(a, cols[a][i]);
    assert row[1] == Field(b, cols[b][i]);
    assert row[2] == Field(c, cols[c][i]);
  }

  /** A column appended to the frame appears as the last field of every row. */
  lemma RowOfAppend(names: seq<string>, cols: map<string, seq<Value>>, i: nat, name: string, vals: seq<Value>)
    requires forall c :: c in names ==> c in cols && i < |cols[c]|
    requires name !in names && i < |vals|
    ensures RowOf(names + [name], cols[name := vals], i) == RowOf(names, cols, i) + [Field(name, vals[i])]
  {
    var before, after := RowOf(names, cols, i), RowOf(names + [name], cols[name := vals], i);
    assert forall j :: 0 <= j < |names| ==> after[j] == before[j];
  }

  /** A three-field row with two fields appended, field by field. */
  lemma AppendTwo(row: Record, x: Field, y: Field)
    requires |row| == 3
    ensures row + [x] + [y] == [row[0], row[1], row[2], x, y]
  {
  }

  /** `to_dict(orient="records")`: one record per row, in row order. */
  function RecordsOf(names: seq<string>, cols: map<string, seq<Value>>, n: nat): (rs: seq<Record>)
    requires WellFormed(names, cols, n)
    ensures |rs| == n
    ensures forall i :: 0 <= i < n ==> rs[i] == RowOf(names, cols, i)
  {
    seq(n, i requires 0 <= i < n => RowOf(names, cols, i))
  }

  /** A working frame: the column order, the columns, the row count. */
  class WorkingFrame {
    var names: seq<string>
    var cols: map<string, seq<Value>>
    var nrows: nat

    ghost predicate Valid()
      reads this
    {
      WellFormed(names, cols, nrows)
    }

    /** `frame[wanted].copy()`. */
    constructor Select(frame: Frame, wanted: seq<string>)
      requires Distinct(wanted)
      requires forall c :: c in wanted ==> c in frame.header
      ensures Valid()
      ensures names == wanted && cols == Selected(frame, wanted) && nrows == |frame.rows|
    {
      names := wanted;
      cols := Selected(frame, wanted);
      nrows := |frame.rows|;
    }

    /** The frame's rows as records. */
    function Records(): (rs: seq<Record>)
      reads this
      requires Valid()
      ensures |rs| == nrows
    {
      RecordsOf(names, cols, nrows)
    }

    /** `self[name] = vals`: a list of the wrong length is refused (pandas
        raises); otherwise an existing column is overwritten where it stands
        and a new one is appended after the others. Pandas' re-index of a
        frame with no rows to the length of a non-empty list is not part of
        this model: such a list is refused here too. */
    method Assign(name: string, vals: seq<Value>) returns (ok: bool)
      requires Valid()
      modifies this
      ensures Valid()
      ensures ok <==> |vals| == old(nrows)
      ensures nrows == old(nrows)
      ensures ok ==> cols == old(cols)[name := vals]
      ensures ok ==> names == if name in old(names) then old(names) else old(names) + [name]
      ensures !ok ==> names == old(names) && cols == old(cols)
    {
      ok := |vals| == nrows;
      if ok {
        if name !in names {
          names := names + [name];
        }
        cols := cols[name := vals];
      }
    }
  }
}
