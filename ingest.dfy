/** Ingestion and validation of an uploaded CSV, shared by both endpoints:
    the delimiter decision, the parsed frame, the required-column check and
    the error message that reports missing columns. */
module Ingest {
  import opened Wrappers

  /** A numeric cell as the parser yields it; `None` is a missing value (NaN). */
  type Cell = Option<real>

  /** A parsed frame: the header and the rows, each a sequence of cells read
      left to right; a short row has missing cells at its end. */
  datatype Frame = Frame(header: seq<string>, rows: seq<seq<Cell>>)

  /** The field separator handed to the CSV reader: `;` as soon as the decoded
      text holds a semicolon anywhere, the reader's default `,` otherwise. */
  function Delimiter(text: string): (sep: char)
    ensures sep == ';' <==> exists i :: 0 <= i < |text| && text[i] == ';'
    ensures sep == ',' <==> forall i :: 0 <= i < |text| ==> text[i] != ';'
  {
    if ';' in text then ';' else ','
  }

  /** Position of the first element of `s` equal to `x`. */
  function FirstIndex<T(==)>(s: seq<T>, x: T): (k: nat)
    requires x in s
    ensures k < |s| && s[k] == x
    ensures forall j :: 0 <= j < k ==> s[j] != x
  {
    if s[0] == x then 0 else 1 + FirstIndex(s[1..], x)
  }

  /** The cell of `row` under header position `k`; past the end of a short row it is missing. */
  function CellAt(row: seq<Cell>, k: nat): Cell
  {
    if k < |row| then row[k] else None
  }

  /** The column `name` of the frame, one cell per row, in row order, read
      under the first header entry equal to `name` (exact comparison). */
  function Column(frame: Frame, name: string): (col: seq<Cell>)
    requires name in frame.header
    ensures |col| == |frame.rows|
    ensures forall i :: 0 <= i < |col| ==>
      col[i] == CellAt(frame.rows[i], FirstIndex(frame.header, name))
  {
    var k := FirstIndex(frame.header, name);
    seq(|frame.rows|, i requires 0 <= i < |frame.rows| => CellAt(frame.rows[i], k))
  }

  /** `xs` is obtained from `ys` by deleting some elements, keeping the order. */
  predicate IsSubsequence<T(==)>(xs: seq<T>, ys: seq<T>)
    decreases |ys|
  {
    if xs == [] then true
    else if ys == [] then false
    else if xs[0] == ys[0] then IsSubsequence(xs[1..], ys[1..])
    else IsSubsequence(xs, ys[1..])
  }

  /** `[col for col in required if col not in header]`. */
  function MissingColumns(required: seq<string>, header: seq<string>): (missing: seq<string>)
    ensures IsSubsequence(missing, required)
    ensures forall c :: c in missing <==> c in required && c !in header
    ensures missing == [] <==> forall c :: c in required ==> c in header
  {
    if required == [] then []
    else if required[0] in header then MissingColumns(required[1..], header)
    else [required[0]] + MissingColumns(required[1..], header)
  }

  /** `sep.join(items)`. */
  function Join(sep: string, items: seq<string>): string
    decreases |items|
  {
    if items == [] then ""
    else if |items| == 1 then items[0]
    else items[0] + sep + Join(sep, items[1..])
  }

  const MissingPrefix: string := "Colonnes manquantes : "

  /** The message of the missing-column error: the prefix, then the missing
      names separated by a comma and a space. */
  function MissingMessage(missing: seq<string>): string
  {
    MissingPrefix + Join(", ", missing)
  }

  /** One step of the missing list: the first required name, then the rest. */
  lemma MissingCons(a: string, rest: seq<string>, header: seq<string>)
    ensures MissingColumns([a] + rest, header) == (if a in header then [] else [a]) + MissingColumns(rest, header)
  {
    assert ([a] + rest)[0] == a && ([a] + rest)[1..] == rest;
  }

  /** The message listing two names. */
  lemma MessageOfTwo(a: string, b: string)
    ensures MissingMessage([a, b]) == MissingPrefix + a + ", " + b
  {
    assert [a, b][1..] == [b];
    assert Join(", ", [a, b]) == a + ", " + b;
  }

  /** A column name that can be told apart inside a joined list. */
  predicate PlainName(name: string)
  {
    name != [] && ',' !in name
  }

  /** Splitting at the first occurrence of a character that neither head contains. */
  lemma SplitAtFirst(a: string, b: string, a': string, b': string, c: char)
    requires c !in a && c !in a'
    requires a + [c] + b == a' + [c] + b'
    ensures a == a' && b == b'
  {
    var s := a + [c] + b;
    assert s[|a|] == c && s[|a'|] == c;
    assert forall j :: 0 <= j < |a| ==> s[j] == a[j];
    assert forall j :: 0 <= j < |a'| ==> s[j] == a'[j];
    var k := FirstIndex(s, c);
    assert k == |a| && k == |a'|;
    assert a == s[..|a|] == a';
    assert b == s[|a| + 1..] == b';
  }

  /** Regrouping a concatenation of four strings. */
  lemma SeqAssoc(a: string, b: string, c: string, d: string)
    ensures a + (b + c) + d == a + b + (c + d)
  {
  }

  /** Joining two or more names puts a comma right after the first one. */
  lemma JoinSplit(xs: seq<string>)
    requires |xs| >= 2
    ensures Join(", ", xs) == xs[0] + [','] + (" " + Join(", ", xs[1..]))
  {
    var head, rest := xs[0], Join(", ", xs[1..]);
    assert Join(", ", xs) == head + ", " + rest;
    assert ", " == [','] + " ";
    SeqAssoc(head, [','], " ", rest);
  }

  /** Joining at most one plain name gives no comma, and the empty string only
      for the empty list. */
  lemma JoinShort(xs: seq<string>)
    requires |xs| <= 1
    requires forall k :: 0 <= k < |xs| ==> PlainName(xs[k])
    ensures Join(", ", xs) == [] <==> xs == []
    ensures ',' !in Join(", ", xs)
  {
    if |xs| == 1 {
      assert Join(", ", xs) == xs[0];
    }
  }

  /** The shape of a list of plain names joined by `", "`: empty exactly for the
      empty list, holding a comma exactly when two or more names are joined. */
  lemma JoinShape(xs: seq<string>)
    requires forall k :: 0 <= k < |xs| ==> PlainName(xs[k])
    ensures Join(", ", xs) == [] <==> xs == []
    ensures ',' in Join(", ", xs) <==> |xs| >= 2
    ensures |xs| >= 2 ==> Join(", ", xs) == xs[0] + [','] + (" " + Join(", ", xs[1..]))
  {
    if |xs| >= 2 {
      JoinSplit(xs);
      var j := Join(", ", xs);
      assert j[|xs[0]|] == ',';
    } else {
      JoinShort(xs);
    }
  }

  /** A list of comma-free, non-empty names joined by `", "` can be recovered
      from the joined string. */
  lemma {:induction false} JoinInjective(xs: seq<string>, ys: seq<string>)
    requires forall k :: 0 <= k < |xs| ==> PlainName(xs[k])
    requires forall k :: 0 <= k < |ys| ==> PlainName(ys[k])
    requires Join(", ", xs) == Join(", ", ys)
    ensures xs == ys
    decreases |xs|
  {
    JoinShape(xs);
    JoinShape(ys);
    if |xs| >= 2 {
      var tx, ty := " " + Join(", ", xs[1..]), " " + Join(", ", ys[1..]);
      SplitAtFirst(xs[0], tx, ys[0], ty, ',');
      assert Join(", ", xs[1..]) == tx[1..] == ty[1..] == Join(", ", ys[1..]);
      JoinInjective(xs[1..], ys[1..]);
      assert xs == [xs[0]] + xs[1..];
      assert ys == [ys[0]] + ys[1..];
    }
  }

  /** Two missing-column errors carry the same message only when they name the
      same columns in the same order. */
  lemma MissingMessageInjective(m1: seq<string>, m2: seq<string>)
    requires forall k :: 0 <= k < |m1| ==> PlainName(m1[k])
    requires forall k :: 0 <= k < |m2| ==> PlainName(m2[k])
    requires MissingMessage(m1) == MissingMessage(m2)
    ensures m1 == m2
  {
    assert Join(", ", m1) == MissingMessage(m1)[|MissingPrefix|..];
    assert Join(", ", m2) == MissingMessage(m2)[|MissingPrefix|..];
    JoinInjective(m1, m2);
  }
}
