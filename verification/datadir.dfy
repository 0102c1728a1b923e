/** Row normalisation of OpenDocument spreadsheets, and name resolution in a data directory.

A spreadsheet cell is its text and its optional `number-columns-repeated` count; a row
is its cells and its optional `number-rows-repeated` count. An absent (or empty)
count means one copy.
 */
module DataDir {
  import opened Wrappers
  import Seqs
  import Paths

  /** `_real_len(seq, pred)`: one past the last index where `pred` holds, 0 if none. */
  function RealLen<T>(s: seq<T>, pred: T -> bool): (n: nat)
    ensures n <= |s|
    ensures forall i :: n <= i < |s| ==> !pred(s[i])
    ensures n > 0 ==> pred(s[n - 1])
  {
    if |s| == 0 then 0
    else if pred(s[|s| - 1]) then |s|
    else RealLen(s[..|s| - 1], pred)
  }

  /** `_pad_list(li, length)` */
  function PadList(li: seq<string>, length: int): (r: seq<string>)
    ensures |li| >= length ==> r == li
    ensures |li| < length ==> |r| == length
    ensures r[..|li|] == li
    ensures forall i :: |li| <= i < |r| ==> r[i] == ""
  {
    if |li| >= length then li else li + Seqs.Repeat("", length - |li|)
  }

  /** `int(attr or '1')` for a parsed repeat attribute. */
  function Count(repeated: Option<int>): int {
    repeated.GetOr(1)
  }

  /** `[y for x, n in pairs for y in repeat(x, n)]`: each value `n` times, in order;
      a count `<= 0` contributes nothing. */
  function Expand<T>(pairs: seq<(T, int)>): seq<T> {
    if |pairs| == 0 then [] else Seqs.Repeat(pairs[0].0, pairs[0].1) + Expand(pairs[1..])
  }

  function Copies(n: int): nat {
    if n <= 0 then 0 else n
  }

  function TotalCopies<T>(pairs: seq<(T, int)>): nat {
    if |pairs| == 0 then 0 else Copies(pairs[0].1) + TotalCopies(pairs[1..])
  }

  lemma {:induction false} ExpandLength<T>(pairs: seq<(T, int)>)
    ensures |Expand(pairs)| == TotalCopies(pairs)
  {
    if |pairs| > 0 {
      ExpandLength(pairs[1..]);
    }
  }

  lemma {:induction false} ExpandAppend<T>(a: seq<(T, int)>, b: seq<(T, int)>)
    ensures Expand(a + b) == Expand(a) + Expand(b)
  {
    if |a| == 0 {
      assert a + b == b;
    } else {
      assert (a + b)[1..] == a[1..] + b;
      ExpandAppend(a[1..], b);
    }
  }

  /** Expansion keeps the order of the pairs: the copies of the pair at position `k`
      form one consecutive block, after the copies of all earlier pairs. */
  lemma ExpandBlock<T>(pairs: seq<(T, int)>, k: nat)
    requires k < |pairs|
    ensures TotalCopies(pairs[..k]) + Copies(pairs[k].1) <= |Expand(pairs)|
    ensures Expand(pairs)[TotalCopies(pairs[..k])..TotalCopies(pairs[..k]) + Copies(pairs[k].1)]
            == Seqs.Repeat(pairs[k].0, pairs[k].1)
  {
    var a, b := pairs[..k], pairs[k + 1..];
    assert pairs == a + [pairs[k]] + b;
    ExpandAppend(a + [pairs[k]], b);
    ExpandAppend(a, [pairs[k]]);
    ExpandLength(a);
    assert Expand([pairs[k]]) == Seqs.Repeat(pairs[k].0, pairs[k].1) by {
      assert [pairs[k]][1..] == [];
    }
  }

  /** An element of the expansion comes from a pair with a positive count. */
  lemma {:induction false} ExpandMembers<T>(pairs: seq<(T, int)>, x: T)
    ensures x in Expand(pairs) <==> exists k :: 0 <= k < |pairs| && pairs[k].0 == x && pairs[k].1 > 0
  {
    if |pairs| > 0 {
      ExpandMembers(pairs[1..], x);
      if x in Expand(pairs[1..]) {
        var k :| 0 <= k < |pairs[1..]| && pairs[1..][k].0 == x && pairs[1..][k].1 > 0;
        assert pairs[k + 1].0 == x && pairs[k + 1].1 > 0;
      }
      if exists k :: 0 <= k < |pairs| && pairs[k].0 == x && pairs[k].1 > 0 {
        var k :| 0 <= k < |pairs| && pairs[k].0 == x && pairs[k].1 > 0;
        if k > 0 {
          assert pairs[1..][k - 1] == pairs[k];
        } else {
          assert Seqs.Repeat(x, pairs[0].1)[0] == x;
        }
      }
    }
  }

  datatype Cell = Cell(text: string, columnsRepeated: Option<int>)

  predicate CellHasText(c: Cell) { c.text != "" }

  function CellPairs(cells: seq<Cell>): (r: seq<(string, int)>)
    ensures |r| == |cells|
    ensures forall i :: 0 <= i < |cells| ==> r[i] == (cells[i].text, Count(cells[i].columnsRepeated))
  {
    seq(|cells|, i requires 0 <= i < |cells| => (cells[i].text, Count(cells[i].columnsRepeated)))
  }

  /** `_ods_cells(row)`: trailing empty cells are dropped, the others expanded. */
  function OdsCells(cells: seq<Cell>): seq<string> {
    Expand(CellPairs(cells[..RealLen(cells, CellHasText)]))
  }

  /** A row whose cells end in text is expanded cell by cell. */
  lemma OdsCellsKeepsAll(cells: seq<Cell>)
    requires |cells| > 0 && CellHasText(cells[|cells| - 1])
    ensures OdsCells(cells) == Expand(CellPairs(cells))
  {
    assert cells[..|cells|] == cells;
  }

  /** An empty cell at the end of a row changes nothing, however often it is repeated. */
  lemma OdsCellsIgnoresTrailingEmpty(cells: seq<Cell>, repeated: Option<int>)
    ensures OdsCells(cells + [Cell("", repeated)]) == OdsCells(cells)
  {
    var ext := cells + [Cell("", repeated)];
    assert ext[..|cells|] == cells;
    var n := RealLen(cells, CellHasText);
    assert RealLen(ext, CellHasText) == n;
    assert ext[..n] == cells[..n];
  }

  /** The cells of an expanded row, in order: the text of cell `k` fills one block. */
  lemma OdsCellsBlock(cells: seq<Cell>, k: nat)
    requires k < |cells| && CellHasText(cells[|cells| - 1])
    ensures var pairs := CellPairs(cells);
            var start := TotalCopies(pairs[..k]);
            start + Copies(Count(cells[k].columnsRepeated)) <= |OdsCells(cells)| &&
            OdsCells(cells)[start..start + Copies(Count(cells[k].columnsRepeated))]
            == Seqs.Repeat(cells[k].text, Count(cells[k].columnsRepeated))
  {
    OdsCellsKeepsAll(cells);
    ExpandBlock(CellPairs(cells), k);
  }

  datatype Row = Row(cells: seq<Cell>, rowsRepeated: Option<int>)

  function Width(rows: seq<seq<string>>): (m: nat)
    ensures forall i :: 0 <= i < |rows| ==> |rows[i]| <= m
    ensures |rows| > 0 ==> exists i :: 0 <= i < |rows| && |rows[i]| == m
  {
    if |rows| == 0 then 0
    else
      var m := Width(rows[1..]);
      assert forall i :: 1 <= i < |rows| ==> rows[i] == rows[1..][i - 1];
      if |rows[0]| >= m then |rows[0]|
      else
        assert exists i :: 0 <= i < |rows[1..]| && |rows[1..][i]| == m;
        var i :| 0 <= i < |rows[1..]| && |rows[1..][i]| == m;
        assert rows[i + 1] == rows[1..][i];
        m
  }

  function RowValues(rows: seq<Row>): (r: seq<seq<string>>)
    ensures |r| == |rows|
    ensures forall i :: 0 <= i < |rows| ==> r[i] == OdsCells(rows[i].cells)
  {
    seq(|rows|, i requires 0 <= i < |rows| => OdsCells(rows[i].cells))
  }

  function RowCounts(rows: seq<Row>): (r: seq<int>)
    ensures |r| == |rows|
    ensures forall i :: 0 <= i < |rows| ==> r[i] == Count(rows[i].rowsRepeated)
  {
    seq(|rows|, i requires 0 <= i < |rows| => Count(rows[i].rowsRepeated))
  }

  /** Each row padded to `width`, paired with its repeat count. */
  function Padded(values: seq<seq<string>>, counts: seq<int>, width: nat): (r: seq<(seq<string>, int)>)
    requires |values| == |counts|
    ensures |r| == |values|
    ensures forall i :: 0 <= i < |values| ==> r[i] == (PadList(values[i], width), counts[i])
  {
    seq(|values|, i requires 0 <= i < |values| => (PadList(values[i], width), counts[i]))
  }

  predicate NonEmptyRow(r: seq<string>) { |r| > 0 }

  /** The rows up to the last non-empty one, padded to the widest row and expanded. */
  function Normalise(values: seq<seq<string>>, counts: seq<int>): (r: seq<seq<string>>)
    requires |values| == |counts|
    ensures forall i :: 0 <= i < |r| ==> |r[i]| == Width(values)
  {
    var width := Width(values);
    var n := RealLen(values, NonEmptyRow);
    var pairs := Padded(values[..n], counts[..n], width);
    var out := Expand(pairs);
    assert forall i :: 0 <= i < |out| ==> |out[i]| == width by {
      forall i | 0 <= i < |out| ensures |out[i]| == width {
        ExpandMembers(pairs, out[i]);
        var k :| 0 <= k < n && pairs[k].0 == out[i] && pairs[k].1 > 0;
        assert values[..n][k] == values[k];
      }
    }
    out
  }

  /** `_ods_to_list(table)`: rows padded to the widest row, trailing empty rows dropped,
      the rest expanded by their repeat counts. `max()` of no rows raises ValueError. */
  function OdsToList(rows: seq<Row>): (r: Result<seq<seq<string>>>)
    ensures r.Failure? <==> |rows| == 0
    ensures r.Failure? ==> r.error.ValueError?
    ensures r.Success? ==> forall i :: 0 <= i < |r.value| ==> |r.value[i]| == Width(RowValues(rows))
  {
    if |rows| == 0 then Failure(ValueError("max() arg is an empty sequence"))
    else Success(Normalise(RowValues(rows), RowCounts(rows)))
  }

  /** A table whose last row has cells is expanded row by row, interior empty rows included. */
  lemma OdsToListKeepsInteriorRows(rows: seq<Row>)
    requires |rows| > 0 && |OdsCells(rows[|rows| - 1].cells)| > 0
    ensures var values := RowValues(rows);
            OdsToList(rows) == Success(Expand(Padded(values, RowCounts(rows), Width(values))))
  {
    var values := RowValues(rows);
    assert RealLen(values, NonEmptyRow) == |rows|;
    assert values[..|rows|] == values;
    assert RowCounts(rows)[..|rows|] == RowCounts(rows);
  }

  /** An empty row appended after a non-empty table changes nothing, however often it repeats. */
  lemma OdsToListIgnoresTrailingEmptyRow(rows: seq<Row>, cells: seq<Cell>, repeated: Option<int>)
    requires |rows| > 0 && OdsCells(cells) == []
    ensures OdsToList(rows + [Row(cells, repeated)]) == OdsToList(rows)
  {
    var row := Row(cells, repeated);
    RowValuesAppend(rows, row);
    RowCountsAppend(rows, row);
    NormaliseIgnoresTrailingEmpty(RowValues(rows), RowCounts(rows), Count(repeated));
  }

  lemma NormaliseIgnoresTrailingEmpty(v: seq<seq<string>>, c: seq<int>, k: int)
    requires |v| == |c| && |v| > 0
    ensures Normalise(v + [[]], c + [k]) == Normalise(v, c)
  {
    WidthAppendEmpty(v);
    RealLenAppendFalse(v, [], NonEmptyRow);
    var n := RealLen(v, NonEmptyRow);
    assert (v + [[]])[..n] == v[..n];
    assert (c + [k])[..n] == c[..n];
  }

  lemma RowValuesAppend(rows: seq<Row>, row: Row)
    ensures RowValues(rows + [row]) == RowValues(rows) + [OdsCells(row.cells)]
  {
    var ext := rows + [row];
    forall i | 0 <= i < |rows| ensures RowValues(ext)[i] == RowValues(rows)[i] {
      assert ext[i] == rows[i];
    }
  }

  lemma RowCountsAppend(rows: seq<Row>, row: Row)
    ensures RowCounts(rows + [row]) == RowCounts(rows) + [Count(row.rowsRepeated)]
  {
    var ext := rows + [row];
    forall i | 0 <= i < |rows| ensures RowCounts(ext)[i] == RowCounts(rows)[i] {
      assert ext[i] == rows[i];
    }
  }

  lemma WidthAppendEmpty(v: seq<seq<string>>)
    requires |v| > 0
    ensures Width(v + [[]]) == Width(v)
  {
    var ve := v + [[]];
    var w := Width(v);
    var i :| 0 <= i < |v| && |v[i]| == w;
    assert |ve[i]| == w;
    forall j | 0 <= j < |ve| ensures |ve[j]| <= w {
      if j < |v| { assert ve[j] == v[j]; }
    }
    WidthIsMax(ve, w);
  }

  lemma RealLenAppendFalse<T>(s: seq<T>, x: T, pred: T -> bool)
    requires !pred(x)
    ensures RealLen(s + [x], pred) == RealLen(s, pred)
  {
    assert (s + [x])[..|s|] == s;
  }

  lemma WidthIsMax(rows: seq<seq<string>>, w: nat)
    requires forall j :: 0 <= j < |rows| ==> |rows[j]| <= w
    requires exists j :: 0 <= j < |rows| && |rows[j]| == w
    ensures Width(rows) == w
  {
    var j :| 0 <= j < |rows| && |rows[j]| == w;
    var i :| 0 <= i < |rows| && |rows[i]| == Width(rows);
  }

  /** Each kept row occurs `number-rows-repeated` times in a row, after the copies of
      the rows before it. */
  lemma OdsToListRowBlock(rows: seq<Row>, k: nat)
    requires k < |rows| && |OdsCells(rows[|rows| - 1].cells)| > 0
    ensures var values := RowValues(rows);
            var width := Width(values);
            var pairs := Padded(values, RowCounts(rows), width);
            var start := TotalCopies(pairs[..k]);
            var out := OdsToList(rows).value;
            start + Copies(Count(rows[k].rowsRepeated)) <= |out| &&
            out[start..start + Copies(Count(rows[k].rowsRepeated))]
            == Seqs.Repeat(PadList(values[k], width), RowCounts(rows)[k])
  {
    OdsToListKeepsInteriorRows(rows);
    var values := RowValues(rows);
    ExpandBlock(Padded(values, RowCounts(rows), Width(values)), k);
  }

  /** An argument naming a file: a string or a path value. */
  datatype FileArg = Name(name: string) | PathValue(path: Paths.Path)

  /** `DataDir._path(fname)`: a string without `/` names a file inside the data
      directory; anything else is taken as a path as it is. */
  function ResolvePath(dir: Paths.Path, fname: FileArg): (r: Paths.Path)
    ensures fname.PathValue? ==> r == fname.path
    ensures fname.Name? && '/' in fname.name ==> r == Paths.Parse(fname.name)
    ensures fname.Name? && Paths.IsPart(fname.name) ==> Paths.Parent(r) == dir && Paths.Name(r) == fname.name
  {
    match fname
    case Name(s) =>
      if '/' !in s then
        (if Paths.IsPart(s) then Paths.ChildOfPart(dir, s); Paths.Child(dir, s) else Paths.Child(dir, s))
      else Paths.Parse(s)
    case PathValue(p) => p
  }
}
