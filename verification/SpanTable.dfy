/**
  The row-span table of the HTML report (html_result_generator.py, `build_span_table` and `get_cell`).
 */
module SpanTables {
  import opened Results
  import opened Arithmetic

  type Record<Field(==), Value(==)> = map<Field, Value>

  /** Every record has every field that is looked up. */
  predicate Complete<F(==), V(==)>(fields: seq<F>, records: seq<Record<F, V>>) {
    forall i, j :: 0 <= i < |records| && 0 <= j < |fields| ==> fields[j] in records[i]
  }

  predicate SameValue<F(==), V(==)>(fields: seq<F>, records: seq<Record<F, V>>, i: nat, j: nat)
    requires Complete(fields, records) && 0 < i < |records| && j < |fields|
  {
    records[i - 1][fields[j]] == records[i][fields[j]]
  }

  /** Rows `i - 1` and `i` agree on the fields up to and including `j`. */
  predicate Agree<F(==), V(==)>(fields: seq<F>, records: seq<Record<F, V>>, i: nat, j: nat)
    requires Complete(fields, records) && i < |records| && j < |fields|
  {
    i > 0 && forall c :: 0 <= c <= j ==> SameValue(fields, records, i, c)
  }

  /** How many rows from `i` on agree with each other on the fields up to `j`. */
  function RunLength<F(==), V(==)>(fields: seq<F>, records: seq<Record<F, V>>, i: nat, j: nat): (n: nat)
    requires Complete(fields, records) && i < |records| && j < |fields|
    ensures 0 < n <= |records| - i
    decreases |records| - i
  {
    if i + 1 < |records| && Agree(fields, records, i + 1, j) then 1 + RunLength(fields, records, i + 1, j) else 1
  }

  /** The closed form: nothing for a cell inside a run, the length of the run for its first cell. */
  function Span<F(==), V(==)>(fields: seq<F>, records: seq<Record<F, V>>, i: nat, j: nat): nat
    requires Complete(fields, records) && i < |records| && j < |fields|
  {
    if Agree(fields, records, i, j) then 0 else RunLength(fields, records, i, j)
  }

  /** `RunLength` is what its name says: the run goes on for that long, and not longer. */
  lemma {:induction false} RunIsMaximal<F, V>(fields: seq<F>, records: seq<Record<F, V>>, i: nat, j: nat)
    requires Complete(fields, records) && i < |records| && j < |fields|
    ensures var n := RunLength(fields, records, i, j);
            && (forall k :: i < k < i + n ==> Agree(fields, records, k, j))
            && (i + n < |records| ==> !Agree(fields, records, i + n, j))
    decreases |records| - i
  {
    if i + 1 < |records| && Agree(fields, records, i + 1, j) {
      RunIsMaximal(fields, records, i + 1, j);
    }
  }

  // ---------- the flat list ----------

  /** Position of cell (i, j) in the flat list. */
  function Cell(columns: nat, i: nat, j: nat): nat {
    i * columns + j
  }

  lemma CellBound(rows: nat, columns: nat, i: nat, j: nat)
    requires i < rows && j < columns
    ensures Cell(columns, i, j) < rows * columns
  {
    MulMonotone(i + 1, rows, columns);
    MulDistributes(i, 1, columns);
  }

  lemma CellUnique(columns: nat, i: nat, j: nat, i': nat, j': nat)
    requires j < columns && j' < columns
    ensures Cell(columns, i, j) == Cell(columns, i', j') <==> i == i' && j == j'
  {
    DigitPairs(i, j, i', j', columns);
  }

  lemma CellsInside(rows: nat, columns: nat)
    ensures forall i: nat, j: nat :: i < rows && j < columns ==> Cell(columns, i, j) < rows * columns
    ensures forall i: nat, j: nat, i': nat, j': nat :: j < columns && j' < columns ==>
                                                         (Cell(columns, i, j) == Cell(columns, i', j') <==> i == i' && j == j')
  {
    forall i: nat, j: nat | i < rows && j < columns ensures Cell(columns, i, j) < rows * columns {
      CellBound(rows, columns, i, j);
    }
    forall i: nat, j: nat, i': nat, j': nat | j < columns && j' < columns
      ensures Cell(columns, i, j) == Cell(columns, i', j') <==> i == i' && j == j'
    {
      CellUnique(columns, i, j, i', j');
    }
  }

  /** Cell (i, j) once the rows from `level` on have been compared with the row above them. */
  function Partial<F(==), V(==)>(fields: seq<F>, records: seq<Record<F, V>>, i: nat, j: nat, level: nat): nat
    requires Complete(fields, records) && i < |records| && j < |fields|
  {
    if i >= level then Span(fields, records, i, j)
    else if i + 1 == level then RunLength(fields, records, i, j)
    else 1
  }

  /** How far each column has come: column 0 to `first`, those before `j` to `low`, the others to `high`. */
  datatype Levels = Levels(first: nat, j: nat, low: nat, high: nat) {
    function At(c: nat): nat {
      if c == 0 then first else if c < j then low else high
    }
  }

  ghost predicate Filled<F, V>(fields: seq<F>, records: seq<Record<F, V>>, table: seq<nat>, levels: Levels) {
    && Complete(fields, records) && |table| == |records| * |fields|
    && forall r: nat, c: nat :: r < |records| && c < |fields| ==>
                                  Cell(|fields|, r, c) < |table|
                                  && table[Cell(|fields|, r, c)] == Partial(fields, records, r, c, levels.At(c))
  }

  /** What merging row `i` into the run above it does to column `j`. */
  function Merged(table: seq<nat>, columns: nat, i: nat, j: nat, agree: bool): (r: seq<nat>)
    requires i > 0 && Cell(columns, i, j) < |table| && Cell(columns, i - 1, j) < |table|
    ensures |r| == |table|
  {
    if agree then table[Cell(columns, i - 1, j) := table[Cell(columns, i, j)] + 1][Cell(columns, i, j) := 0] else table
  }

  /** Merging by agreement takes one column one row further and leaves the others alone. */
  lemma MergeFills<F, V>(fields: seq<F>, records: seq<Record<F, V>>, table: seq<nat>, i: nat, j: nat,
                         levels: Levels, levels': Levels)
    requires Filled(fields, records, table, levels) && 0 < i < |records| && j < |fields|
    requires levels.At(j) == i + 1 && levels'.At(j) == i
    requires forall c: nat :: c < |fields| && c != j ==> levels'.At(c) == levels.At(c)
    ensures Filled(fields, records, Merged(table, |fields|, i, j, Agree(fields, records, i, j)), levels')
  {
    hide Agree, RunLength, Cell;
    var columns := |fields|;
    var table' := Merged(table, columns, i, j, Agree(fields, records, i, j));
    CellsInside(|records|, columns);
    RunStep(fields, records, i - 1, j);
    forall r: nat, c: nat | r < |records| && c < columns
      ensures table'[Cell(columns, r, c)] == Partial(fields, records, r, c, levels'.At(c))
    {
      assert table[Cell(columns, r, c)] == Partial(fields, records, r, c, levels.At(c));
      assert table[Cell(columns, i, j)] == Partial(fields, records, i, j, i + 1);
    }
  }

  lemma RunStep<F, V>(fields: seq<F>, records: seq<Record<F, V>>, i: nat, j: nat)
    requires Complete(fields, records) && i + 1 < |records| && j < |fields|
    ensures RunLength(fields, records, i, j) ==
            if Agree(fields, records, i + 1, j) then 1 + RunLength(fields, records, i + 1, j) else 1
  {
  }

  lemma OnesAreFilled<F, V>(fields: seq<F>, records: seq<Record<F, V>>, table: seq<nat>, levels: Levels)
    requires Complete(fields, records) && |table| == |records| * |fields|
    requires forall k :: 0 <= k < |table| ==> table[k] == 1
    requires forall c: nat :: levels.At(c) == |records|
    ensures Filled(fields, records, table, levels)
  {
    hide Cell;
    CellsInside(|records|, |fields|);
  }

  /** A cell of a column that is done down to row `i` tells whether rows `i - 1` and `i` agree so far. */
  lemma AgreeFromTable<F, V>(fields: seq<F>, records: seq<Record<F, V>>, table: seq<nat>, i: nat, j: nat,
                             levels: Levels)
    requires Filled(fields, records, table, levels) && 0 < i < |records| && 0 < j < |fields| && levels.At(j - 1) <= i
    ensures Agree(fields, records, i, j) <==>
            SameValue(fields, records, i, j) && table[Cell(|fields|, i, j - 1)] == 0
  {
    assert table[Cell(|fields|, i, j - 1)] == Span(fields, records, i, j - 1);
  }

  /** Overwrites the flat list from the last row up, first for column 0, then for the columns behind it. */
  method BuildSpanTable<F(==), V(==)>(fieldNames: seq<F>, records: seq<Record<F, V>>) returns (r: Result<seq<nat>>)
    ensures r.Err? <==> |records| >= 2 && (fieldNames == [] || !Complete(fieldNames, records))
    ensures r.Ok? ==> |r.value| == |records| * |fieldNames|
    ensures r.Ok? && Complete(fieldNames, records) ==>
              forall i: nat, j: nat :: i < |records| && j < |fieldNames| ==>
                                         Cell(|fieldNames|, i, j) < |r.value|
                                         && r.value[Cell(|fieldNames|, i, j)] == Span(fieldNames, records, i, j)
    ensures |records| < 2 && r.Ok? ==> forall k :: 0 <= k < |r.value| ==> r.value[k] == 1
  {
    hide Cell, Agree, RunLength;
    var n, columns := |records|, |fieldNames|;
    var span := new nat[n * columns](_ => 1);
    if n < 2 {
      if Complete(fieldNames, records) {
        OnesAreFilled(fieldNames, records, span[..], Levels(n, 0, n, n));
        FilledToTop(fieldNames, records, span[..], Levels(n, 0, n, n));
      }
      return Ok(span[..]);
    }
    if columns == 0 {
      return Err(IndexError);
    }
    if !Complete(fieldNames, records) {
      return Err(KeyError);
    }
    OnesAreFilled(fieldNames, records, span[..], Levels(n, 0, n, n));
    MergeFirstColumn(fieldNames, records, span);
    MergeOtherColumns(fieldNames, records, span);
    FilledToTop(fieldNames, records, span[..], Levels(1, 0, n, 1));
    return Ok(span[..]);
  }

  /** The first loop: column 0 depends on its own field only. */
  method MergeFirstColumn<F(==), V(==)>(fieldNames: seq<F>, records: seq<Record<F, V>>, span: array<nat>)
    requires fieldNames != [] && |records| >= 2
    requires Filled(fieldNames, records, span[..], Levels(|records|, 0, |records|, |records|))
    modifies span
    ensures Filled(fieldNames, records, span[..], Levels(1, 0, |records|, |records|))
  {
    hide Cell, Agree, RunLength, Partial;
    var n, columns := |records|, |fieldNames|;
    CellsInside(n, columns);
    for i := n downto 1
      invariant Filled(fieldNames, records, span[..], Levels(i, 0, n, n))
    {
      MergeFills(fieldNames, records, span[..], i, 0, Levels(i + 1, 0, n, n), Levels(i, 0, n, n));
      FirstColumnAgrees(fieldNames, records, i);
      if records[i - 1][fieldNames[0]] == records[i][fieldNames[0]] {
        var current, previous := Cell(columns, i - 1, 0), Cell(columns, i, 0);
        ghost var before := span[..];
        span[current] := span[previous] + 1;
        span[previous] := 0;
        assert span[..] == before[current := before[previous] + 1][previous := 0];
      }
    }
  }

  /** The second loop: row by row, each column after the one to its left. */
  method MergeOtherColumns<F(==), V(==)>(fieldNames: seq<F>, records: seq<Record<F, V>>, span: array<nat>)
    requires fieldNames != [] && |records| >= 2
    requires Filled(fieldNames, records, span[..], Levels(1, 0, |records|, |records|))
    modifies span
    ensures Filled(fieldNames, records, span[..], Levels(1, 0, |records|, 1))
  {
    hide Cell, Agree, RunLength, Partial;
    var n, columns := |records|, |fieldNames|;
    CellsInside(n, columns);
    for i := n downto 1
      invariant Filled(fieldNames, records, span[..], Levels(1, 0, n, i))
    {
      SameLevels(fieldNames, records, span[..], Levels(1, 0, n, i + 1), Levels(1, 1, i, i + 1));
      for j := 1 to columns
        invariant Filled(fieldNames, records, span[..], Levels(1, j, i, i + 1))
      {
        AgreeFromTable(fieldNames, records, span[..], i, j, Levels(1, j, i, i + 1));
        MergeFills(fieldNames, records, span[..], i, j, Levels(1, j, i, i + 1), Levels(1, j + 1, i, i + 1));
        var current, previous := Cell(columns, i - 1, j), Cell(columns, i, j);
        if records[i][fieldNames[j]] == records[i - 1][fieldNames[j]] && span[Cell(columns, i, j - 1)] == 0 {
          ghost var before := span[..];
          span[current] := span[previous] + 1;
          span[previous] := 0;
          assert span[..] == before[current := before[previous] + 1][previous := 0];
        }
      }
      SameLevels(fieldNames, records, span[..], Levels(1, columns, i, i + 1), Levels(1, 0, n, i));
    }
  }

  lemma SameLevels<F, V>(fields: seq<F>, records: seq<Record<F, V>>, table: seq<nat>, levels: Levels, levels': Levels)
    requires Filled(fields, records, table, levels)
    requires forall c: nat :: c < |fields| ==> levels'.At(c) == levels.At(c)
    ensures Filled(fields, records, table, levels')
  {
  }

  lemma FirstColumnAgrees<F, V>(fields: seq<F>, records: seq<Record<F, V>>, i: nat)
    requires Complete(fields, records) && 0 < i < |records| && fields != []
    ensures Agree(fields, records, i, 0) <==> records[i - 1][fields[0]] == records[i][fields[0]]
  {
    assert SameValue(fields, records, i, 0) <==> records[i - 1][fields[0]] == records[i][fields[0]];
  }

  /** Once row 1 has been compared, or there is no row 1, every cell has its closed form. */
  lemma FilledToTop<F, V>(fields: seq<F>, records: seq<Record<F, V>>, table: seq<nat>, levels: Levels)
    requires Filled(fields, records, table, levels) && forall c: nat :: c < |fields| ==> levels.At(c) <= 1
    ensures forall i: nat, j: nat :: i < |records| && j < |fields| ==>
                                       && Cell(|fields|, i, j) < |table|
                                       && table[Cell(|fields|, i, j)] == Span(fields, records, i, j)
  {
  }

  // ---------- what the table means ----------

  function ColumnSum<F(==), V(==)>(fields: seq<F>, records: seq<Record<F, V>>, i: nat, j: nat): nat
    requires Complete(fields, records) && i <= |records| && j < |fields|
    decreases |records| - i
  {
    if i == |records| then 0 else Span(fields, records, i, j) + ColumnSum(fields, records, i + 1, j)
  }

  lemma {:induction false} SumFrom<F, V>(fields: seq<F>, records: seq<Record<F, V>>, i: nat, j: nat)
    requires Complete(fields, records) && i < |records| && j < |fields|
    ensures ColumnSum(fields, records, i, j) ==
            |records| - i - if Agree(fields, records, i, j) then RunLength(fields, records, i, j) else 0
    decreases |records| - i
  {
    if i + 1 < |records| {
      SumFrom(fields, records, i + 1, j);
      RunStep(fields, records, i, j);
    }
  }

  /** Every column of the table adds up to the number of rows. */
  lemma ColumnsSumToRows<F, V>(fields: seq<F>, records: seq<Record<F, V>>, j: nat)
    requires Complete(fields, records) && j < |fields|
    ensures ColumnSum(fields, records, 0, j) == |records|
  {
    if records != [] { SumFrom(fields, records, 0, j); }
  }

  /** A run of a column lies inside a run of the column to its left. */
  lemma {:induction false} RunsNest<F, V>(fields: seq<F>, records: seq<Record<F, V>>, i: nat, j: nat)
    requires Complete(fields, records) && i < |records| && 0 < j < |fields|
    ensures RunLength(fields, records, i, j) <= RunLength(fields, records, i, j - 1)
    ensures Span(fields, records, i, j) == 0 ==> Span(fields, records, i, j - 1) == 0
    decreases |records| - i
  {
    if i + 1 < |records| {
      RunsNest(fields, records, i + 1, j);
    }
  }

  // ---------- the rendered cells ----------

  datatype Rendered<V> = Hidden | Shown(value: V, rows: nat)

  /** `fields.index(field)`: the first place of a field. */
  function IndexOf<F(==)>(fields: seq<F>, field: F): (r: Option<nat>)
    ensures r.Some? <==> field in fields
    ensures r.Some? ==> r.value < |fields| && fields[r.value] == field && field !in fields[..r.value]
  {
    if fields == [] then None
    else if fields[0] == field then Some(0)
    else
      var rest := IndexOf(fields[1..], field);
      if rest.Some? then Some(rest.value + 1) else None
  }

  /** `get_cell`: no cell for a span of nought, a plain cell for one, a spanning cell otherwise. */
  function GetCell<F(==), V(==)>(fields: seq<F>, records: seq<Record<F, V>>, i: nat, field: F,
                                 table: seq<nat>): Result<Rendered<V>>
    requires Complete(fields, records)
    requires forall r: nat, c: nat :: r < |records| && c < |fields| ==> Cell(|fields|, r, c) < |table|
  {
    var j := IndexOf(fields, field);
    if j.None? then Err(ValueError)
    else if i < |records| then
      var span := table[Cell(|fields|, i, j.value)];
      Ok(if span == 0 then Hidden else Shown(records[i][field], span))
    else Ok(Hidden)
  }

  /** The cell of field `field` in row `s` shows that field of row `i`, and spans it. */
  predicate Covers<F(==), V(==)>(fields: seq<F>, records: seq<Record<F, V>>, table: seq<nat>, s: nat, field: F, i: nat)
    requires Complete(fields, records) && i < |records| && field in fields
    requires forall r: nat, c: nat :: r < |records| && c < |fields| ==> Cell(|fields|, r, c) < |table|
  {
    var cell := GetCell(fields, records, s, field, table);
    cell.Ok? && cell.value.Shown? && cell.value.value == records[i][field] && s <= i < s + cell.value.rows
  }

  /** No value is lost: each row is covered, in each field, by a cell above it or in it that shows its value. */
  lemma {:induction false} EveryValueShown<F, V>(fields: seq<F>, records: seq<Record<F, V>>, table: seq<nat>,
                                                 i: nat, field: F)
    returns (s: nat)
    requires Complete(fields, records) && i < |records| && field in fields
    requires forall r: nat, c: nat :: r < |records| && c < |fields| ==>
                                        && Cell(|fields|, r, c) < |table|
                                        && table[Cell(|fields|, r, c)] == Span(fields, records, r, c)
    ensures s <= i && Covers(fields, records, table, s, field, i)
    ensures var j := IndexOf(fields, field).value;
            RunLength(fields, records, s, j) == RunLength(fields, records, i, j) + (i - s)
    decreases i
  {
    s := i;
    var j := IndexOf(fields, field).value;
    if Agree(fields, records, i, j) {
      assert SameValue(fields, records, i, j);
      s := EveryValueShown(fields, records, table, i - 1, field);
      RunStep(fields, records, i - 1, j);
    }
  }

  /** The cell of field `field` in row `s` is rendered, and its span takes in row `i`. */
  predicate Spans<F(==), V(==)>(fields: seq<F>, records: seq<Record<F, V>>, table: seq<nat>, s: nat, field: F, i: nat)
    requires Complete(fields, records)
    requires forall r: nat, c: nat :: r < |records| && c < |fields| ==> Cell(|fields|, r, c) < |table|
  {
    var cell := GetCell(fields, records, s, field, table);
    cell.Ok? && cell.value.Shown? && s <= i < s + cell.value.rows
  }

  /** Exactly one rendered cell takes in each row and field: spans neither overlap nor leave a hole. */
  lemma OneCellShown<F, V>(fields: seq<F>, records: seq<Record<F, V>>, table: seq<nat>, i: nat, field: F) returns (s: nat)
    requires Complete(fields, records) && i < |records| && field in fields
    requires forall r: nat, c: nat :: r < |records| && c < |fields| ==>
                                        && Cell(|fields|, r, c) < |table|
                                        && table[Cell(|fields|, r, c)] == Span(fields, records, r, c)
    ensures forall t: nat :: Spans(fields, records, table, t, field, i) <==> t == s
  {
    s := EveryValueShown(fields, records, table, i, field);
    forall t: nat | Spans(fields, records, table, t, field, i) ensures t == s {
      if t < s { ShownOnce(fields, records, table, t, s, field, i); }
      if s < t <= i { ShownOnce(fields, records, table, s, t, field, i); }
    }
  }

  /** Below a rendered cell nothing is rendered as far as its span reaches. */
  lemma ShownOnce<F, V>(fields: seq<F>, records: seq<Record<F, V>>, table: seq<nat>, s: nat, t: nat, field: F, i: nat)
    requires Complete(fields, records) && i < |records| && field in fields && s < t <= i
    requires forall r: nat, c: nat :: r < |records| && c < |fields| ==>
                                        && Cell(|fields|, r, c) < |table|
                                        && table[Cell(|fields|, r, c)] == Span(fields, records, r, c)
    requires Spans(fields, records, table, s, field, i)
    ensures !Spans(fields, records, table, t, field, i)
  {
    hide Cell, Agree, RunLength;
    var j := IndexOf(fields, field).value;
    assert table[Cell(|fields|, s, j)] == Span(fields, records, s, j);
    assert table[Cell(|fields|, t, j)] == Span(fields, records, t, j);
    RunIsMaximal(fields, records, s, j);
  }

  /** A cell is rendered exactly if its row differs from the one above in this field or one before it. */
  lemma ShownIff<F, V>(fields: seq<F>, records: seq<Record<F, V>>, table: seq<nat>, i: nat, field: F)
    requires Complete(fields, records) && i < |records| && field in fields
    requires forall r: nat, c: nat :: r < |records| && c < |fields| ==>
                                        && Cell(|fields|, r, c) < |table|
                                        && table[Cell(|fields|, r, c)] == Span(fields, records, r, c)
    ensures var cell := GetCell(fields, records, i, field, table);
            && cell.Ok?
            && (cell.value.Hidden? <==>
                i > 0 && forall c: nat :: c <= IndexOf(fields, field).value ==>
                                            records[i - 1][fields[c]] == records[i][fields[c]])
            && (cell.value.Shown? ==> cell.value.value == records[i][field] && cell.value.rows > 0)
  {
    hide Cell, RunLength;
    var j := IndexOf(fields, field).value;
    assert table[Cell(|fields|, i, j)] == Span(fields, records, i, j);
    if i > 0 {
      assert forall c: nat :: c <= j ==>
                                (SameValue(fields, records, i, c) <==> records[i - 1][fields[c]] == records[i][fields[c]]);
    }
  }
}
