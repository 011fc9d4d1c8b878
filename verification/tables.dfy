/** The in-memory data frame the pipeline threads from stage to stage.

    A table is stored column by column, as pandas stores it: every column has
    a label, a kind (the pandas dtype family the cleaning rules branch on) and
    one cell per row. Labels need not be distinct; looking a label up fails
    when it is missing or when it is ambiguous. */
module Tables {
  import opened Results
  import opened Duplicates

  /** One value of the frame: a string, a number, or pandas' missing value. */
  datatype Cell = Text(s: string) | Num(v: real) | Null

  /** `TextKind` is pandas' `object` dtype, `NumKind` an integer or float dtype,
      `CategoryKind` the categorical dtype `pd.cut` produces. */
  datatype Kind = TextKind | NumKind | CategoryKind

  datatype Column = Column(name: string, kind: Kind, cells: seq<Cell>)

  datatype Table = Table(columns: seq<Column>, height: nat)

  /** Why a transform run aborts; each corresponds to an exception pandas raises. */
  datatype Error =
    | MissingColumn(name: string)   // KeyError on df[name]
    | DuplicateColumn(name: string) // df[name] is ambiguous
    | NotText(name: string)         // `.str` accessor on a non-string column
    | NotNumeric(name: string)      // `pd.cut` on a non-numeric column
    | CategoryFill(name: string)    // fillna(0) on a categorical with gaps
    | Coercion(name: string)         // astype(...) of an unconvertible value

  /** A cell may live in a column of kind `k`. */
  predicate Fits(k: Kind, c: Cell) {
    match c
    case Null => true
    case Num(_) => k == NumKind
    case Text(_) => k != NumKind
  }

  predicate ColumnValid(col: Column, height: nat) {
    && |col.cells| == height
    && forall i :: 0 <= i < height ==> Fits(col.kind, col.cells[i])
  }

  /** Every column has one fitting cell per row. */
  predicate Valid(t: Table) {
    forall j :: 0 <= j < |t.columns| ==> ColumnValid(t.columns[j], t.height)
  }

  function Names(cols: seq<Column>): (r: seq<string>)
    ensures |r| == |cols|
    ensures forall j :: 0 <= j < |cols| ==> r[j] == cols[j].name
  {
    seq(|cols|, j requires 0 <= j < |cols| => cols[j].name)
  }

  /** The `i`-th row, one cell per column. */
  function Row(t: Table, i: nat): (r: seq<Cell>)
    requires Valid(t) && i < t.height
    ensures |r| == |t.columns|
    ensures forall j :: 0 <= j < |t.columns| ==> r[j] == t.columns[j].cells[i]
  {
    seq(|t.columns|, j requires 0 <= j < |t.columns| => t.columns[j].cells[i])
  }

  function Rows(t: Table): (r: seq<seq<Cell>>)
    requires Valid(t)
    ensures |r| == t.height
    ensures forall i :: 0 <= i < t.height ==> r[i] == Row(t, i)
  {
    seq(t.height, i requires 0 <= i < t.height => Row(t, i))
  }

  // ---------------------------------------------------------------------------
  // Label lookup
  // ---------------------------------------------------------------------------

  /** The positions carrying label `name`, in increasing order. */
  function Positions(cols: seq<Column>, name: string): (r: seq<nat>)
    ensures forall m :: 0 <= m < |r| ==> r[m] < |cols|
    ensures forall k :: 0 <= k < |cols| ==> (k in r <==> cols[k].name == name)
    ensures forall m, n :: 0 <= m < n < |r| ==> r[m] < r[n]
    ensures (forall k :: 0 <= k < |cols| ==> cols[k].name != name) ==> r == []
  {
    if |cols| == 0 then []
    else
      var p := Positions(cols[..|cols| - 1], name);
      if cols[|cols| - 1].name == name then p + [|cols| - 1] else p
  }

  /** `df[name]`: the unique column carrying the label. */
  function Lookup(cols: seq<Column>, name: string): (r: Result<nat, Error>)
    ensures r.Ok? <==> |Positions(cols, name)| == 1
    ensures r.Ok? ==> r.value < |cols| && cols[r.value].name == name
    ensures r.Ok? ==> forall k :: 0 <= k < |cols| && cols[k].name == name ==> k == r.value
    ensures r == Err(MissingColumn(name)) <==> name !in Names(cols)
    ensures r.Err? ==> r.error == MissingColumn(name) || r.error == DuplicateColumn(name)
  {
    var p := Positions(cols, name);
    if |p| == 0 then
      assert forall k :: 0 <= k < |cols| ==> Names(cols)[k] != name;
      Err(MissingColumn(name))
    else
      assert p[0] in p;
      if |p| > 1 then Err(DuplicateColumn(name))
      else Ok(p[0])
  }

  /** Lookup only depends on which positions carry the label. */
  lemma {:induction false} PositionsAgree(c1: seq<Column>, c2: seq<Column>, name: string)
    requires |c1| == |c2|
    requires forall k :: 0 <= k < |c1| ==> (c1[k].name == name <==> c2[k].name == name)
    ensures Positions(c1, name) == Positions(c2, name)
  {
    if |c1| > 0 {
      PositionsAgree(c1[..|c1| - 1], c2[..|c2| - 1], name);
    }
  }

  lemma LookupAgree(c1: seq<Column>, c2: seq<Column>, name: string)
    requires |c1| == |c2|
    requires forall k :: 0 <= k < |c1| ==> (c1[k].name == name <==> c2[k].name == name)
    ensures Lookup(c1, name) == Lookup(c2, name)
  {
    PositionsAgree(c1, c2, name);
    assert name in Names(c1) <==> name in Names(c2) by {
      if name in Names(c1) {
        var k :| 0 <= k < |c1| && Names(c1)[k] == name;
        assert Names(c2)[k] == name;
      }
      if name in Names(c2) {
        var k :| 0 <= k < |c2| && Names(c2)[k] == name;
        assert Names(c1)[k] == name;
      }
    }
  }

  /** Appending a column under another label leaves a lookup unchanged. */
  lemma LookupAppend(cols: seq<Column>, c: Column, name: string)
    requires c.name != name
    ensures Lookup(cols + [c], name) == Lookup(cols, name)
  {
    assert (cols + [c])[..|cols|] == cols;
    assert Names(cols + [c]) == Names(cols) + [c.name];
  }

  /** Overwrites the only column labelled `col.name`, at position `j`. */
  function ReplaceColumn(t: Table, j: nat, col: Column): (r: Table)
    requires Valid(t) && ColumnValid(col, t.height)
    requires Lookup(t.columns, col.name) == Ok(j)
    ensures Valid(r) && r.height == t.height
    ensures Names(r.columns) == Names(t.columns)
    ensures Lookup(r.columns, col.name) == Ok(j) && r.columns[j] == col
    ensures forall k :: 0 <= k < |t.columns| && k != j ==> r.columns[k] == t.columns[k]
  {
    var cols := t.columns[j := col];
    LookupAgree(t.columns, cols, col.name);
    Table(cols, t.height)
  }

  /** Adds a column under a new label as the last column. */
  function AppendColumn(t: Table, col: Column): (r: Table)
    requires Valid(t) && ColumnValid(col, t.height)
    requires col.name !in Names(t.columns)
    ensures Valid(r) && r.height == t.height
    ensures Names(r.columns) == Names(t.columns) + [col.name]
    ensures Lookup(r.columns, col.name) == Ok(|t.columns|) && r.columns[|t.columns|] == col
    ensures forall k :: 0 <= k < |t.columns| ==> r.columns[k] == t.columns[k]
  {
    var cols := t.columns + [col];
    assert Names(cols) == Names(t.columns) + [col.name];
    PositionsAppendNew(t.columns, col);
    Table(cols, t.height)
  }

  /** A column under a new label is the only position carrying it. */
  lemma PositionsAppendNew(cols: seq<Column>, c: Column)
    requires c.name !in Names(cols)
    ensures Positions(cols + [c], c.name) == [|cols|]
  {
    forall k | 0 <= k < |cols| ensures cols[k].name != c.name {
      assert Names(cols)[k] in Names(cols);
    }
    assert Positions(cols, c.name) == [];
    var all := cols + [c];
    assert all[..|all| - 1] == cols && all[|all| - 1] == c;
  }

  /** `df[col.name] = col.cells`: a new label is appended as the last column;
      an existing label gets the value written into every column carrying it,
      as pandas broadcasts an assignment to a repeated label. */
  function SetColumn(t: Table, col: Column): (r: Table)
    requires Valid(t) && ColumnValid(col, t.height)
    ensures Valid(r) && r.height == t.height
    ensures col.name in Names(t.columns) ==> Names(r.columns) == Names(t.columns)
    ensures col.name !in Names(t.columns) ==> Names(r.columns) == Names(t.columns) + [col.name]
    ensures forall k :: 0 <= k < |r.columns| && r.columns[k].name == col.name ==> r.columns[k] == col
    ensures forall k :: 0 <= k < |t.columns| && t.columns[k].name != col.name ==> r.columns[k] == t.columns[k]
    ensures Lookup(r.columns, col.name).Ok? <==> Lookup(t.columns, col.name) != Err(DuplicateColumn(col.name))
    ensures Lookup(r.columns, col.name).Ok? ==> r.columns[Lookup(r.columns, col.name).value] == col
  {
    if col.name in Names(t.columns) then
      var cols := Overwrite(t.columns, col);
      LookupSameNames(cols, t.columns, col.name);
      Table(cols, t.height)
    else
      AppendColumn(t, col)
  }

  /** Every column carrying the label of `col` replaced by `col`. */
  function Overwrite(cols: seq<Column>, col: Column): (r: seq<Column>)
    ensures |r| == |cols| && Names(r) == Names(cols)
    ensures forall k :: 0 <= k < |cols| ==> r[k] == (if cols[k].name == col.name then col else cols[k])
  {
    var r := seq(|cols|, k requires 0 <= k < |cols| => if cols[k].name == col.name then col else cols[k]);
    assert Names(r) == Names(cols);
    r
  }

  /** Setting a column leaves the lookup of every other label unchanged. */
  lemma SetColumnLookup(t: Table, col: Column, name: string)
    requires Valid(t) && ColumnValid(col, t.height) && name != col.name
    ensures Lookup(SetColumn(t, col).columns, name) == Lookup(t.columns, name)
  {
    var r := SetColumn(t, col);
    if col.name in Names(t.columns) {
      LookupSameNames(r.columns, t.columns, name);
    } else {
      assert r.columns == t.columns + [col];
      LookupAppend(t.columns, col, name);
    }
  }

  /** With distinct labels, a label that is present looks up. */
  lemma LookupPresent(cols: seq<Column>, name: string)
    requires Distinct(Names(cols)) && name in Names(cols)
    ensures Lookup(cols, name).Ok?
  {
    var j :| 0 <= j < |cols| && Names(cols)[j] == name;
    LookupDistinctLabel(cols, j);
  }

  // ---------------------------------------------------------------------------
  // Facts about one named column
  // ---------------------------------------------------------------------------

  /** The table has exactly one column labelled `name` and all its cells lie in `allowed`. */
  predicate ColumnWithin(t: Table, name: string, allowed: set<Cell>) {
    && Valid(t)
    && Lookup(t.columns, name).Ok?
    && forall i :: 0 <= i < t.height ==> t.columns[Lookup(t.columns, name).value].cells[i] in allowed
  }

  /** No cell of the table is missing. */
  predicate NoNulls(t: Table) {
    forall j, i :: 0 <= j < |t.columns| && 0 <= i < |t.columns[j].cells| ==> !t.columns[j].cells[i].Null?
  }

  // ---------------------------------------------------------------------------
  // Row selection
  // ---------------------------------------------------------------------------

  /** The rows at the given positions, in the given order. */
  function SelectRows(t: Table, idx: seq<nat>): (r: Table)
    requires Valid(t)
    requires forall m :: 0 <= m < |idx| ==> idx[m] < t.height
    ensures Valid(r) && r.height == |idx| && |r.columns| == |t.columns|
    ensures forall j :: 0 <= j < |t.columns| ==>
      r.columns[j].name == t.columns[j].name && r.columns[j].kind == t.columns[j].kind
    ensures forall j, m :: 0 <= j < |t.columns| && 0 <= m < |idx| ==>
      r.columns[j].cells[m] == t.columns[j].cells[idx[m]]
  {
    var cols := seq(|t.columns|, j requires 0 <= j < |t.columns| =>
      var c := t.columns[j];
      c.(cells := seq(|idx|, m requires 0 <= m < |idx| => c.cells[idx[m]])));
    Table(cols, |idx|)
  }

  /** The rows of a selection are the selected rows. */
  lemma SelectRowsRows(t: Table, idx: seq<nat>)
    requires Valid(t)
    requires forall m :: 0 <= m < |idx| ==> idx[m] < t.height
    ensures Rows(SelectRows(t, idx)) == seq(|idx|, m requires 0 <= m < |idx| => Rows(t)[idx[m]])
  {
    var r := SelectRows(t, idx);
    forall m | 0 <= m < |idx|
      ensures Rows(r)[m] == Rows(t)[idx[m]]
    {
      assert Row(r, m) == Row(t, idx[m]);
    }
  }

  /** Selecting rows keeps the labels. */
  lemma SelectRowsNames(t: Table, idx: seq<nat>)
    requires Valid(t)
    requires forall m :: 0 <= m < |idx| ==> idx[m] < t.height
    ensures Names(SelectRows(t, idx).columns) == Names(t.columns)
  {
  }

  /** Selecting rows keeps every lookup. */
  lemma SelectRowsLookup(t: Table, idx: seq<nat>, name: string)
    requires Valid(t)
    requires forall m :: 0 <= m < |idx| ==> idx[m] < t.height
    ensures Lookup(SelectRows(t, idx).columns, name) == Lookup(t.columns, name)
  {
    LookupAgree(t.columns, SelectRows(t, idx).columns, name);
  }

  /** The column labelled `name` has kind `k`. */
  predicate KindIs(t: Table, name: string, k: Kind) {
    Lookup(t.columns, name).Ok? && t.columns[Lookup(t.columns, name).value].kind == k
  }

  /** Selecting rows keeps every fact about the cells of a named column. */
  lemma SelectRowsWithin(t: Table, idx: seq<nat>, name: string, allowed: set<Cell>)
    requires ColumnWithin(t, name, allowed)
    requires forall m :: 0 <= m < |idx| ==> idx[m] < t.height
    ensures ColumnWithin(SelectRows(t, idx), name, allowed)
    ensures KindIs(t, name, CategoryKind) ==> KindIs(SelectRows(t, idx), name, CategoryKind)
  {
    SelectRowsLookup(t, idx, name);
  }

  /** Looking up a column's own label finds that column exactly when no other
      column carries the label, and otherwise reports it as duplicated. */
  lemma LookupOwnLabel(cols: seq<Column>, j: nat)
    requires j < |cols|
    ensures Lookup(cols, cols[j].name).Ok? <==>
            forall k :: 0 <= k < |cols| && cols[k].name == cols[j].name ==> k == j
    ensures Lookup(cols, cols[j].name).Err? ==> Lookup(cols, cols[j].name) == Err(DuplicateColumn(cols[j].name))
  {
    var name := cols[j].name;
    assert Names(cols)[j] == name;
    var p := Positions(cols, name);
    assert j in p;
    if Lookup(cols, name).Err? {
      assert |p| >= 2;
      var k := if p[0] != j then p[0] else p[1];
      assert p[0] < p[1];
      assert k in p && k < |cols| && k != j;
      assert cols[k].name == name;
    }
  }

  /** Labels are distinct exactly when every column's own label looks up. */
  lemma DistinctLabels(cols: seq<Column>)
    ensures Distinct(Names(cols)) <==> forall j :: 0 <= j < |cols| ==> Lookup(cols, cols[j].name).Ok?
  {
    if Distinct(Names(cols)) {
      forall j | 0 <= j < |cols| ensures Lookup(cols, cols[j].name).Ok? {
        LookupOwnLabel(cols, j);
        forall k | 0 <= k < |cols| && cols[k].name == cols[j].name ensures k == j {
          assert Names(cols)[k] == Names(cols)[j];
        }
      }
    }
    if forall j :: 0 <= j < |cols| ==> Lookup(cols, cols[j].name).Ok? {
      forall a, b | 0 <= a < b < |cols| ensures Names(cols)[a] != Names(cols)[b] {
        LookupOwnLabel(cols, a);
      }
    }
  }

  /** With distinct labels, a column's own label finds that column. */
  lemma LookupDistinctLabel(cols: seq<Column>, j: nat)
    requires Distinct(Names(cols)) && j < |cols|
    ensures Lookup(cols, cols[j].name) == Ok(j)
  {
    DistinctLabels(cols);
    var r := Lookup(cols, cols[j].name);
    assert Names(cols)[r.value] == Names(cols)[j];
  }

  /** Tables with the same labels answer every lookup the same way. */
  lemma LookupSameNames(c1: seq<Column>, c2: seq<Column>, name: string)
    requires Names(c1) == Names(c2)
    ensures Lookup(c1, name) == Lookup(c2, name)
  {
    assert forall k :: 0 <= k < |c1| ==> c1[k].name == Names(c1)[k] == Names(c2)[k] == c2[k].name;
    LookupAgree(c1, c2, name);
  }
}
