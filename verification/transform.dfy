/** The transform stage (DAG.py:81-139): ten fixed cleaning steps applied in
    order to the staged table. Each step is a pure function from table to
    table; the steps that pandas can fail on return a `Result`. */
module Cleaning {
  import opened Results
  import opened Text
  import opened Tables
  import opened Duplicates
  import opened Derived

  // ---------------------------------------------------------------------------
  // Step 1: lower-case and strip every text cell (DAG.py:84-85)
  // ---------------------------------------------------------------------------

  /** A text cell is lower-case and has no whitespace at either end. */
  predicate CleanCell(c: Cell) {
    c.Text? ==> IsLower(c.s) && Trimmed(c.s)
  }

  /** Every cell of every text column is clean. */
  predicate TextClean(t: Table) {
    forall j, i :: 0 <= j < |t.columns| && t.columns[j].kind == TextKind && 0 <= i < |t.columns[j].cells| ==>
      CleanCell(t.columns[j].cells[i])
  }

  /** `.str.lower().str.strip()` on one cell; a non-string gives NaN. */
  function CleanTextCell(c: Cell): (r: Cell)
    ensures CleanCell(r)
    ensures r.Text? <==> c.Text?
    ensures r.Text? ==> IsStripOf(r.s, Lower(c.s))
  {
    if c.Text? then Text(CleanText(c.s)) else Null
  }

  function CleanTextColumn(col: Column): Column {
    if col.kind == TextKind then
      col.(cells := seq(|col.cells|, i requires 0 <= i < |col.cells| => CleanTextCell(col.cells[i])))
    else col
  }

  function CleanTextColumns(t: Table): (r: Table)
    requires Valid(t)
    ensures Valid(r) && r.height == t.height && |r.columns| == |t.columns|
    ensures Names(r.columns) == Names(t.columns)
    ensures forall j :: 0 <= j < |t.columns| ==> r.columns[j].kind == t.columns[j].kind
    ensures forall j :: 0 <= j < |t.columns| && t.columns[j].kind != TextKind ==> r.columns[j] == t.columns[j]
    ensures forall j, i :: 0 <= j < |t.columns| && t.columns[j].kind == TextKind && 0 <= i < t.height ==>
      && (r.columns[j].cells[i].Null? <==> t.columns[j].cells[i].Null?)
      && (r.columns[j].cells[i].Text? ==> IsStripOf(r.columns[j].cells[i].s, Lower(t.columns[j].cells[i].s)))
    ensures TextClean(r)
  {
    Table(seq(|t.columns|, j requires 0 <= j < |t.columns| => CleanTextColumn(t.columns[j])), t.height)
  }

  /** Cleaning the text of a table twice is the same as cleaning it once. */
  lemma CleanTextColumnsIdempotent(t: Table)
    requires Valid(t)
    ensures CleanTextColumns(CleanTextColumns(t)) == CleanTextColumns(t)
  {
    var once := CleanTextColumns(t);
    var twice := CleanTextColumns(once);
    forall j | 0 <= j < |t.columns| ensures twice.columns[j] == once.columns[j] {
      if once.columns[j].kind == TextKind {
        forall i | 0 <= i < t.height ensures twice.columns[j].cells[i] == once.columns[j].cells[i] {
          var c := once.columns[j].cells[i];
          if c.Text? {
            assert c.s == CleanText(t.columns[j].cells[i].s);
            CleanTextIdempotent(t.columns[j].cells[i].s);
          }
        }
      }
    }
  }

  // ---------------------------------------------------------------------------
  // Step 2: normalise the column labels (DAG.py:88-89)
  // ---------------------------------------------------------------------------

  function NormalizeColumnNames(t: Table): (r: Table)
    requires Valid(t)
    ensures Valid(r) && r.height == t.height && |r.columns| == |t.columns|
    ensures forall j :: 0 <= j < |t.columns| ==>
      && r.columns[j].kind == t.columns[j].kind
      && r.columns[j].cells == t.columns[j].cells
      && r.columns[j].name == NormalizeName(t.columns[j].name)
      && ' ' !in r.columns[j].name && IsLower(r.columns[j].name)
      && |r.columns[j].name| <= |t.columns[j].name|
    ensures forall j :: 0 <= j < |t.columns| ==>
      var n := t.columns[j].name;
      ' ' !in n && IsLower(n) && !HasMarker(n) ==> r.columns[j].name == n
  {
    Table(seq(|t.columns|, j requires 0 <= j < |t.columns| =>
      t.columns[j].(name := NormalizeName(t.columns[j].name))), t.height)
  }

  // ---------------------------------------------------------------------------
  // Step 3: drop `user_id` if present (DAG.py:92)
  // ---------------------------------------------------------------------------

  /** `drop(columns=[name], errors='ignore')` on the column list. */
  function RemoveNamed(cols: seq<Column>, name: string): (r: seq<Column>)
    ensures |r| <= |cols|
    ensures forall k :: 0 <= k < |r| ==> r[k].name != name && r[k] in cols
    ensures forall k :: 0 <= k < |cols| && cols[k].name != name ==> cols[k] in r
    ensures (forall k :: 0 <= k < |cols| ==> cols[k].name != name) ==> r == cols
  {
    if |cols| == 0 then []
    else
      var rest := RemoveNamed(cols[1..], name);
      if cols[0].name == name then rest else [cols[0]] + rest
  }

  /** Dropping removes the label when present and changes nothing when absent. */
  lemma RemoveNamedNames(cols: seq<Column>, name: string)
    ensures name !in Names(RemoveNamed(cols, name))
    ensures name !in Names(cols) ==> RemoveNamed(cols, name) == cols
  {
    var r := RemoveNamed(cols, name);
    assert forall k :: 0 <= k < |r| ==> Names(r)[k] != name;
    if name !in Names(cols) {
      assert forall k :: 0 <= k < |cols| ==> Names(cols)[k] != name;
    }
  }

  /** Dropping distributes over concatenation, so it keeps the relative order
      of the columns it retains. */
  lemma {:induction false} RemoveNamedConcat(a: seq<Column>, b: seq<Column>, name: string)
    ensures RemoveNamed(a + b, name) == RemoveNamed(a, name) + RemoveNamed(b, name)
  {
    if |a| == 0 {
      assert a + b == b;
    } else {
      assert (a + b)[1..] == a[1..] + b;
      assert (a + b)[0] == a[0];
      RemoveNamedConcat(a[1..], b, name);
    }
  }

  function DropColumn(t: Table, name: string): (r: Table)
    requires Valid(t)
    ensures Valid(r) && r.height == t.height
    ensures r.columns == RemoveNamed(t.columns, name)
    ensures name !in Names(r.columns)
    ensures name !in Names(t.columns) ==> r == t
  {
    var cols := RemoveNamed(t.columns, name);
    RemoveNamedNames(t.columns, name);
    assert forall k :: 0 <= k < |cols| ==> ColumnValid(cols[k], t.height);
    Table(cols, t.height)
  }

  // ---------------------------------------------------------------------------
  // Step 4: rename the two engagement columns (DAG.py:95-98)
  // ---------------------------------------------------------------------------

  /** The labels the rename reads or writes. */
  const RenameTouched: set<string> :=
    {"discover_weekly_engagement", "discover_engagement", "repeat_song_rate", "repeat_rate"}

  function RenameLabel(n: string): string {
    if n == "discover_weekly_engagement" then "discover_engagement"
    else if n == "repeat_song_rate" then "repeat_rate"
    else n
  }

  function RenameColumns(t: Table): (r: Table)
    requires Valid(t)
    ensures Valid(r) && r.height == t.height && |r.columns| == |t.columns|
    ensures forall j :: 0 <= j < |t.columns| ==>
      r.columns[j].kind == t.columns[j].kind && r.columns[j].cells == t.columns[j].cells
    ensures forall j :: 0 <= j < |t.columns| ==>
      var n := t.columns[j].name;
      && (n == "discover_weekly_engagement" ==> r.columns[j].name == "discover_engagement")
      && (n == "repeat_song_rate" ==> r.columns[j].name == "repeat_rate")
      && (n != "discover_weekly_engagement" && n != "repeat_song_rate" ==> r.columns[j].name == n)
    ensures "discover_weekly_engagement" !in Names(r.columns) && "repeat_song_rate" !in Names(r.columns)
    ensures forall n :: n !in RenameTouched ==> (n in Names(r.columns) <==> n in Names(t.columns))
  {
    Table(seq(|t.columns|, j requires 0 <= j < |t.columns| =>
      t.columns[j].(name := RenameLabel(t.columns[j].name))), t.height)
  }

  // ---------------------------------------------------------------------------
  // Step 5: lower-case `listening_time` again (DAG.py:101)
  // ---------------------------------------------------------------------------

  const ListeningTime := "listening_time"

  /** `.str.lower()` on one cell; missing stays missing. */
  function LowerCell(c: Cell): (r: Cell)
    ensures r.Null? <==> !c.Text?
    ensures r.Text? ==> IsLower(r.s) && |r.s| == |c.s|
  {
    if c.Text? then Text(Lower(c.s)) else Null
  }

  /** `df['listening_time'] = df['listening_time'].str.lower()`: fails when the
      column is missing, ambiguous or numeric (no `.str` accessor). */
  function LowerListeningTime(t: Table): (r: Result<Table, Error>)
    requires Valid(t)
    ensures r.Ok? <==> KindIs(t, ListeningTime, TextKind) || KindIs(t, ListeningTime, CategoryKind)
    ensures r.Ok? ==> Valid(r.value) && r.value.height == t.height && Names(r.value.columns) == Names(t.columns)
    ensures r.Ok? ==> KindIs(r.value, ListeningTime, TextKind)
    ensures r.Ok? ==> forall k :: 0 <= k < |t.columns| && t.columns[k].name != ListeningTime ==>
                        r.value.columns[k] == t.columns[k]
    ensures r.Ok? ==>
      var j := Lookup(t.columns, ListeningTime).value;
      forall i :: 0 <= i < t.height ==>
        var before, after := t.columns[j].cells[i], r.value.columns[j].cells[i];
        && (before.Text? ==>
              && after.Text? && |after.s| == |before.s|
              && forall m :: 0 <= m < |before.s| ==> after.s[m] == LowerChar(before.s[m]))
        && (!before.Text? ==> after.Null?)
  {
    var j :- Lookup(t.columns, ListeningTime);
    var col := t.columns[j];
    if col.kind == NumKind then Err(NotText(ListeningTime))
    else
      var cells := seq(t.height, i requires 0 <= i < t.height => LowerCell(col.cells[i]));
      Ok(ReplaceColumn(t, j, Column(ListeningTime, TextKind, cells)))
  }

  /** After step 1 the second lower-casing changes nothing: a text column of
      clean cells is already lower-case. */
  lemma LowerListeningTimeNoOp(t: Table)
    requires Valid(t) && TextClean(t) && KindIs(t, ListeningTime, TextKind)
    ensures LowerListeningTime(t) == Ok(t)
  {
    var j := Lookup(t.columns, ListeningTime).value;
    var col := t.columns[j];
    var cells := seq(t.height, i requires 0 <= i < t.height => LowerCell(col.cells[i]));
    forall i | 0 <= i < t.height ensures cells[i] == col.cells[i] {
      assert CleanCell(col.cells[i]);
    }
    assert Column(ListeningTime, TextKind, cells) == col;
    assert t.columns[j := col] == t.columns;
  }

  // ---------------------------------------------------------------------------
  // Step 6: age groups (DAG.py:104-106)
  // ---------------------------------------------------------------------------

  const AgeName := "age"
  const AgeGroupName := "age_group"

  /** Row `i` of `t` has an age inside the bins, (0, 100]. */
  predicate AgeInRange(t: Table, i: nat)
    requires Valid(t) && Lookup(t.columns, AgeName).Ok? && i < t.height
  {
    var c := t.columns[Lookup(t.columns, AgeName).value].cells[i];
    c.Num? && 0.0 < c.v <= 100.0
  }

  /** The age-group column agrees with the age column row by row: its cell is
      missing exactly when the age is missing or outside (0, 100], and
      otherwise holds the label of the bin the age falls in. */
  predicate AgeGroupAligned(t: Table)
    requires Valid(t)
  {
    && Lookup(t.columns, AgeName).Ok?
    && ColumnWithin(t, AgeGroupName, LabelCells + {Null})
    && KindIs(t, AgeGroupName, CategoryKind)
    && (forall i :: 0 <= i < t.height ==>
         (t.columns[Lookup(t.columns, AgeGroupName).value].cells[i].Null? <==> !AgeInRange(t, i)))
    && (forall i, k :: 0 <= i < t.height && 0 <= k < 5 ==>
         var age := t.columns[Lookup(t.columns, AgeName).value].cells[i];
         age.Num? && InBin(age.v, k) ==>
           t.columns[Lookup(t.columns, AgeGroupName).value].cells[i] == Text(AgeLabels[k]))
  }

  /** `df['age_group'] = pd.cut(df['age'], bins, labels)`. An existing
      `age_group` label is overwritten in every column carrying it; the
      alignment with `age` is promised when the label ends up on one column. */
  function AddAgeGroup(t: Table): (r: Result<Table, Error>)
    requires Valid(t)
    ensures r.Ok? <==> KindIs(t, AgeName, NumKind)
    ensures Lookup(t.columns, AgeName).Err? ==> r == Err(Lookup(t.columns, AgeName).error)
    ensures Lookup(t.columns, AgeName).Ok? && r.Err? ==> r == Err(NotNumeric(AgeName))
    ensures r.Ok? ==> Valid(r.value) && r.value.height == t.height
    ensures r.Ok? && AgeGroupName in Names(t.columns) ==> Names(r.value.columns) == Names(t.columns)
    ensures r.Ok? && AgeGroupName !in Names(t.columns) ==> Names(r.value.columns) == Names(t.columns) + [AgeGroupName]
    ensures r.Ok? ==> forall k :: 0 <= k < |t.columns| && t.columns[k].name != AgeGroupName ==>
                        r.value.columns[k] == t.columns[k]
    ensures r.Ok? ==> forall k :: 0 <= k < |r.value.columns| && r.value.columns[k].name == AgeGroupName ==>
                        r.value.columns[k] == AgeGroupColumn(t, Lookup(t.columns, AgeName).value)
    ensures r.Ok? ==> (Lookup(r.value.columns, AgeGroupName).Ok? <==>
                       Lookup(t.columns, AgeGroupName) != Err(DuplicateColumn(AgeGroupName)))
    ensures r.Ok? && Lookup(r.value.columns, AgeGroupName).Ok? ==> AgeGroupAligned(r.value)
  {
    var j :- Lookup(t.columns, AgeName);
    if t.columns[j].kind != NumKind then Err(NotNumeric(AgeName))
    else
      var group := AgeGroupColumn(t, j);
      var r := SetColumn(t, group);
      if Lookup(r.columns, AgeGroupName).Ok? then
        GroupColumnAligned(t, j, group);
        Ok(r)
      else Ok(r)
  }

  /** The age group of every row, from the age column at position `j`. */
  function AgeGroupColumn(t: Table, j: nat): (c: Column)
    requires Valid(t) && j < |t.columns|
    ensures c.name == AgeGroupName && c.kind == CategoryKind && ColumnValid(c, t.height)
    ensures forall i :: 0 <= i < t.height ==> c.cells[i] == AgeGroupCell(t.columns[j].cells[i])
  {
    Column(AgeGroupName, CategoryKind, seq(t.height, i requires 0 <= i < t.height => AgeGroupCell(t.columns[j].cells[i])))
  }

  /** The age-group column built from the age column of `t`, once set, is
      aligned with it. */
  lemma GroupColumnAligned(t: Table, j: nat, group: Column)
    requires Valid(t) && Lookup(t.columns, AgeName) == Ok(j) && t.columns[j].kind == NumKind
    requires group.name == AgeGroupName && group.kind == CategoryKind && |group.cells| == t.height
    requires forall i :: 0 <= i < t.height ==> group.cells[i] == AgeGroupCell(t.columns[j].cells[i])
    requires ColumnValid(group, t.height) && Lookup(SetColumn(t, group).columns, AgeGroupName).Ok?
    ensures AgeGroupAligned(SetColumn(t, group))
  {
    var r := SetColumn(t, group);
    SetColumnLookup(t, group, AgeName);
    var g := Lookup(r.columns, AgeGroupName).value;
    assert r.columns[g] == group;
    assert forall i :: 0 <= i < r.height ==> r.columns[j].cells[i] == t.columns[j].cells[i];
  }

  // ---------------------------------------------------------------------------
  // Step 7: regions (DAG.py:109-116)
  // ---------------------------------------------------------------------------

  const CountryName := "country"
  const RegionName := "region"

  /** `df['region'] = df['country'].map(region_map).fillna('other')`. An
      existing `region` label is overwritten in every column carrying it; the
      row-by-row values are promised when the label ends up on one column. */
  function AddRegion(t: Table): (r: Result<Table, Error>)
    requires Valid(t)
    ensures r.Ok? <==> Lookup(t.columns, CountryName).Ok?
    ensures r.Err? ==> r == Err(Lookup(t.columns, CountryName).error)
    ensures r.Ok? ==> Valid(r.value) && r.value.height == t.height
    ensures r.Ok? && RegionName in Names(t.columns) ==> Names(r.value.columns) == Names(t.columns)
    ensures r.Ok? && RegionName !in Names(t.columns) ==> Names(r.value.columns) == Names(t.columns) + [RegionName]
    ensures r.Ok? ==> forall k :: 0 <= k < |t.columns| && t.columns[k].name != RegionName ==>
                        r.value.columns[k] == t.columns[k]
    ensures r.Ok? ==> forall k :: 0 <= k < |r.value.columns| && r.value.columns[k].name == RegionName ==>
                        r.value.columns[k] == RegionColumn(t, Lookup(t.columns, CountryName).value)
    ensures r.Ok? ==> (Lookup(r.value.columns, RegionName).Ok? <==>
                       Lookup(t.columns, RegionName) != Err(DuplicateColumn(RegionName)))
    ensures r.Ok? && Lookup(r.value.columns, RegionName).Ok? ==> ColumnWithin(r.value, RegionName, RegionCells)
    ensures r.Ok? && Lookup(r.value.columns, RegionName).Ok? ==> forall i :: 0 <= i < t.height ==>
      var country := t.columns[Lookup(t.columns, CountryName).value].cells[i];
      r.value.columns[Lookup(r.value.columns, RegionName).value].cells[i] == Text(RegionOf(country))
  {
    var j :- Lookup(t.columns, CountryName);
    Ok(SetColumn(t, RegionColumn(t, j)))
  }

  /** The region of every row, from the country column at position `j`. */
  function RegionColumn(t: Table, j: nat): (c: Column)
    requires Valid(t) && j < |t.columns|
    ensures c.name == RegionName && ColumnValid(c, t.height)
    ensures forall i :: 0 <= i < t.height ==> c.cells[i] == Text(RegionOf(t.columns[j].cells[i])) && c.cells[i] in RegionCells
  {
    Column(RegionName, TextKind, seq(t.height, i requires 0 <= i < t.height => Text(RegionOf(t.columns[j].cells[i]))))
  }

  // ---------------------------------------------------------------------------
  // Step 8: drop duplicate rows, keeping the first (DAG.py:119)
  // ---------------------------------------------------------------------------

  /** `drop_duplicates()`: the rows of the result are the de-duplicated rows. */
  function DropDuplicates(t: Table): (r: Table)
    requires Valid(t)
    ensures Valid(r) && r.height <= t.height && |r.columns| == |t.columns|
    ensures Rows(r) == Dedup(Rows(t))
    ensures Names(r.columns) == Names(t.columns)
    ensures forall j :: 0 <= j < |t.columns| ==> r.columns[j].kind == t.columns[j].kind
  {
    var idx := FirstIndices(Rows(t));
    SelectRowsRows(t, idx);
    PickFirstIndices(Rows(t));
    SelectRowsNames(t, idx);
    SelectRows(t, idx)
  }

  /** A table without repeated rows passes de-duplication unchanged. */
  lemma DropDuplicatesOfDistinct(t: Table)
    requires Valid(t) && Distinct(Rows(t))
    ensures DropDuplicates(t) == t
  {
    var d := DropDuplicates(t);
    DedupOfDistinct(Rows(t));
    assert d.height == t.height;
    forall j | 0 <= j < |t.columns| ensures d.columns[j] == t.columns[j] {
      forall i | 0 <= i < t.height ensures d.columns[j].cells[i] == t.columns[j].cells[i] {
        assert Rows(d)[i][j] == Rows(t)[i][j];
      }
      assert Names(d.columns)[j] == Names(t.columns)[j];
    }
  }

  /** Every input row survives de-duplication. */
  lemma DropDuplicatesKeepsRows(t: Table, i: nat)
    requires Valid(t) && i < t.height
    ensures exists m :: 0 <= m < DropDuplicates(t).height && Row(DropDuplicates(t), m) == Row(t, i)
  {
    var r := DropDuplicates(t);
    assert Rows(t)[i] in Rows(r);
    var m :| 0 <= m < |Rows(r)| && Rows(r)[m] == Rows(t)[i];
    assert Row(r, m) == Row(t, i);
  }

  // ---------------------------------------------------------------------------
  // Step 9: fill missing values (DAG.py:122-127)
  // ---------------------------------------------------------------------------

  predicate HasNull(cells: seq<Cell>) {
    exists i :: 0 <= i < |cells| && cells[i].Null?
  }

  /** The filler for a text column is `unknown`, for a numeric one `0`. */
  function FillValue(k: Kind): (r: Cell)
    requires k != CategoryKind
    ensures Fits(k, r) && !r.Null?
  {
    if k == TextKind then Text("unknown") else Num(0.0)
  }

  /** One turn of the fill loop: untouched without gaps; `fillna('unknown')`
      on an object column, `fillna(0)` otherwise, which a categorical column
      rejects because 0 is not one of its categories. */
  function FillColumn(col: Column): (r: Result<Column, Error>)
    ensures r.Err? <==> col.kind == CategoryKind && HasNull(col.cells)
    ensures r.Err? ==> r.error == CategoryFill(col.name)
    ensures r.Ok? ==> r.value.name == col.name && r.value.kind == col.kind && |r.value.cells| == |col.cells|
    ensures r.Ok? ==> forall i :: 0 <= i < |col.cells| ==>
      && !r.value.cells[i].Null?
      && (!col.cells[i].Null? ==> r.value.cells[i] == col.cells[i])
      && (col.cells[i].Null? ==> col.kind != CategoryKind && r.value.cells[i] == FillValue(col.kind))
  {
    if !HasNull(col.cells) then Ok(col)
    else if col.kind == CategoryKind then Err(CategoryFill(col.name))
    else
      var fill := FillValue(col.kind);
      Ok(col.(cells := seq(|col.cells|, i requires 0 <= i < |col.cells| =>
        if col.cells[i].Null? then fill else col.cells[i])))
  }

  /** Another column carries the label of column `j`. */
  predicate SharedLabel(cols: seq<Column>, j: nat)
    requires j < |cols|
  {
    exists k :: 0 <= k < |cols| && k != j && cols[k].name == cols[j].name
  }

  /** One turn of the loop at position `j`. On a label that another column
      shares, `df[col]` is a frame rather than a column, and testing its null
      count for truth fails whatever the cells hold. */
  function FillAt(cols: seq<Column>, j: nat): (r: Result<Column, Error>)
    requires j < |cols|
    ensures SharedLabel(cols, j) ==> r == Err(DuplicateColumn(cols[j].name))
    ensures !SharedLabel(cols, j) ==> r == FillColumn(cols[j])
  {
    LookupOwnLabel(cols, j);
    if Lookup(cols, cols[j].name).Err? then Err(DuplicateColumn(cols[j].name))
    else FillColumn(cols[j])
  }

  /** The loop over the columns from position `j` on, stopping at the first
      failure. */
  function FillFrom(cols: seq<Column>, j: nat): (r: Result<seq<Column>, Error>)
    requires j <= |cols|
    decreases |cols| - j
    ensures r.Ok? <==> forall k :: j <= k < |cols| ==> FillAt(cols, k).Ok?
    ensures r.Ok? ==> |r.value| == |cols| - j && forall k :: j <= k < |cols| ==> r.value[k - j] == FillAt(cols, k).value
    ensures r.Err? ==> exists k :: j <= k < |cols| && FillAt(cols, k) == Err(r.error) &&
                                   forall m :: j <= m < k ==> FillAt(cols, m).Ok?
  {
    if j == |cols| then Ok([])
    else
      var c :- FillAt(cols, j);
      var rest :- FillFrom(cols, j + 1);
      Ok([c] + rest)
  }

  /** Some categorical column has a gap. */
  predicate CategoryGap(t: Table) {
    exists j :: 0 <= j < |t.columns| && t.columns[j].kind == CategoryKind && HasNull(t.columns[j].cells)
  }

  /** Every turn of the loop succeeds exactly when the labels are distinct
      and no categorical column has a gap. */
  lemma FillTurnsSucceed(t: Table)
    ensures (forall j :: 0 <= j < |t.columns| ==> FillAt(t.columns, j).Ok?) <==>
            Distinct(Names(t.columns)) && !CategoryGap(t)
    ensures Distinct(Names(t.columns)) ==> forall j :: 0 <= j < |t.columns| ==> !SharedLabel(t.columns, j)
  {
    DistinctLabels(t.columns);
    forall j | 0 <= j < |t.columns|
      ensures FillAt(t.columns, j).Ok? <==> Lookup(t.columns, t.columns[j].name).Ok? && FillColumn(t.columns[j]).Ok?
    {
      LookupOwnLabel(t.columns, j);
    }
  }

  /** The fill loop succeeds exactly when the labels are distinct and no
      categorical column has a gap; a failure is the turn of the first column
      that fails, and names a repeated label or a categorical column. */
  function FillNulls(t: Table): (r: Result<Table, Error>)
    requires Valid(t)
    ensures r.Ok? <==> Distinct(Names(t.columns)) && !CategoryGap(t)
    ensures r.Err? ==>
      exists j :: 0 <= j < |t.columns| &&
        FillAt(t.columns, j) == Err(r.error) &&
        (forall m :: 0 <= m < j ==> FillAt(t.columns, m).Ok?) &&
        ((SharedLabel(t.columns, j) && r.error == DuplicateColumn(t.columns[j].name)) ||
         (t.columns[j].kind == CategoryKind && r.error == CategoryFill(t.columns[j].name)))
    ensures r.Ok? ==> Valid(r.value) && NoNulls(r.value) && r.value.height == t.height
    ensures r.Ok? ==> |r.value.columns| == |t.columns| && Names(r.value.columns) == Names(t.columns)
    ensures r.Ok? ==> forall j, i :: 0 <= j < |t.columns| && 0 <= i < t.height ==>
      var before, after := t.columns[j].cells[i], r.value.columns[j].cells[i];
      && r.value.columns[j].kind == t.columns[j].kind
      && (!before.Null? ==> after == before)
      && (before.Null? && t.columns[j].kind == TextKind ==> after == Text("unknown"))
      && (before.Null? && t.columns[j].kind == NumKind ==> after == Num(0.0))
  {
    FillTurnsSucceed(t);
    var cols :- FillFrom(t.columns, 0);
    forall j | 0 <= j < |t.columns| ensures cols[j] == FillColumn(t.columns[j]).value {
      assert cols[j - 0] == FillAt(t.columns, j).value;
    }
    FilledColumns(t, cols);
    Ok(Table(cols, t.height))
  }

  /** Filling every column of a valid table column by column gives a valid
      table without gaps, in which every present value is kept. */
  lemma FilledColumns(t: Table, cols: seq<Column>)
    requires Valid(t) && |cols| == |t.columns|
    requires forall j :: 0 <= j < |t.columns| ==> FillColumn(t.columns[j]).Ok? && cols[j] == FillColumn(t.columns[j]).value
    ensures var r := Table(cols, t.height);
      && Valid(r) && NoNulls(r) && Names(r.columns) == Names(t.columns)
      && forall j, i :: 0 <= j < |t.columns| && 0 <= i < t.height ==>
           var before, after := t.columns[j].cells[i], r.columns[j].cells[i];
           && r.columns[j].kind == t.columns[j].kind
           && (!before.Null? ==> after == before)
           && (before.Null? && t.columns[j].kind == TextKind ==> after == Text("unknown"))
           && (before.Null? && t.columns[j].kind == NumKind ==> after == Num(0.0))
  {
  }

  // ---------------------------------------------------------------------------
  // Step 10: type casts (DAG.py:130-134)
  // ---------------------------------------------------------------------------

  datatype Target = ToInt | ToFloat

  predicate IsIntegral(v: real) {
    v == v.Floor as real
  }

  /** `astype(int)` / `astype(float)` of one value: a number is truncated or
      kept, a string is parsed, a missing value cannot become an integer and
      stays missing as a float. */
  function CastCell(target: Target, c: Cell): (r: Option<Cell>)
    ensures r.Some? ==> Fits(NumKind, r.value) && (r.value.Null? <==> c.Null?)
    ensures r.Some? && target.ToInt? ==> r.value.Num? && IsIntegral(r.value.v)
    ensures c.Num? ==> r.Some?
    ensures c.Num? && target.ToFloat? ==> r.value == c
    ensures c.Num? && target.ToInt? ==> r.value == Num(Truncate(c.v) as real)
    ensures c.Text? && target.ToInt? ==> (r.Some? <==> ParseInt(c.s).Some?)
    ensures c.Text? && target.ToFloat? ==> (r.Some? <==> ParseDecimal(c.s).Some?)
    ensures c.Text? && target.ToInt? && ParseInt(c.s).Some? ==> r == Some(Num(ParseInt(c.s).value as real))
    ensures c.Text? && target.ToFloat? && ParseDecimal(c.s).Some? ==> r == Some(Num(ParseDecimal(c.s).value))
    ensures c.Null? ==> (r.Some? <==> target.ToFloat?)
  {
    match c
    case Num(v) => if target.ToInt? then Some(Num(Truncate(v) as real)) else Some(c)
    case Text(s) =>
      if target.ToInt? then
        (match ParseInt(s) case Some(n) => Some(Num(n as real)) case None => None)
      else
        (match ParseDecimal(s) case Some(x) => Some(Num(x)) case None => None)
    case Null => if target.ToInt? then None else Some(Null)
  }

  /** A printed integer casts back to its value, whichever the target. */
  lemma CastCellRoundTrip(target: Target, n: int)
    ensures CastCell(target, Text(IntToString(n))) == Some(Num(n as real))
  {
    ParseIntRoundTrip(n);
    if target.ToFloat? {
      ParseDecimalExtendsParseInt(IntToString(n));
    }
  }

  /** Text that casts to an integer casts to the same number as a float. */
  lemma CastCellTargetsAgree(s: string)
    requires CastCell(ToInt, Text(s)).Some?
    ensures CastCell(ToFloat, Text(s)) == CastCell(ToInt, Text(s))
  {
    ParseDecimalExtendsParseInt(s);
  }

  /** Casting is idempotent: a cast value casts to itself again. */
  lemma CastCellIdempotent(target: Target, c: Cell)
    requires CastCell(target, c).Some?
    ensures CastCell(target, CastCell(target, c).value) == CastCell(target, c)
  {
    var v := CastCell(target, c).value;
    if target.ToInt? {
      assert v.Num? && IsIntegral(v.v);
      TruncateWhole(v.v.Floor);
      assert CastCell(ToInt, v) == Some(Num(Truncate(v.v) as real));
    } else {
      assert v.Num? ==> CastCell(ToFloat, v) == Some(v);
    }
  }

  /** Casts a whole column; fails if any value fails. */
  function CastCells(target: Target, cells: seq<Cell>): (r: Option<seq<Cell>>)
    ensures r.Some? <==> forall i :: 0 <= i < |cells| ==> CastCell(target, cells[i]).Some?
    ensures r.Some? ==> |r.value| == |cells|
    ensures r.Some? ==> forall i :: 0 <= i < |cells| ==> CastCell(target, cells[i]) == Some(r.value[i])
  {
    if forall i :: 0 <= i < |cells| ==> CastCell(target, cells[i]).Some? then
      Some(seq(|cells|, i requires 0 <= i < |cells| => CastCell(target, cells[i]).value))
    else None
  }

  /** The values of column `name` are whole numbers. */
  predicate IntegralColumn(t: Table, name: string) {
    && Valid(t)
    && Lookup(t.columns, name).Ok?
    && forall i :: 0 <= i < t.height ==>
         var c := t.columns[Lookup(t.columns, name).value].cells[i];
         c.Num? && IsIntegral(c.v)
  }

  /** `df[name] = df[name].astype(...)`. */
  function CastColumn(t: Table, name: string, target: Target): (r: Result<Table, Error>)
    requires Valid(t)
    ensures r.Err? ==> r.error in {MissingColumn(name), DuplicateColumn(name), Coercion(name)}
    ensures Lookup(t.columns, name).Err? ==> r == Err(Lookup(t.columns, name).error)
    ensures Lookup(t.columns, name).Ok? ==>
      var j := Lookup(t.columns, name).value;
      && (r.Err? <==> exists i :: 0 <= i < t.height && CastCell(target, t.columns[j].cells[i]).None?)
      && (r.Err? ==> r.error == Coercion(name))
    ensures r.Ok? ==> Valid(r.value) && r.value.height == t.height && Names(r.value.columns) == Names(t.columns)
    ensures r.Ok? ==>
      var j := Lookup(t.columns, name).value;
      forall i :: 0 <= i < t.height ==> CastCell(target, t.columns[j].cells[i]) == Some(r.value.columns[j].cells[i])
    ensures r.Ok? ==> KindIs(r.value, name, NumKind)
    ensures r.Ok? ==> forall k :: 0 <= k < |t.columns| && t.columns[k].name != name ==>
                        r.value.columns[k] == t.columns[k]
    ensures r.Ok? && target == ToInt ==> IntegralColumn(r.value, name)
    ensures r.Ok? && NoNulls(t) ==> NoNulls(r.value)
  {
    var j :- Lookup(t.columns, name);
    match CastCells(target, t.columns[j].cells)
    case None => Err(Coercion(name))
    case Some(cells) =>
      var r := ReplaceColumn(t, j, Column(name, NumKind, cells));
      assert NoNulls(t) ==> forall i :: 0 <= i < t.height ==> !r.columns[j].cells[i].Null?;
      Ok(r)
  }

  /** A cast of one column leaves every fact about another column intact. */
  lemma CastColumnOthers(t: Table, name: string, target: Target, other: string)
    requires Valid(t) && CastColumn(t, name, target).Ok? && other != name
    ensures Lookup(CastColumn(t, name, target).value.columns, other) == Lookup(t.columns, other)
    ensures Lookup(t.columns, other).Ok? ==>
      var k := Lookup(t.columns, other).value;
      CastColumn(t, name, target).value.columns[k] == t.columns[k]
  {
    LookupAgree(t.columns, CastColumn(t, name, target).value.columns, other);
  }

  const IntColumns: seq<string> := ["age", "minutes_streamed_per_day", "number_of_songs_liked"]
  const FloatColumns: seq<string> := ["discover_engagement", "repeat_rate"]

  /** One line `df[name] = df[name].astype(...)` of step 10. */
  datatype Cast = Cast(name: string, target: Target)

  /** The five casts, in the order of the source. */
  const CastPlan: seq<Cast> := [
    Cast("age", ToInt), Cast("minutes_streamed_per_day", ToInt), Cast("number_of_songs_liked", ToInt),
    Cast("discover_engagement", ToFloat), Cast("repeat_rate", ToFloat)]

  function CastLabels(plan: seq<Cast>): (r: seq<string>)
    ensures |r| == |plan| && forall k :: 0 <= k < |plan| ==> r[k] == plan[k].name
  {
    seq(|plan|, k requires 0 <= k < |plan| => plan[k].name)
  }

  /** The plan casts the integer columns, then the float columns, each once. */
  lemma CastPlanLabels()
    ensures CastLabels(CastPlan) == IntColumns + FloatColumns
    ensures Distinct(CastLabels(CastPlan))
  {
    assert CastLabels(CastPlan) == IntColumns + FloatColumns;
  }

  /** The column of the cast is found once and every one of its cells converts. */
  predicate Castable(t: Table, c: Cast)
    requires Valid(t)
  {
    && Lookup(t.columns, c.name).Ok?
    && forall i :: 0 <= i < t.height ==> CastCell(c.target, t.columns[Lookup(t.columns, c.name).value].cells[i]).Some?
  }

  /** The column of the cast sits in `r` where it sits in `t`, and holds, cell
      by cell, the cast of the column of `t`. */
  predicate CastInto(t: Table, r: Table, c: Cast)
    requires Valid(t) && Valid(r) && r.height == t.height && |r.columns| == |t.columns|
  {
    && Lookup(t.columns, c.name).Ok?
    && Lookup(r.columns, c.name) == Lookup(t.columns, c.name)
    && forall i :: 0 <= i < t.height ==>
         CastCell(c.target, t.columns[Lookup(t.columns, c.name).value].cells[i]) ==
         Some(r.columns[Lookup(t.columns, c.name).value].cells[i])
  }

  /** `plan[k]` is the first cast of the plan that does not apply to `t`. */
  predicate FirstFailing(t: Table, plan: seq<Cast>, k: nat)
    requires Valid(t)
  {
    && k < |plan|
    && !Castable(t, plan[k])
    && forall m :: 0 <= m < k ==> Castable(t, plan[m])
  }

  /** One cast succeeds exactly when its column is castable, and then casts
      that column in place. */
  lemma CastColumnExact(t: Table, c: Cast)
    requires Valid(t)
    ensures CastColumn(t, c.name, c.target).Ok? <==> Castable(t, c)
    ensures CastColumn(t, c.name, c.target).Ok? ==> CastInto(t, CastColumn(t, c.name, c.target).value, c)
  {
    var r := CastColumn(t, c.name, c.target);
    if r.Ok? {
      LookupSameNames(t.columns, r.value.columns, c.name);
    }
  }

  /** The casts of `plan`, left to right; the first failure ends the chain. */
  function CastChain(t: Table, plan: seq<Cast>): (r: Result<Table, Error>)
    requires Valid(t)
    decreases |plan|
    ensures r.Ok? ==> Valid(r.value) && r.value.height == t.height && Names(r.value.columns) == Names(t.columns)
    ensures r.Ok? && NoNulls(t) ==> NoNulls(r.value)
    ensures r.Ok? ==> forall k :: 0 <= k < |t.columns| && t.columns[k].name !in CastLabels(plan) ==>
                        r.value.columns[k] == t.columns[k]
  {
    if |plan| == 0 then Ok(t)
    else
      var t1 :- CastColumn(t, plan[0].name, plan[0].target);
      assert CastLabels(plan[1..]) == CastLabels(plan)[1..];
      CastChain(t1, plan[1..])
  }

  /** The first label of a list without repeats does not occur again. */
  lemma HeadNotInTail(s: seq<string>)
    requires Distinct(s) && |s| > 0
    ensures s[0] !in s[1..] && Distinct(s[1..])
  {
    assert forall i :: 0 <= i < |s| - 1 ==> s[1..][i] == s[i + 1];
  }

  /** The first cast of a plan without repeated labels leaves every later
      cast as it found it: same column, same position, same outcome. */
  lemma CastStepKeeps(t: Table, plan: seq<Cast>)
    requires Valid(t) && Distinct(CastLabels(plan)) && |plan| > 0
    requires CastColumn(t, plan[0].name, plan[0].target).Ok?
    ensures var t1 := CastColumn(t, plan[0].name, plan[0].target).value;
      forall k :: 1 <= k < |plan| ==>
        && Lookup(t1.columns, plan[k].name) == Lookup(t.columns, plan[k].name)
        && (Lookup(t.columns, plan[k].name).Ok? ==>
              t1.columns[Lookup(t.columns, plan[k].name).value] == t.columns[Lookup(t.columns, plan[k].name).value])
        && (Castable(t1, plan[k]) <==> Castable(t, plan[k]))
        && (CastColumn(t1, plan[k].name, plan[k].target).Err? ==>
              CastColumn(t1, plan[k].name, plan[k].target).error == CastColumn(t, plan[k].name, plan[k].target).error)
  {
    var c := plan[0];
    var t1 := CastColumn(t, c.name, c.target).value;
    forall k | 1 <= k < |plan|
      ensures Lookup(t1.columns, plan[k].name) == Lookup(t.columns, plan[k].name)
      ensures Lookup(t.columns, plan[k].name).Ok? ==>
                t1.columns[Lookup(t.columns, plan[k].name).value] == t.columns[Lookup(t.columns, plan[k].name).value]
      ensures Castable(t1, plan[k]) <==> Castable(t, plan[k])
      ensures CastColumn(t1, plan[k].name, plan[k].target).Err? ==>
                CastColumn(t1, plan[k].name, plan[k].target).error == CastColumn(t, plan[k].name, plan[k].target).error
    {
      assert CastLabels(plan)[k] != CastLabels(plan)[0];
      CastColumnOthers(t, c.name, c.target, plan[k].name);
    }
  }

  /** Every cast of the plan applies to `t`. */
  predicate AllCastable(t: Table, plan: seq<Cast>)
    requires Valid(t)
  {
    forall k :: 0 <= k < |plan| ==> Castable(t, plan[k])
  }

  /** Every column of the plan is cast in place from `t` to `r`. */
  predicate AllCastInto(t: Table, r: Table, plan: seq<Cast>)
    requires Valid(t) && Valid(r) && r.height == t.height && |r.columns| == |t.columns|
  {
    forall k :: 0 <= k < |plan| ==> CastInto(t, r, plan[k])
  }

  /** After a successful first cast, the rest of the plan applies to the
      result exactly when it applied to the input, and its first failure is
      the first failure of the whole plan, with the same error. */
  lemma CastStepShift(t: Table, plan: seq<Cast>)
    requires Valid(t) && Distinct(CastLabels(plan)) && |plan| > 0
    requires CastColumn(t, plan[0].name, plan[0].target).Ok? && Castable(t, plan[0])
    ensures var t1 := CastColumn(t, plan[0].name, plan[0].target).value;
      AllCastable(t, plan) <==> AllCastable(t1, plan[1..])
    ensures var t1 := CastColumn(t, plan[0].name, plan[0].target).value;
      forall k: nat :: FirstFailing(t1, plan[1..], k) ==>
        && FirstFailing(t, plan, k + 1)
        && CastColumn(t1, plan[1..][k].name, plan[1..][k].target).error ==
           CastColumn(t, plan[k + 1].name, plan[k + 1].target).error
  {
    var t1 := CastColumn(t, plan[0].name, plan[0].target).value;
    CastStepKeeps(t, plan);
    forall k | 0 <= k < |plan| - 1 ensures plan[1..][k] == plan[k + 1] {
    }
    forall k: nat | FirstFailing(t1, plan[1..], k)
      ensures FirstFailing(t, plan, k + 1)
      ensures CastColumn(t1, plan[1..][k].name, plan[1..][k].target).error ==
              CastColumn(t, plan[k + 1].name, plan[k + 1].target).error
    {
      CastColumnExact(t1, plan[k + 1]);
      forall m | 0 <= m < k + 1 ensures Castable(t, plan[m]) {
        if m > 0 {
          assert Castable(t1, plan[1..][m - 1]);
        }
      }
    }
  }

  /** With distinct labels the casts of a plan are independent: the chain
      succeeds exactly when every cast applies to the input, casts every
      column in place, and otherwise reports the first cast that fails. */
  lemma {:induction false} CastChainExact(t: Table, plan: seq<Cast>)
    requires Valid(t) && Distinct(CastLabels(plan))
    decreases |plan|
    ensures CastChain(t, plan).Ok? <==> AllCastable(t, plan)
    ensures CastChain(t, plan).Ok? ==> AllCastInto(t, CastChain(t, plan).value, plan)
    ensures CastChain(t, plan).Err? ==>
      exists k: nat :: FirstFailing(t, plan, k) && CastChain(t, plan).error == CastColumn(t, plan[k].name, plan[k].target).error
  {
    if |plan| == 0 {
      return;
    }
    var c := plan[0];
    CastColumnExact(t, c);
    var s := CastColumn(t, c.name, c.target);
    if s.Err? {
      assert FirstFailing(t, plan, 0);
      return;
    }
    var t1, rest := s.value, plan[1..];
    assert CastLabels(rest) == CastLabels(plan)[1..];
    HeadNotInTail(CastLabels(plan));
    CastChainExact(t1, rest);
    CastStepShift(t, plan);
    var r := CastChain(t1, rest);
    assert CastChain(t, plan) == r;
    if r.Ok? {
      CastChainOk(t, t1, r.value, plan);
    } else {
      var k: nat :| FirstFailing(t1, rest, k) && r.error == CastColumn(t1, rest[k].name, rest[k].target).error;
      assert FirstFailing(t, plan, k + 1);
    }
  }

  /** The successful case of the induction: the first cast and the casts of
      the rest together cast every column of the plan. */
  lemma CastChainOk(t: Table, t1: Table, r: Table, plan: seq<Cast>)
    requires Valid(t) && Distinct(CastLabels(plan)) && |plan| > 0
    requires CastColumn(t, plan[0].name, plan[0].target) == Ok(t1)
    requires CastInto(t, t1, plan[0])
    requires Valid(r) && r.height == t.height && Names(r.columns) == Names(t1.columns)
    requires forall k :: 0 <= k < |t1.columns| && t1.columns[k].name !in CastLabels(plan[1..]) ==> r.columns[k] == t1.columns[k]
    requires plan[0].name !in CastLabels(plan[1..])
    requires AllCastInto(t1, r, plan[1..])
    ensures AllCastInto(t, r, plan)
  {
    var c := plan[0];
    var j0 := Lookup(t.columns, c.name).value;
    CastStepKeeps(t, plan);
    LookupSameNames(t1.columns, r.columns, c.name);
    assert r.columns[j0] == t1.columns[j0];
    forall k | 1 <= k < |plan| ensures CastInto(t, r, plan[k]) {
      assert CastInto(t1, r, plan[1..][k - 1]);
    }
  }

  /** Step 10: the five casts of the plan. They succeed exactly when each of
      the five labels is found once and every cell of its column converts;
      each column is then the cast of the input column, cell by cell, and a
      failure is the error of the first cast that does not apply. */
  function CastColumns(t: Table): (r: Result<Table, Error>)
    requires Valid(t)
    ensures r.Ok? <==> AllCastable(t, CastPlan)
    ensures r.Ok? ==> Valid(r.value) && r.value.height == t.height && Names(r.value.columns) == Names(t.columns)
    ensures r.Ok? ==> AllCastInto(t, r.value, CastPlan)
    ensures r.Ok? ==> forall k :: 0 <= k < |t.columns| && t.columns[k].name !in IntColumns + FloatColumns ==>
                        r.value.columns[k] == t.columns[k]
    ensures r.Ok? && NoNulls(t) ==> NoNulls(r.value)
    ensures r.Err? ==>
      exists k: nat :: FirstFailing(t, CastPlan, k) && r.error == CastColumn(t, CastPlan[k].name, CastPlan[k].target).error
  {
    CastPlanLabels();
    CastChainExact(t, CastPlan);
    CastChain(t, CastPlan)
  }

  /** The casts touch only their own five columns. */
  lemma CastColumnsOthers(t: Table, other: string)
    requires Valid(t) && CastColumns(t).Ok?
    requires other !in IntColumns + FloatColumns
    ensures Lookup(CastColumns(t).value.columns, other) == Lookup(t.columns, other)
    ensures Lookup(t.columns, other).Ok? ==>
      var k := Lookup(t.columns, other).value;
      CastColumns(t).value.columns[k] == t.columns[k]
  {
    LookupSameNames(t.columns, CastColumns(t).value.columns, other);
  }

  /** A column cast to integers holds whole numbers. */
  lemma IntegralFromCast(t: Table, r: Table, c: Cast)
    requires Valid(t) && Valid(r) && r.height == t.height && |r.columns| == |t.columns|
    requires CastInto(t, r, c) && c.target == ToInt
    ensures IntegralColumn(r, c.name)
  {
    var j := Lookup(t.columns, c.name).value;
    forall i | 0 <= i < r.height ensures r.columns[j].cells[i].Num? && IsIntegral(r.columns[j].cells[i].v) {
      assert CastCell(ToInt, t.columns[j].cells[i]).Some?;
    }
  }

  /** After the casts the three integer columns hold whole numbers. */
  lemma CastColumnsIntegral(t: Table)
    requires Valid(t) && CastColumns(t).Ok?
    ensures IntegralColumn(CastColumns(t).value, "age")
    ensures IntegralColumn(CastColumns(t).value, "minutes_streamed_per_day")
    ensures IntegralColumn(CastColumns(t).value, "number_of_songs_liked")
  {
    var r := CastColumns(t).value;
    IntegralFromCast(t, r, CastPlan[0]);
    IntegralFromCast(t, r, CastPlan[1]);
    IntegralFromCast(t, r, CastPlan[2]);
  }

  // ---------------------------------------------------------------------------
  // The whole stage
  // ---------------------------------------------------------------------------

  const UserId := "user_id"

  /** Steps 2 to 4 touch labels only, so cleanliness survives them. */
  lemma TidyKeepsClean(t: Table)
    requires Valid(t) && TextClean(t)
    ensures TextClean(NormalizeColumnNames(t))
    ensures TextClean(DropColumn(t, UserId))
    ensures TextClean(RenameColumns(t))
  {
    var d := DropColumn(t, UserId);
    forall j, i | 0 <= j < |d.columns| && d.columns[j].kind == TextKind && 0 <= i < |d.columns[j].cells|
      ensures CleanCell(d.columns[j].cells[i])
    {
      assert d.columns[j] in t.columns;
    }
  }

  /** Renaming neither introduces nor removes `user_id`. */
  lemma RenameKeepsUserId(t: Table)
    requires Valid(t)
    ensures UserId in Names(RenameColumns(t).columns) <==> UserId in Names(t.columns)
  {
    assert UserId !in RenameTouched;
  }

  /** What the CSV reader hands to the transform: a well-formed table whose
      header labels are distinct, since the reader renames a repeated header
      (`a`, `a.1`). On a repeated text label step 1 would fail, because
      `df[c]` is then a frame with no string accessor; the reader rules that
      out. */
  ghost predicate Staged(t: Table) {
    Valid(t) && Distinct(Names(t.columns))
  }

  /** Steps 1 to 4: the steps that cannot fail on a staged table. */
  function Tidy(t: Table): (r: Table)
    requires Staged(t)
    ensures Valid(r) && r.height == t.height
    ensures UserId !in Names(r.columns)
    ensures TextClean(r)
  {
    var t1 := CleanTextColumns(t);
    var t2 := NormalizeColumnNames(t1);
    TidyKeepsClean(t1);
    var t3 := DropColumn(t2, UserId);
    RemoveNamedNames(t2.columns, UserId);
    TidyKeepsClean(t2);
    RenameKeepsUserId(t3);
    TidyKeepsClean(t3);
    RenameColumns(t3)
  }

  /** Steps 5 to 7: the second lower-casing and the two derived fields. */
  function Derive(t: Table): (r: Result<Table, Error>)
    requires Valid(t)
    ensures r.Ok? ==> Valid(r.value) && r.value.height == t.height
  {
    var t5 :- LowerListeningTime(t);
    var t6 :- AddAgeGroup(t5);
    AddRegion(t6)
  }

  /** Steps 1 to 7. */
  function Prepare(t: Table): (r: Result<Table, Error>)
    requires Staged(t)
    ensures r.Ok? ==> Valid(r.value) && r.value.height == t.height
  {
    Derive(Tidy(t))
  }

  /** Steps 8 to 10: de-duplication, gap filling and casts. */
  function Finish(p: Table): (r: Result<Table, Error>)
    requires Valid(p)
    ensures r.Ok? ==> Valid(r.value) && NoNulls(r.value) && r.value.height <= p.height
  {
    var d := DropDuplicates(p);
    var f :- FillNulls(d);
    CastColumns(f)
  }

  /** The transform stage: a pure function of the staged table. */
  function Transform(t: Table): (r: Result<Table, Error>)
    requires Staged(t)
    ensures r.Ok? ==> Valid(r.value) && NoNulls(r.value) && r.value.height <= t.height
  {
    var p :- Prepare(t);
    Finish(p)
  }

  /** What the derived-field steps leave behind. */
  predicate Prepared(p: Table) {
    && Valid(p)
    && AgeGroupAligned(p)
    && ColumnWithin(p, RegionName, RegionCells)
    && UserId !in Names(p.columns)
  }

  /** Adding the region column does not disturb the age columns. */
  lemma AddRegionKeepsAligned(t: Table)
    requires Valid(t) && AgeGroupAligned(t) && AddRegion(t).Ok?
    ensures AgeGroupAligned(AddRegion(t).value)
  {
    var region := RegionColumn(t, Lookup(t.columns, CountryName).value);
    assert AddRegion(t) == Ok(SetColumn(t, region));
    SetColumnLookup(t, region, AgeName);
    SetColumnLookup(t, region, AgeGroupName);
    var r := AddRegion(t).value;
    var a, g := Lookup(t.columns, AgeName).value, Lookup(t.columns, AgeGroupName).value;
    assert r.columns[a] == t.columns[a] && r.columns[g] == t.columns[g];
    AlignedBySameColumns(t, r);
  }

  /** Alignment only depends on the age and age-group columns. */
  lemma AlignedBySameColumns(t: Table, r: Table)
    requires Valid(t) && Valid(r) && AgeGroupAligned(t) && r.height == t.height
    requires Lookup(r.columns, AgeName) == Lookup(t.columns, AgeName)
    requires Lookup(r.columns, AgeGroupName) == Lookup(t.columns, AgeGroupName)
    requires r.columns[Lookup(t.columns, AgeName).value] == t.columns[Lookup(t.columns, AgeName).value]
    requires r.columns[Lookup(t.columns, AgeGroupName).value] == t.columns[Lookup(t.columns, AgeGroupName).value]
    ensures AgeGroupAligned(r)
  {
    forall i | 0 <= i < t.height ensures AgeInRange(r, i) == AgeInRange(t, i) {
    }
  }

  /** Setting a column leaves every other label's presence as it was. */
  lemma SetKeepsLabel(before: seq<string>, after: seq<string>, added: string, n: string)
    requires after == before || after == before + [added]
    requires n != added
    ensures n in after <==> n in before
  {
  }

  /** A label other than the two derived ones is present after steps 5 to 7
      exactly when it was present before. */
  lemma DeriveKeepsLabel(t: Table, n: string)
    requires Valid(t) && Derive(t).Ok? && n != AgeGroupName && n != RegionName
    ensures n in Names(Derive(t).value.columns) <==> n in Names(t.columns)
  {
    var t5 := LowerListeningTime(t).value;
    var t6 := AddAgeGroup(t5).value;
    SetKeepsLabel(Names(t5.columns), Names(t6.columns), AgeGroupName, n);
    var p := AddRegion(t6).value;
    SetKeepsLabel(Names(t6.columns), Names(p.columns), RegionName, n);
    assert Derive(t).value == p;
  }

  /** When the derived labels end up on one column each, the age groups line
      up with the ages and the regions are drawn from the region names. */
  lemma DeriveAligned(t: Table)
    requires Valid(t) && Derive(t).Ok? && Distinct(Names(Derive(t).value.columns))
    ensures AgeGroupAligned(Derive(t).value)
    ensures ColumnWithin(Derive(t).value, RegionName, RegionCells)
  {
    var t5 := LowerListeningTime(t).value;
    var t6 := AddAgeGroup(t5).value;
    var p := AddRegion(t6).value;
    assert Derive(t).value == p;
    assert AgeGroupName in Names(t6.columns);
    assert AgeGroupName in Names(p.columns);
    assert RegionName in Names(p.columns);
    LookupPresent(p.columns, AgeGroupName);
    LookupPresent(p.columns, RegionName);
    SetColumnLookup(t6, RegionColumn(t6, Lookup(t6.columns, CountryName).value), AgeGroupName);
    AddRegionKeepsAligned(t6);
  }

  lemma DeriveShape(t: Table)
    requires Valid(t) && UserId !in Names(t.columns) && Derive(t).Ok?
    requires Distinct(Names(Derive(t).value.columns))
    ensures Prepared(Derive(t).value)
  {
    DeriveKeepsLabel(t, UserId);
    DeriveAligned(t);
  }

  /** Once the derived labels are distinct, the prepared table is settled:
      aligned age groups, known regions, no `user_id`. */
  lemma PrepareShape(t: Table)
    requires Staged(t) && Prepare(t).Ok? && Distinct(Names(Prepare(t).value.columns))
    ensures Prepared(Prepare(t).value)
  {
    DeriveShape(Tidy(t));
  }

  /** The fill succeeds only on distinct labels, so a finished table came from
      a prepared table whose labels were distinct. */
  lemma FinishDistinct(p: Table)
    requires Valid(p) && Finish(p).Ok?
    ensures Distinct(Names(p.columns))
  {
    assert FillNulls(DropDuplicates(p)).Ok?;
  }

  /** Filling keeps a column within its value set, minus the missing value. */
  lemma FillKeepsWithin(d: Table, name: string, allowed: set<Cell>)
    requires Valid(d) && FillNulls(d).Ok?
    requires ColumnWithin(d, name, allowed)
    requires KindIs(d, name, CategoryKind) || Null !in allowed
    ensures ColumnWithin(FillNulls(d).value, name, allowed - {Null})
  {
    LookupSameNames(d.columns, FillNulls(d).value.columns, name);
    var g := Lookup(d.columns, name).value;
    if KindIs(d, name, CategoryKind) {
      assert !HasNull(d.columns[g].cells);
    }
  }

  /** De-duplication and filling leave the derived columns inside their
      value sets, and the age group no longer has gaps. */
  lemma FilledShape(p: Table)
    requires Valid(p) && FillNulls(DropDuplicates(p)).Ok?
    requires ColumnWithin(p, AgeGroupName, LabelCells + {Null}) && KindIs(p, AgeGroupName, CategoryKind)
    requires ColumnWithin(p, RegionName, RegionCells)
    ensures ColumnWithin(FillNulls(DropDuplicates(p)).value, AgeGroupName, LabelCells)
    ensures ColumnWithin(FillNulls(DropDuplicates(p)).value, RegionName, RegionCells)
  {
    var idx := FirstIndices(Rows(p));
    var d := DropDuplicates(p);
    assert d == SelectRows(p, idx);
    SelectRowsWithin(p, idx, AgeGroupName, LabelCells + {Null});
    SelectRowsWithin(p, idx, RegionName, RegionCells);
    NullOutsideValueSets();
    FillKeepsWithin(d, AgeGroupName, LabelCells + {Null});
    FillKeepsWithin(d, RegionName, RegionCells);
  }

  /** Neither derived value set contains the missing value. */
  lemma NullOutsideValueSets()
    ensures Null !in RegionCells && RegionCells - {Null} == RegionCells
    ensures LabelCells + {Null} - {Null} == LabelCells
  {
    assert Null !in LabelCells;
  }

  lemma FinishNames(p: Table)
    requires Valid(p) && Finish(p).Ok?
    ensures Names(Finish(p).value.columns) == Names(p.columns)
  {
    var d := DropDuplicates(p);
    var f := FillNulls(d).value;
    assert Finish(p) == CastColumns(f);
  }

  lemma FinishIntegral(p: Table)
    requires Valid(p) && Finish(p).Ok?
    ensures IntegralColumn(Finish(p).value, "age")
    ensures IntegralColumn(Finish(p).value, "minutes_streamed_per_day")
    ensures IntegralColumn(Finish(p).value, "number_of_songs_liked")
  {
    var f := FillNulls(DropDuplicates(p)).value;
    assert Finish(p) == CastColumns(f);
    CastColumnsIntegral(f);
  }

  lemma FinishWithin(p: Table)
    requires Valid(p) && Finish(p).Ok?
    requires ColumnWithin(p, AgeGroupName, LabelCells + {Null}) && KindIs(p, AgeGroupName, CategoryKind)
    requires ColumnWithin(p, RegionName, RegionCells)
    ensures ColumnWithin(Finish(p).value, AgeGroupName, LabelCells)
    ensures ColumnWithin(Finish(p).value, RegionName, RegionCells)
  {
    var f := FillNulls(DropDuplicates(p)).value;
    assert ColumnWithin(f, AgeGroupName, LabelCells) && ColumnWithin(f, RegionName, RegionCells) by {
      FilledShape(p);
    }
    assert Finish(p) == CastColumns(f);
    DerivedNotCast();
    CastKeepsWithin(f, AgeGroupName, LabelCells);
    CastKeepsWithin(f, RegionName, RegionCells);
  }

  /** The derived columns are not among the cast columns. */
  lemma DerivedNotCast()
    ensures AgeGroupName !in IntColumns + FloatColumns
    ensures RegionName !in IntColumns + FloatColumns
  {
  }

  lemma CastKeepsWithin(f: Table, name: string, allowed: set<Cell>)
    requires Valid(f) && CastColumns(f).Ok? && name !in IntColumns + FloatColumns
    requires ColumnWithin(f, name, allowed)
    ensures ColumnWithin(CastColumns(f).value, name, allowed)
  {
    CastColumnsOthers(f, name);
  }

  /** A successful transform yields the canonical table: nothing missing, the
      derived fields present and drawn from their fixed value sets, `user_id`
      gone, the integer columns whole, and no more rows than the input. */
  lemma TransformCanonical(t: Table)
    requires Staged(t) && Transform(t).Ok?
    ensures Valid(Transform(t).value) && NoNulls(Transform(t).value)
    ensures ColumnWithin(Transform(t).value, AgeGroupName, LabelCells)
    ensures ColumnWithin(Transform(t).value, RegionName, RegionCells)
    ensures UserId !in Names(Transform(t).value.columns)
    ensures IntegralColumn(Transform(t).value, "age")
    ensures IntegralColumn(Transform(t).value, "minutes_streamed_per_day")
    ensures IntegralColumn(Transform(t).value, "number_of_songs_liked")
    ensures Transform(t).value.height <= t.height
  {
    var p := Prepare(t).value;
    assert Transform(t) == Finish(p);
    FinishDistinct(p);
    PrepareShape(t);
    FinishNames(p);
    FinishIntegral(p);
    FinishWithin(p);
  }

  /** A row whose age is missing or outside (0, 100] gets no age group, and
      the gap makes the fill step fail on the categorical column, whatever
      the other rows hold: the whole run aborts. */
  lemma TransformAgeGapFails(t: Table, i: nat)
    requires Staged(t) && Prepare(t).Ok? && Lookup(Prepare(t).value.columns, AgeName).Ok?
    requires i < Prepare(t).value.height && !AgeInRange(Prepare(t).value, i)
    ensures Transform(t).Err?
  {
    var p := Prepare(t).value;
    assert Transform(t) == Finish(p);
    if Distinct(Names(p.columns)) {
      PrepareShape(t);
      AgeGapBlocksFill(p, i);
    } else if Finish(p).Ok? {
      FinishDistinct(p);
    }
  }

  lemma AgeGapBlocksFill(p: Table, i: nat)
    requires Prepared(p) && i < p.height && !AgeInRange(p, i)
    ensures Finish(p).Err?
  {
    var g := Lookup(p.columns, AgeGroupName).value;
    assert p.columns[g].cells[i].Null?;
    NullCategoryBlocksFinish(p, g, i);
  }

  /** A gap in any categorical column makes the fill, and so the finish, fail. */
  lemma NullCategoryBlocksFinish(p: Table, g: nat, i: nat)
    requires Valid(p) && g < |p.columns| && i < p.height
    requires p.columns[g].kind == CategoryKind && p.columns[g].cells[i].Null?
    ensures Finish(p).Err?
  {
    var d := DropDuplicates(p);
    DropDuplicatesKeepsRows(p, i);
    var m :| 0 <= m < d.height && Row(d, m) == Row(p, i);
    assert d.columns[g].cells[m] == Row(d, m)[g];
    assert d.columns[g].kind == CategoryKind;
    assert HasNull(d.columns[g].cells);
    assert CategoryGap(d);
  }


  /** Step 5 repeats work: on the output of steps 1 to 4 a text
      `listening_time` column is already lower-case, so it changes nothing. */
  lemma LowerListeningTimeRedundant(t: Table)
    requires Staged(t) && KindIs(Tidy(t), ListeningTime, TextKind)
    ensures LowerListeningTime(Tidy(t)) == Ok(Tidy(t))
  {
    LowerListeningTimeNoOp(Tidy(t));
  }

  /** De-duplication runs before the fill, so two rows it keeps apart can
      become identical afterwards: a missing genre and the text `unknown`. */
  lemma FillAfterDedupMerges()
    ensures Valid(GenreGap)
    ensures DropDuplicates(GenreGap).height == 2
    ensures FillNulls(DropDuplicates(GenreGap)).Ok?
    ensures Row(FillNulls(DropDuplicates(GenreGap)).value, 0) == Row(FillNulls(DropDuplicates(GenreGap)).value, 1)
  {
    GenreGapShape();
    DropDuplicatesOfDistinct(GenreGap);
    FillMergesRows(GenreGap);
  }

  /** In a one-column text table, a gap and the text `unknown` fill to the
      same row. */
  lemma FillMergesRows(t: Table)
    requires Valid(t) && |t.columns| == 1 && t.height == 2 && FillNulls(t).Ok?
    requires t.columns[0].kind == TextKind && t.columns[0].cells == [Null, Text("unknown")]
    ensures Row(FillNulls(t).value, 0) == Row(FillNulls(t).value, 1)
  {
    var f := FillNulls(t).value;
    assert f.columns[0].cells[0] == Text("unknown");
    assert f.columns[0].cells[1] == Text("unknown");
    assert Row(f, 0) == [f.columns[0].cells[0]] && Row(f, 1) == [f.columns[0].cells[1]];
  }

  /** Two rows of one text column: a missing genre and the text `unknown`. */
  const GenreGap := Table([Column("top_genre", TextKind, [Null, Text("unknown")])], 2)

  lemma GenreGapShape()
    ensures Valid(GenreGap) && Distinct(Rows(GenreGap))
    ensures Distinct(Names(GenreGap.columns)) && !CategoryGap(GenreGap)
  {
    assert Row(GenreGap, 0) == [Null] && Row(GenreGap, 1) == [Text("unknown")];
  }

  // ---------------------------------------------------------------------------
  // When the transform succeeds
  // ---------------------------------------------------------------------------

  /** The column of a cast is present once, has no gaps, and every cell of it
      converts. */
  predicate CastReady(t: Table, c: Cast)
    requires Valid(t)
  {
    && Castable(t, c)
    && forall i :: 0 <= i < t.height ==> !t.columns[Lookup(t.columns, c.name).value].cells[i].Null?
  }

  predicate AllCastReady(t: Table)
    requires Valid(t)
  {
    forall k :: 0 <= k < |CastPlan| ==> CastReady(t, CastPlan[k])
  }

  /** Selecting rows keeps a column ready for its cast. */
  lemma CastReadyRows(p: Table, idx: seq<nat>, c: Cast)
    requires Valid(p) && forall m :: 0 <= m < |idx| ==> idx[m] < p.height
    requires CastReady(p, c)
    ensures CastReady(SelectRows(p, idx), c)
  {
    var d := SelectRows(p, idx);
    SelectRowsNames(p, idx);
    LookupSameNames(p.columns, d.columns, c.name);
    var j := Lookup(p.columns, c.name).value;
    forall m | 0 <= m < |idx|
      ensures CastCell(c.target, d.columns[j].cells[m]).Some? && !d.columns[j].cells[m].Null?
    {
      assert d.columns[j].cells[m] == p.columns[j].cells[idx[m]];
    }
  }

  /** Selecting rows creates no gap in a categorical column. */
  lemma CategoryGapRows(p: Table, idx: seq<nat>)
    requires Valid(p) && forall m :: 0 <= m < |idx| ==> idx[m] < p.height
    requires !CategoryGap(p)
    ensures !CategoryGap(SelectRows(p, idx))
  {
    var d := SelectRows(p, idx);
    forall j, m | 0 <= j < |d.columns| && d.columns[j].kind == CategoryKind && 0 <= m < |d.columns[j].cells|
      ensures !d.columns[j].cells[m].Null?
    {
      assert d.columns[j].cells[m] == p.columns[j].cells[idx[m]];
      assert !HasNull(p.columns[j].cells);
    }
  }

  /** The fill keeps a complete column as it is. */
  lemma CastReadyFill(d: Table, c: Cast)
    requires Valid(d) && FillNulls(d).Ok? && CastReady(d, c)
    ensures CastReady(FillNulls(d).value, c)
  {
    LookupSameNames(d.columns, FillNulls(d).value.columns, c.name);
  }

  /** Steps 8 to 10 go through on a table with distinct labels, no gap in a
      categorical column, and each of the five cast columns complete and
      convertible. */
  lemma FinishSucceeds(p: Table)
    requires Valid(p) && Distinct(Names(p.columns)) && !CategoryGap(p) && AllCastReady(p)
    ensures Finish(p).Ok?
  {
    var idx := FirstIndices(Rows(p));
    var d := DropDuplicates(p);
    assert d == SelectRows(p, idx);
    forall k | 0 <= k < |CastPlan| ensures CastReady(d, CastPlan[k]) {
      CastReadyRows(p, idx, CastPlan[k]);
    }
    CategoryGapRows(p, idx);
    var f := FillNulls(d).value;
    forall k | 0 <= k < |CastPlan| ensures Castable(f, CastPlan[k]) {
      CastReadyFill(d, CastPlan[k]);
    }
    assert AllCastable(f, CastPlan);
    assert Finish(p) == CastColumns(f);
  }

  /** A label that step 2 leaves as it is. */
  predicate CleanLabel(n: string) {
    ' ' !in n && IsLower(n) && !HasMarker(n)
  }

  /** A staged table that steps 1 to 4 leave as they find it: clean text,
      clean labels, no `user_id`, and the engagement columns already under
      their new labels. */
  ghost predicate Settled(t: Table) {
    && Staged(t)
    && TextClean(t)
    && (forall j :: 0 <= j < |t.columns| ==> CleanLabel(t.columns[j].name))
    && UserId !in Names(t.columns)
    && "discover_weekly_engagement" !in Names(t.columns)
    && "repeat_song_rate" !in Names(t.columns)
  }

  /** Steps 1 to 4 change nothing on a settled table. */
  lemma TidyOfSettled(t: Table)
    requires Settled(t)
    ensures Tidy(t) == t
  {
    var t1 := CleanTextColumns(t);
    forall j | 0 <= j < |t.columns| ensures t1.columns[j] == t.columns[j] {
      if t.columns[j].kind == TextKind {
        forall i | 0 <= i < t.height ensures t1.columns[j].cells[i] == t.columns[j].cells[i] {
          var c := t.columns[j].cells[i];
          assert CleanCell(c);
          if c.Text? {
            StripTrimmed(c.s);
          }
        }
      }
    }
    assert t1 == t;
    var t2 := NormalizeColumnNames(t1);
    assert t2 == t;
    var t3 := DropColumn(t2, UserId);
    assert t3 == t;
    var t4 := RenameColumns(t3);
    forall j | 0 <= j < |t.columns| ensures t4.columns[j] == t.columns[j] {
      assert Names(t.columns)[j] == t.columns[j].name;
    }
    assert t4 == t;
  }

  /** Step 6 on a table with a numeric `age` and no `age_group` appends the
      age-group column. */
  lemma AddAgeGroupAppends(t: Table)
    requires Valid(t) && KindIs(t, AgeName, NumKind) && AgeGroupName !in Names(t.columns)
    ensures AddAgeGroup(t) == Ok(Table(t.columns + [AgeGroupColumn(t, Lookup(t.columns, AgeName).value)], t.height))
  {
    var g := AgeGroupColumn(t, Lookup(t.columns, AgeName).value);
    assert SetColumn(t, g) == AppendColumn(t, g);
  }

  /** Step 7 on a table with a `country` and no `region` appends the region
      column. */
  lemma AddRegionAppends(t: Table)
    requires Valid(t) && Lookup(t.columns, CountryName).Ok? && RegionName !in Names(t.columns)
    ensures AddRegion(t) == Ok(Table(t.columns + [RegionColumn(t, Lookup(t.columns, CountryName).value)], t.height))
  {
    var reg := RegionColumn(t, Lookup(t.columns, CountryName).value);
    assert SetColumn(t, reg) == AppendColumn(t, reg);
  }

  /** Steps 5 to 7 on a clean table with a numeric `age`, a text
      `listening_time` and a `country`, and neither derived label yet: the
      listening time is left as it is and the age group and region are
      appended, in that order. */
  lemma DeriveAppends(t: Table)
    requires Valid(t) && TextClean(t) && KindIs(t, ListeningTime, TextKind) && KindIs(t, AgeName, NumKind)
    requires Lookup(t.columns, CountryName).Ok?
    requires AgeGroupName !in Names(t.columns) && RegionName !in Names(t.columns)
    ensures Derive(t).Ok?
    ensures Derive(t).value == Table(t.columns + [AgeGroupColumn(t, Lookup(t.columns, AgeName).value),
                                                  RegionColumn(t, Lookup(t.columns, CountryName).value)], t.height)
  {
    LowerListeningTimeNoOp(t);
    AddAgeGroupAppends(t);
    RegionAfterAgeGroup(t, AgeGroupColumn(t, Lookup(t.columns, AgeName).value));
  }

  /** Step 7 after the age group was appended appends the region of the
      original rows. */
  lemma RegionAfterAgeGroup(t: Table, g: Column)
    requires Valid(t) && ColumnValid(g, t.height) && g.name == AgeGroupName
    requires Lookup(t.columns, CountryName).Ok? && RegionName !in Names(t.columns)
    ensures AddRegion(Table(t.columns + [g], t.height)) ==
            Ok(Table(t.columns + [g, RegionColumn(t, Lookup(t.columns, CountryName).value)], t.height))
  {
    var t6 := Table(t.columns + [g], t.height);
    var c := Lookup(t.columns, CountryName).value;
    assert Valid(t6) && Lookup(t6.columns, CountryName) == Ok(c) && RegionName !in Names(t6.columns) by {
      LookupAppend(t.columns, g, CountryName);
      assert Names(t6.columns) == Names(t.columns) + [AgeGroupName];
    }
    var reg := RegionColumn(t, c);
    AddRegionAppends(t6);
    RegionColumnPrefix(t, g, c);
    assert AddRegion(t6) == Ok(Table(t6.columns + [reg], t.height));
    AppendTwo(t.columns, g, reg);
  }

  /** Appending two columns one at a time or together gives the same list. */
  lemma AppendTwo(cols: seq<Column>, a: Column, b: Column)
    ensures (cols + [a]) + [b] == cols + [a, b]
  {
  }

  /** The region column only reads the rows of the country column, so an
      appended column does not change it. */
  lemma RegionColumnPrefix(t: Table, g: Column, c: nat)
    requires Valid(t) && ColumnValid(g, t.height) && c < |t.columns|
    ensures Valid(Table(t.columns + [g], t.height))
    ensures RegionColumn(Table(t.columns + [g], t.height), c) == RegionColumn(t, c)
  {
    var t6 := Table(t.columns + [g], t.height);
    assert t6.columns[c] == t.columns[c];
  }

  /** A list without repeats stays so when a new element is added. */
  lemma DistinctSnoc(s: seq<string>, x: string)
    requires Distinct(s) && x !in s
    ensures Distinct(s + [x])
  {
  }

  /** Appending a categorical column without gaps and a column of another
      kind creates no categorical gap. */
  lemma AppendedNoGap(t: Table, g: Column, reg: Column)
    requires Valid(t) && !CategoryGap(t)
    requires g.kind == CategoryKind && !HasNull(g.cells) && reg.kind != CategoryKind
    ensures !CategoryGap(Table(t.columns + [g, reg], t.height))
  {
    var p := Table(t.columns + [g, reg], t.height);
    forall j | 0 <= j < |p.columns| && p.columns[j].kind == CategoryKind
      ensures !HasNull(p.columns[j].cells)
    {
      if j < |t.columns| {
        assert p.columns[j] == t.columns[j];
      }
    }
  }

  /** Appending the two derived columns leaves every cast column ready. */
  lemma AppendedCastReady(t: Table, g: Column, reg: Column)
    requires Valid(t) && ColumnValid(g, t.height) && ColumnValid(reg, t.height) && AllCastReady(t)
    requires g.name == AgeGroupName && reg.name == RegionName
    ensures Valid(Table(t.columns + [g, reg], t.height))
    ensures AllCastReady(Table(t.columns + [g, reg], t.height))
  {
    var p := Table(t.columns + [g, reg], t.height);
    assert p.columns == (t.columns + [g]) + [reg];
    forall k | 0 <= k < |CastPlan| ensures CastReady(p, CastPlan[k]) {
      var c := CastPlan[k];
      assert c.name != AgeGroupName && c.name != RegionName;
      LookupAppend(t.columns, g, c.name);
      LookupAppend(t.columns + [g], reg, c.name);
      assert CastReady(t, c);
    }
  }

  /** The age-group column of a table whose ages all lie in the bins has no
      gaps. */
  lemma AgeGroupColumnComplete(t: Table)
    requires Valid(t) && KindIs(t, AgeName, NumKind)
    requires forall i :: 0 <= i < t.height ==> AgeInRange(t, i)
    ensures !HasNull(AgeGroupColumn(t, Lookup(t.columns, AgeName).value).cells)
  {
    var g := AgeGroupColumn(t, Lookup(t.columns, AgeName).value);
    forall i | 0 <= i < t.height ensures !g.cells[i].Null? {
      assert AgeInRange(t, i);
    }
  }

  /** After steps 5 to 7 the conditions of the finish hold, given that they
      held for the columns of the input and every age lies in the bins. */
  lemma DerivedReady(t: Table)
    requires Valid(t) && TextClean(t) && KindIs(t, ListeningTime, TextKind) && KindIs(t, AgeName, NumKind)
    requires Lookup(t.columns, CountryName).Ok?
    requires AgeGroupName !in Names(t.columns) && RegionName !in Names(t.columns)
    requires Distinct(Names(t.columns)) && !CategoryGap(t) && AllCastReady(t)
    requires forall i :: 0 <= i < t.height ==> AgeInRange(t, i)
    ensures Derive(t).Ok?
    ensures Distinct(Names(Derive(t).value.columns)) && !CategoryGap(Derive(t).value) && AllCastReady(Derive(t).value)
  {
    DeriveAppends(t);
    var g := AgeGroupColumn(t, Lookup(t.columns, AgeName).value);
    var reg := RegionColumn(t, Lookup(t.columns, CountryName).value);
    var p := Table(t.columns + [g, reg], t.height);
    assert Names(p.columns) == (Names(t.columns) + [AgeGroupName]) + [RegionName];
    DistinctSnoc(Names(t.columns), AgeGroupName);
    DistinctSnoc(Names(t.columns) + [AgeGroupName], RegionName);
    AgeGroupColumnComplete(t);
    AppendedNoGap(t, g, reg);
    AppendedCastReady(t, g, reg);
  }

  /** What a settled table needs for steps 5 to 10 to go through: the
      columns steps 5 to 7 read, of the kind they need, every age in
      (0, 100], the country column, no column under the labels steps 6 and 7
      add, no categorical gap, and every cast ready. */
  ghost predicate Transformable(t: Table) {
    && Settled(t)
    && KindIs(t, ListeningTime, TextKind) && KindIs(t, AgeName, NumKind)
    && (forall i :: 0 <= i < t.height ==> AgeInRange(t, i))
    && Lookup(t.columns, CountryName).Ok?
    && AgeGroupName !in Names(t.columns) && RegionName !in Names(t.columns)
    && !CategoryGap(t) && AllCastReady(t)
  }

  /** A settled listener table goes through the whole transform when the
      columns the steps read are there, `listening_time` as text and `age`
      as numbers inside (0, 100], no categorical column has a gap, and the
      five cast columns are complete and convertible. */
  lemma TransformSucceeds(t: Table)
    requires Transformable(t)
    ensures Transform(t).Ok?
  {
    TidyOfSettled(t);
    DerivedReady(t);
    FinishSucceeds(Derive(t).value);
    assert Transform(t) == Finish(Derive(t).value);
  }

  /** A one-row listener record, as the extraction hands it over, with the
      seven columns the steps read. */
  function ListenerRow(age: real, country: string, time: string, minutes: real,
                       songs: real, engagement: real, rate: real): (t: Table)
    ensures Valid(t) && t.height == 1 && Names(t.columns) == ListenerLabels
  {
    Table([
      Column("age", NumKind, [Num(age)]),
      Column("country", TextKind, [Text(country)]),
      Column("listening_time", TextKind, [Text(time)]),
      Column("minutes_streamed_per_day", NumKind, [Num(minutes)]),
      Column("number_of_songs_liked", NumKind, [Num(songs)]),
      Column("discover_engagement", NumKind, [Num(engagement)]),
      Column("repeat_rate", NumKind, [Num(rate)])], 1)
  }

  const ListenerLabels: seq<string> := ["age", "country", "listening_time", "minutes_streamed_per_day",
                                        "number_of_songs_liked", "discover_engagement", "repeat_rate"]

  /** A label without an opening parenthesis carries no `(%)`. */
  lemma NoParenNoMarker(n: string)
    requires '(' !in n
    ensures !HasMarker(n)
  {
    assert forall i :: 0 <= i < |n| ==> n[i] != '(';
  }

  /** A label with no space, no capital and no opening parenthesis is clean. */
  lemma CleanLabelOf(n: string)
    requires '(' !in n && ' ' !in n && IsLower(n)
    ensures CleanLabel(n)
  {
    NoParenNoMarker(n);
  }

  lemma ShortLabelsClean()
    ensures CleanLabel("age") && CleanLabel("country") && CleanLabel("listening_time") && CleanLabel("repeat_rate")
  {
    CleanLabelOf("age");
    CleanLabelOf("country");
    CleanLabelOf("listening_time");
    CleanLabelOf("repeat_rate");
  }

  lemma MinutesLabelClean()
    ensures CleanLabel("minutes_streamed_per_day")
  {
    CleanLabelOf("minutes_streamed_per_day");
  }

  lemma SongsLabelClean()
    ensures CleanLabel("number_of_songs_liked")
  {
    CleanLabelOf("number_of_songs_liked");
  }

  lemma EngagementLabelClean()
    ensures CleanLabel("discover_engagement")
  {
    CleanLabelOf("discover_engagement");
  }

  /** The seven labels are distinct, and none is a label steps 3, 4, 7 or 8
      write or remove. */
  lemma ListenerLabelsDistinct()
    ensures Distinct(ListenerLabels)
    ensures UserId !in ListenerLabels && AgeGroupName !in ListenerLabels && RegionName !in ListenerLabels
    ensures "discover_weekly_engagement" !in ListenerLabels && "repeat_song_rate" !in ListenerLabels
  {
  }

  /** The seven labels are clean. */
  lemma ListenerLabelsClean()
    ensures forall j :: 0 <= j < |ListenerLabels| ==> CleanLabel(ListenerLabels[j])
  {
    ShortLabelsClean();
    MinutesLabelClean();
    SongsLabelClean();
    EngagementLabelClean();
  }

  /** Columns carrying the seven labels, in order, answer each lookup the
      steps make with the column that has the label. */
  lemma ListenerLookups(cols: seq<Column>)
    requires Names(cols) == ListenerLabels
    ensures Lookup(cols, AgeName) == Ok(0)
    ensures Lookup(cols, CountryName) == Ok(1)
    ensures Lookup(cols, ListeningTime) == Ok(2)
    ensures Lookup(cols, "minutes_streamed_per_day") == Ok(3)
    ensures Lookup(cols, "number_of_songs_liked") == Ok(4)
    ensures Lookup(cols, "discover_engagement") == Ok(5)
    ensures Lookup(cols, "repeat_rate") == Ok(6)
  {
    ListenerLabelsDistinct();
    LookupDistinctLabel(cols, 0);
    LookupDistinctLabel(cols, 1);
    LookupDistinctLabel(cols, 2);
    LookupDistinctLabel(cols, 3);
    LookupDistinctLabel(cols, 4);
    LookupDistinctLabel(cols, 5);
    LookupDistinctLabel(cols, 6);
  }

  /** A listener record with clean text is staged and settled. */
  lemma ListenerRowSettled(age: real, country: string, time: string, minutes: real,
                           songs: real, engagement: real, rate: real)
    requires CleanCell(Text(country)) && CleanCell(Text(time))
    ensures Staged(ListenerRow(age, country, time, minutes, songs, engagement, rate))
    ensures Settled(ListenerRow(age, country, time, minutes, songs, engagement, rate))
  {
    var t := ListenerRow(age, country, time, minutes, songs, engagement, rate);
    assert Names(t.columns) == ListenerLabels;
    ListenerLabelsClean();
    ListenerLabelsDistinct();
    assert forall j :: 0 <= j < |t.columns| ==> t.columns[j].name == ListenerLabels[j];
  }

  /** Steps 5 and 6 find their columns, of the kind they need, with the age
      in range. */
  lemma ListenerRowReadable(age: real, country: string, time: string, minutes: real,
                            songs: real, engagement: real, rate: real)
    requires 0.0 < age <= 100.0
    ensures var t := ListenerRow(age, country, time, minutes, songs, engagement, rate);
      && KindIs(t, ListeningTime, TextKind) && KindIs(t, AgeName, NumKind)
      && Lookup(t.columns, AgeName).Ok? && (forall i :: 0 <= i < t.height ==> AgeInRange(t, i))
      && Lookup(t.columns, CountryName).Ok?
  {
    var t := ListenerRow(age, country, time, minutes, songs, engagement, rate);
    assert Names(t.columns) == ListenerLabels;
    ListenerLookups(t.columns);
  }

  /** A column found once and holding only numbers is ready for either cast. */
  lemma NumericCastReady(t: Table, c: Cast, j: nat)
    requires Valid(t) && Lookup(t.columns, c.name) == Ok(j)
    requires forall i :: 0 <= i < t.height ==> t.columns[j].cells[i].Num?
    ensures CastReady(t, c)
  {
  }

  /** Over the seven labels, each of the five casts finds its column once;
      when that column holds only numbers, the cast is ready. */
  lemma ListenerCastReady(t: Table, k: nat)
    requires Valid(t) && Names(t.columns) == ListenerLabels && k < |CastPlan|
    requires forall j, i :: 0 <= j < |t.columns| && j != 1 && j != 2 && 0 <= i < t.height ==> t.columns[j].cells[i].Num?
    ensures CastReady(t, CastPlan[k])
  {
    var j := if k == 0 then 0 else k + 2;
    ListenerLabelsDistinct();
    LookupDistinctLabel(t.columns, j);
    assert CastPlan[k].name == ListenerLabels[j];
    NumericCastReady(t, CastPlan[k], j);
  }

  /** The five casts find their column once, with no gap and a convertible cell. */
  lemma ListenerRowCastReady(age: real, country: string, time: string, minutes: real,
                             songs: real, engagement: real, rate: real)
    ensures AllCastReady(ListenerRow(age, country, time, minutes, songs, engagement, rate))
  {
    var t := ListenerRow(age, country, time, minutes, songs, engagement, rate);
    assert Names(t.columns) == ListenerLabels;
    forall k | 0 <= k < |CastPlan| ensures CastReady(t, CastPlan[k]) {
      ListenerCastReady(t, k);
    }
  }

  /** A listener record with clean text and its age in (0, 100] meets
      every condition steps 5 to 10 need. */
  lemma ListenerRowTransformable(age: real, country: string, time: string, minutes: real,
                                 songs: real, engagement: real, rate: real)
    requires 0.0 < age <= 100.0
    requires CleanCell(Text(country)) && CleanCell(Text(time))
    ensures Transformable(ListenerRow(age, country, time, minutes, songs, engagement, rate))
  {
    var t := ListenerRow(age, country, time, minutes, songs, engagement, rate);
    ListenerRowSettled(age, country, time, minutes, songs, engagement, rate);
    ListenerRowReadable(age, country, time, minutes, songs, engagement, rate);
    ListenerRowCastReady(age, country, time, minutes, songs, engagement, rate);
    ListenerLabelsDistinct();
    assert !CategoryGap(t);
  }

  /** The transform succeeds on every one-row listener record whose text is
      lower-case and trimmed and whose age lies in (0, 100]. */
  lemma ListenerRowTransforms(age: real, country: string, time: string, minutes: real,
                              songs: real, engagement: real, rate: real)
    requires 0.0 < age <= 100.0
    requires CleanCell(Text(country)) && CleanCell(Text(time))
    ensures Staged(ListenerRow(age, country, time, minutes, songs, engagement, rate))
    ensures Transform(ListenerRow(age, country, time, minutes, songs, engagement, rate)).Ok?
  {
    ListenerRowSettled(age, country, time, minutes, songs, engagement, rate);
    ListenerRowTransformable(age, country, time, minutes, songs, engagement, rate);
    TransformSucceeds(ListenerRow(age, country, time, minutes, songs, engagement, rate));
  }

  /** A thirty-year-old in the USA who listens in the morning: the whole
      transform goes through. */
  lemma MorningListenerTransforms()
    ensures Transform(ListenerRow(30.0, "usa", "morning", 120.0, 45.0, 0.5, 0.25)).Ok?
  {
    assert IsLower("usa") && Trimmed("usa") && IsLower("morning") && Trimmed("morning");
    ListenerRowTransforms(30.0, "usa", "morning", 120.0, 45.0, 0.5, 0.25);
  }

}
