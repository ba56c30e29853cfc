/** The emitted statements of a table agree: what one writes the others find, field by field. */
module EmitterRoundTrip {
  import opened Sequences
  import opened Schemas
  import opened Options
  import opened EmitSources
  import opened SqlMeaning

  lemma ValidNames(fields: seq<FieldDef>)
    requires ValidFields(fields)
    ensures DistinctNames(fields) && DistinctNames(Stored(fields)) && DistinctNames(Bound(fields))
    ensures forall f :: f in Stored(fields) ==> Word(f.name) && f.name != "rowid"
    ensures forall f :: f in Bound(fields) ==> f in Stored(fields) && !f.autoIncrement && Word(f.name)
  {
    forall f, g | f in fields && g in fields && f.name == g.name ensures f == g {
      var i :| 0 <= i < |fields| && fields[i] == f;
      var j :| 0 <= j < |fields| && fields[j] == g;
      assert ColumnNames(fields)[i] == ColumnNames(fields)[j];
    }
    forall f ensures f in Stored(fields) <==> f in fields && !f.typ.TypeSubtable?
             ensures f in Bound(fields) <==> f in Stored(fields) && !f.autoIncrement
    {
      StoredExactly(fields, f);
    }
  }

  lemma SourceParts(td: TableDef)
    requires ValidTable(td)
    ensures var src, stored, bound := SourceOf(td), Stored(td.fields), Bound(td.fields);
      && src.created == Declared(stored)
      && src.columns == Join(ColumnNames(stored), ", ") && src.updateColumns == Join(ColumnNames(bound), ", ")
      && src.marks == Join(Marks(|bound|), ",") && src.marksForce == Join(Marks(|stored|), ",")
      && src.insertBinders == Binders(bound, "insert") && src.updateBinders == Binders(bound + [ROWID], "update")
      && src.forceBinders == Binders(stored, "insert_force")
      && src.readers == Readers(stored) && src.fetched == Autos(td.fields)
      && |src.customs| == |td.customs|
      && forall i :: 0 <= i < |td.customs| ==> src.customs[i] == CustomOf(td.fields, td.customs[i])
  {
  }

  // ----- the table that CREATE TABLE makes -----

  /** The AUTOINCR column, as SQL knows it. */
  function AliasOf(td: TableDef): (r: seq<string>) {
    FoldAll(Autos(td.fields))
  }

  function TableFor(td: TableDef): (t: Table) {
    Table(ColumnKeys(Stored(td.fields)), AliasOf(td))
  }

  function TableOf(sql: Sqlite, td: TableDef): (t: Option<Table>)
    requires ValidTable(td)
  {
    CreateTable(sql, td.name, SourceOf(td).created)
  }

  /**
   There is a column, neither the table nor a column has a reserved name, no two columns differ in case alone, and
   the AUTOINCR column is an INT.
   */
  ghost predicate Creatable(sql: Sqlite, td: TableDef) {
    && Stored(td.fields) != [] && TableNamed(sql, td.name) && DistinctKeys(Stored(td.fields))
    && forall f :: f in Stored(td.fields) ==> Fold(f.name) !in sql.reserved && (f.autoIncrement ==> f.typ.TypeInt?)
  }

  lemma AutoKeysMore(decls: seq<ColumnDecl>, d: ColumnDecl)
    ensures AutoKeys(decls + [d]) == AutoKeys(decls) + if d.autoIncrement then [Fold(d.name)] else []
  {
    assert (decls + [d])[..|decls|] == decls;
  }

  lemma FoldAllMore(names: seq<string>, name: string)
    ensures FoldAll(names + [name]) == FoldAll(names) + [Fold(name)]
  {
    hide Fold;
  }

  lemma {:induction false} AutoKeysAre(fields: seq<FieldDef>)
    ensures AutoKeys(Declared(Stored(fields))) == FoldAll(Autos(fields))
  {
    if fields != [] {
      var n := |fields| - 1;
      var front, f := fields[..n], fields[n];
      assert fields == front + [f];
      hide Fold, SqliteCreateType, FoldAll, AutoKeys, Declared, Stored, Autos, Bound;
      AutoKeysAre(front);
      StoredStep(front, f);
      ListStep(Stored(front), f, "");
      AutoKeysMore(Declared(Stored(front)), DeclFor(f));
      FoldAllMore(Autos(front), f.name);
    }
  }

  lemma {:induction false} StoredNoDup(fields: seq<FieldDef>)
    requires NoDup(ColumnNames(fields))
    ensures NoDup(ColumnNames(Stored(fields)))
  {
    if fields != [] {
      var n := |fields| - 1;
      var front := Stored(fields[..n]);
      assert ColumnNames(fields[..n]) == ColumnNames(fields)[..n];
      StoredNoDup(fields[..n]);
      forall i | 0 <= i < |front| ensures front[i].name != fields[n].name {
        StoredExactly(fields[..n], front[i]);
        var j :| 0 <= j < n && fields[j] == front[i];
        assert ColumnNames(fields)[j] != ColumnNames(fields)[n];
      }
    }
  }

  lemma DistinctPairs(fields: seq<FieldDef>)
    requires NoDup(ColumnNames(fields))
    ensures DistinctKeys(fields) <==>
      forall i, j :: 0 <= i < j < |fields| ==> Fold(fields[i].name) != Fold(fields[j].name)
  {
    hide Fold;
    if DistinctKeys(fields) {
      forall i, j | 0 <= i < j < |fields| ensures Fold(fields[i].name) != Fold(fields[j].name) {
        assert ColumnNames(fields)[i] != ColumnNames(fields)[j];
      }
    } else {
      var f, g :| f in fields && g in fields && Fold(f.name) == Fold(g.name) && f != g;
      var i :| 0 <= i < |fields| && fields[i] == f;
      var j :| 0 <= j < |fields| && fields[j] == g;
      if i < j {
        assert Fold(fields[i].name) == Fold(fields[j].name);
      } else {
        assert Fold(fields[j].name) == Fold(fields[i].name);
      }
    }
  }

  lemma AutosAtMostOne(fields: seq<FieldDef>)
    requires ValidFields(fields)
    ensures |Autos(fields)| <= 1
  {
    hide ValidFields;
    var autos, stored := Autos(fields), Stored(fields);
    if |autos| > 1 { TwoAutos(fields); }
  }

  lemma {:induction false} TwoAutos(fields: seq<FieldDef>)
    requires |Autos(fields)| > 1
    ensures !ValidFields(fields)
  {
    var n := |fields| - 1;
    if |Autos(fields[..n])| > 1 {
      TwoAutos(fields[..n]);
      if ValidFields(fields) { ValidFront(fields, n); }
    } else {
      var name := Autos(fields[..n])[0];
      AutosExactly(fields[..n], name);
      var f :| f in Stored(fields[..n]) && f.autoIncrement && f.name == name;
      StoredExactly(fields[..n], f);
      var j :| 0 <= j < n && fields[j] == f;
      if ValidFields(fields) { SameAuto(fields, j, n); }
    }
  }

  lemma SameAuto(fields: seq<FieldDef>, i: nat, j: nat)
    requires ValidFields(fields) && i < |fields| && j < |fields| && fields[i].autoIncrement && fields[j].autoIncrement
    ensures i == j
  {
    var names := ColumnNames(fields);
    assert fields[i] in fields && fields[j] in fields;
    assert names[i] == names[j];
  }

  lemma ValidFront(fields: seq<FieldDef>, n: nat)
    requires ValidFields(fields) && n <= |fields|
    ensures ValidFields(fields[..n])
  {
    assert forall f :: f in fields[..n] ==> f in fields;
    var names := ColumnNames(fields[..n]);
    forall i, j | 0 <= i < j < |names| ensures names[i] != names[j] {
      assert ColumnNames(fields)[i] != ColumnNames(fields)[j];
    }
  }

  lemma AcceptedExactly(sql: Sqlite, name: string, fields: seq<FieldDef>)
    requires NoDup(ColumnNames(fields)) && |AutoKeys(Declared(fields))| <= 1
    ensures Accepted(sql, name, Declared(fields)) <==>
      && fields != [] && TableNamed(sql, name) && DistinctKeys(fields)
      && forall f :: f in fields ==>
           Fold(f.name) !in sql.reserved && (f.autoIncrement ==> SqliteCreateType(f.typ) == "integer")
  {
    DistinctPairs(fields);
    hide Fold, SqliteCreateType, AutoKeys, TableNamed, DistinctKeys;
    var decls := Declared(fields);
    if Accepted(sql, name, decls) {
      forall f | f in fields
        ensures Fold(f.name) !in sql.reserved && (f.autoIncrement ==> SqliteCreateType(f.typ) == "integer")
      {
        var i :| 0 <= i < |fields| && fields[i] == f;
        assert decls[i] == DeclFor(f);
      }
    } else {
      assert forall i :: 0 <= i < |fields| ==> decls[i] == DeclFor(fields[i]) && fields[i] in fields;
    }
  }

  lemma IntegerAuto(fields: seq<FieldDef>, f: FieldDef)
    requires ValidFields(fields) && f in Stored(fields) && f.autoIncrement
    ensures SqliteCreateType(f.typ) == "integer" <==> f.typ.TypeInt?
  {
    hide ValidFields;
    StoredExactly(fields, f);
    AutoIsInt(fields, f);
    assert "int64"[3] != "integer"[3];
  }

  /** The emitted CREATE TABLE makes the table exactly when its names and its AUTOINCR column allow it. */
  lemma CreatedExactly(sql: Sqlite, td: TableDef)
    requires ValidTable(td)
    ensures TableOf(sql, td) == if Creatable(sql, td) then Some(TableFor(td)) else None
  {
    var stored := Stored(td.fields);
    assert NoDup(ColumnNames(td.fields));
    hide Fold, SourceOf, AutoKeys, Autos, ValidFields, SqliteCreateType, TableNamed, DistinctKeys, Accepted, NoDup;
    SourceParts(td);
    StoredNoDup(td.fields);
    AutoKeysAre(td.fields);
    AutosAtMostOne(td.fields);
    AcceptedExactly(sql, td.name, stored);
    forall f | f in stored && f.autoIncrement
      ensures SqliteCreateType(f.typ) == "integer" <==> f.typ.TypeInt?
    {
      IntegerAuto(td.fields, f);
    }
    assert DeclKeys(Declared(stored)) == ColumnKeys(stored);
  }

  /** No column is called rowid, in any case, but the AUTOINCR column, which is the rowid. */
  ghost predicate RowidFree(fields: seq<FieldDef>) {
    forall f :: f in fields && Fold(f.name) == "rowid" ==> f.autoIncrement
  }

  /** Then `rowid` means the rowid in every statement. */
  lemma RowidResolves(td: TableDef, id: int, row: Row)
    requires ValidTable(td) && RowidFree(Stored(td.fields))
    ensures RowidCell(TableFor(td), id, row) == Integer(id)
  {
    hide Fold, ValidFields;
    var stored, autos := Stored(td.fields), Autos(td.fields);
    if "rowid" in ColumnKeys(stored) {
      var i :| 0 <= i < |stored| && Fold(stored[i].name) == "rowid";
      assert stored[i] in stored;
      AutosExactly(td.fields, stored[i].name);
      AutosAtMostOne(td.fields);
      var j :| 0 <= j < |autos| && autos[j] == stored[i].name;
      assert AliasOf(td) == ["rowid"];
    }
  }

  lemma StoredAreColumns(td: TableDef)
    ensures Columns(TableFor(td), Stored(td.fields)) && Columns(TableFor(td), Bound(td.fields))
  {
    hide Fold;
    var stored := Stored(td.fields);
    forall f | f in stored ensures Fold(f.name) in ColumnKeys(stored) {
      var i :| 0 <= i < |stored| && stored[i] == f;
      assert ColumnKeys(stored)[i] == Fold(f.name);
    }
    forall f | f in Bound(td.fields) ensures f in stored { StoredExactly(td.fields, f); }
  }

  // ----- any statement that writes a list of fields -----

  /** The cells of the fields, in order. */
  function CellsOf(fields: seq<FieldDef>, scope: Scope): (r: seq<Cell>)
    ensures |r| == |fields|
  {
    seq(|fields|, i requires 0 <= i < |fields| => CellOf(fields[i], scope))
  }

  /** The marks after the first m hold these cells. */
  ghost predicate Following(params: map<nat, Cell>, m: nat, ws: seq<Cell>) {
    forall k :: m < k <= m + |ws| ==> k in params && params[k] == ws[k - m - 1]
  }

  /** Whatever else it binds after them, a statement that writes the fields gives each column its field. */
  lemma Written(fields: seq<FieldDef>, more: seq<FieldDef>, stmt: string, scope: Scope, enums: Enums)
    requires Typed(fields + more, scope, enums)
    ensures var params := BindAll(Binders(fields + more, stmt), stmt, |fields| + |more|, scope);
      && params.Some?
      && Assign(ColumnKeys(fields), params.value) == Some(RowOf(fields, scope))
      && Following(params.value, |fields|, CellsOf(more, scope))
  {
    hide BindAll, Binders, Assign, RowOf, CellOf, Typed, Numbered;
    var all := fields + more;
    BindersMean(all, stmt, |all|, scope, enums);
    forall k | 1 <= k <= |all|
      ensures k in Numbered(all, scope) && Numbered(all, scope)[k] == CellOf(all[k - 1], scope)
    {
      NumberedAt(all, scope, k);
    }
    AssignMeans(fields, scope, Numbered(all, scope));
  }

  lemma WrittenAlone(fields: seq<FieldDef>, stmt: string, scope: Scope, enums: Enums)
    requires Typed(fields, scope, enums)
    ensures var params := BindAll(Binders(fields, stmt), stmt, |fields|, scope);
      params.Some? && Assign(ColumnKeys(fields), params.value) == Some(RowOf(fields, scope))
  {
    hide BindAll, Binders, Assign, RowOf, Typed;
    assert fields + [] == fields;
    Written(fields, [], stmt, scope, enums);
  }

  /** INSERT and forced INSERT of a list of columns. */
  lemma InsertMeans(t: Table, fields: seq<FieldDef>, stmt: string, scope: Scope, enums: Enums, next: int)
    requires fields != [] && Columns(t, fields) && Typed(fields, scope, enums)
    requires forall f :: f in fields ==> Word(f.name)
    ensures var columns, marks := Join(ColumnNames(fields), ", "), Join(Marks(|fields|), ",");
      var params := BindAll(Binders(fields, stmt), stmt, |Items(marks)|, scope);
      var row := RowOf(fields, scope);
      && params.Some?
      && ExecInsert(t, columns, marks, params.value, next)
         == if t.alias == [] then Some(Inserted(next, row))
            else if t.alias[0] !in row then Some(Inserted(next, row[t.alias[0] := Integer(next)]))
            else if row[t.alias[0]].Integer? then Some(Inserted(row[t.alias[0]].i, row))
            else None
  {
    hide BindAll, Binders, Assign, RowOf, Typed, Join, Items, Word, Columns, Prepared;
    PreparedExactly(t, fields);
    ListsParse(fields);
    WrittenAlone(fields, stmt, scope, enums);
  }

  // ----- reading -----

  /** The cells SELECT should deliver: what `rowid` means, then every column in order. */
  function Delivered(t: Table, fields: seq<FieldDef>, found: Inserted): (r: seq<Cell>)
    ensures |r| == |fields| + 1 && r[0] == RowidCell(t, found.rowid, found.row)
  {
    if fields == [] then [RowidCell(t, found.rowid, found.row)]
    else
      var key := Fold(fields[|fields| - 1].name);
      Delivered(t, fields[..|fields| - 1], found) + [if key in found.row then found.row[key] else Integer(0)]
  }

  lemma {:induction false} DeliveredAt(t: Table, fields: seq<FieldDef>, found: Inserted, i: nat)
    requires i < |fields| && Fold(fields[i].name) in found.row
    ensures Delivered(t, fields, found)[i + 1] == found.row[Fold(fields[i].name)]
  {
    hide Fold, RowidCell;
    if i < |fields| - 1 { DeliveredAt(t, fields[..|fields| - 1], found, i); }
  }

  lemma FoldRowid()
    ensures Fold("rowid") == "rowid"
  {
  }

  /** The item of this field in the SELECT list delivers the cell in the row. */
  ghost predicate Delivers(sql: Sqlite, t: Table, f: FieldDef, found: Inserted) {
    Fold(f.name) in found.row && SelectedCell(sql, t, f.name, found) == Some(found.row[Fold(f.name)])
  }

  lemma {:induction false} SelectedAre(sql: Sqlite, t: Table, fields: seq<FieldDef>, found: Inserted)
    requires forall i :: 0 <= i < |fields| ==> Delivers(sql, t, fields[i], found)
    ensures Selected(sql, t, ["rowid"] + ColumnNames(fields), found) == Some(Delivered(t, fields, found))
  {
    var names := ["rowid"] + ColumnNames(fields);
    if fields == [] {
      FoldRowid();
      hide RowidCell, Fold;
      assert |names| == 1 && names[0] == "rowid" && names[..0] == [];
      assert [] + [RowidCell(t, found.rowid, found.row)] == Delivered(t, fields, found);
    } else {
      hide Fold, SelectedCell, RowidCell;
      var n := |fields| - 1;
      SelectedAre(sql, t, fields[..n], found);
      assert names[..n + 1] == ["rowid"] + ColumnNames(fields[..n]);
      assert names[n + 1] == fields[n].name;
      assert Delivers(sql, t, fields[n], found);
    }
  }

  /** What the readers leave in an object: a field whose name a local hides keeps its value. */
  function Restored(fields: seq<FieldDef>, want: Scope, self: Scope): (r: Option<Scope>) {
    if fields == [] then Some(self)
    else OneRestored(fields[|fields| - 1], want, Restored(fields[..|fields| - 1], want, self))
  }

  function OneRestored(f: FieldDef, want: Scope, before: Option<Scope>): (r: Option<Scope>) {
    if before.None? || !ReaderCompiles(FormOf(f.typ), f.name) then None
    else if ReaderHides(FormOf(f.typ), f.name) || f.name !in want then before
    else Some(before.value[f.name := want[f.name]])
  }

  /** No local of get_columns has the name of a column. */
  ghost predicate Visible(fields: seq<FieldDef>) {
    forall f :: f in fields ==> !ReaderHides(FormOf(f.typ), f.name)
  }

  lemma {:induction false} VisibleRestored(fields: seq<FieldDef>, want: Scope, self: Scope)
    requires Visible(fields)
    ensures Restored(fields, want, self).Some?
  {
    hide ReaderHides;
    if fields != [] {
      assert fields == fields[..|fields| - 1] + [fields[|fields| - 1]];
      VisibleRestored(fields[..|fields| - 1], want, self);
    }
  }

  lemma {:induction false} RestoredHas(fields: seq<FieldDef>, want: Scope, self: Scope, f: FieldDef)
    requires f in fields && f.name in want && !ReaderHides(FormOf(f.typ), f.name)
    ensures var r := Restored(fields, want, self);
      r.Some? ==> f.name in r.value && r.value[f.name] == want[f.name]
  {
    hide ReaderHides, ReaderCompiles;
    var n := |fields| - 1;
    assert fields == fields[..n] + [fields[n]];
    if f != fields[n] { RestoredHas(fields[..n], want, self, f); }
  }

  lemma {:induction false} RestoredKeeps(fields: seq<FieldDef>, want: Scope, self: Scope, name: string)
    requires forall f :: f in fields && f.name == name ==> ReaderHides(FormOf(f.typ), f.name)
    ensures var r := Restored(fields, want, self);
      r.Some? ==> (name in r.value <==> name in self) && (name in self ==> r.value[name] == self[name])
  {
    hide ReaderHides, ReaderCompiles;
    if fields != [] {
      var n := |fields| - 1;
      assert fields == fields[..n] + [fields[n]];
      RestoredKeeps(fields[..n], want, self, name);
    }
  }

  lemma {:induction false} ReadersMean(fields: seq<FieldDef>, cells: seq<Cell>, enums: Enums, want: Scope, self: Scope)
    requires Typed(fields, want, enums) && |cells| > |fields|
    requires forall i :: 0 <= i < |fields| ==> cells[i + 1] == CellOf(fields[i], want)
    ensures ReadAll(Readers(fields), cells, enums, self) == Restored(fields, want, self)
  {
    assert fields == [] ==> ReadAll(Readers(fields), cells, enums, self) == Some(self);
    hide ReadAll, Readers, CellOf, WellTyped, OneRestored;
    if fields != [] {
      var n := |fields| - 1;
      var f := fields[n];
      ReadersMean(fields[..n], cells, enums, want, self);
      assert cells[n + 1] == CellOf(f, want) && f.name in want && WellTyped(f.typ, want[f.name], enums);
      ReadersStep(fields, n);
      ReadOneMore(Readers(fields[..n]), f, n + 1, cells, enums, self, want);
    }
  }

  lemma ReadersStep(fields: seq<FieldDef>, n: nat)
    requires |fields| == n + 1
    ensures Readers(fields) == Readers(fields[..n]) + [ReaderFor(fields[n], n + 1)]
  {
  }

  lemma ReadOneMore(rs: seq<Reader>, f: FieldDef, k: nat, cells: seq<Cell>, enums: Enums, self: Scope, want: Scope)
    requires k < |cells| && f.name in want && cells[k] == CellOf(f, want) && WellTyped(f.typ, want[f.name], enums)
    ensures ReadAll(rs + [ReaderFor(f, k)], cells, enums, self) == OneRestored(f, want, ReadAll(rs, cells, enums, self))
  {
    hide ReadCell, Num, Dec, FormOf, CType, SqliteColumn, SqliteMacro, StoredAs, WellTyped, ReaderHides, ReaderCompiles;
    NumOfDec(k);
    CellRoundTrip(f, want[f.name], enums, k);
    assert (rs + [ReaderFor(f, k)])[..|rs|] == rs;
  }

  /** No column has a name that an expression computes instead. */
  ghost predicate Selectable(sql: Sqlite, fields: seq<FieldDef>) {
    forall f :: f in fields ==> Fold(f.name) !in sql.computed
  }

  /** The rowid a load reads: that of the row, or what a column of that name holds. */
  function RowidLoaded(sql: Sqlite, td: TableDef, found: Inserted): (v: Value) {
    IntValue(RowidRead(sql, RowidCell(TableFor(td), found.rowid, found.row)))
  }

  lemma LoadMeans(sql: Sqlite, td: TableDef, found: Inserted, enums: Enums, want: Scope, self: Scope)
    requires ValidTable(td) && Stored(td.fields) != [] && DistinctKeys(Stored(td.fields))
    requires Holds(td, found, enums, want) && Selectable(sql, Stored(td.fields))
    ensures LoadObject(sql, TableFor(td), SourceOf(td), found, enums, self)
         == Restored(Stored(td.fields), want, self["rowid" := RowidLoaded(sql, td, found)])
  {
    hide SourceOf, ValidFields, Word, Join, Items, CellOf, WellTyped, ReadAll, Readers, Selected, Restored, Fold;
    hide TableFor, RowidCell, DistinctKeys, RowidRead;
    var t, stored := TableFor(td), Stored(td.fields);
    var columns := Join(ColumnNames(stored), ", ");
    SourceParts(td);
    ValidNames(td.fields);
    assert Items("rowid," + columns) == ["rowid"] + ColumnNames(stored) by { SelectList(stored); }
    forall i | 0 <= i < |stored| ensures Delivers(sql, t, stored[i], found) {
      FieldDelivered(sql, td, found, enums, want, stored[i]);
    }
    SelectedAre(sql, t, stored, found);
    var cells := Delivered(t, stored, found);
    forall i | 0 <= i < |stored| ensures cells[i + 1] == CellOf(stored[i], want) {
      assert stored[i] in stored;
      DeliveredAt(t, stored, found, i);
    }
    ReadersMean(stored, cells, enums, want, self["rowid" := RowidLoaded(sql, td, found)]);
  }

  lemma FieldDelivered(sql: Sqlite, td: TableDef, found: Inserted, enums: Enums, want: Scope, f: FieldDef)
    requires ValidTable(td) && Holds(td, found, enums, want) && f in Stored(td.fields)
    requires DistinctKeys(Stored(td.fields)) && Selectable(sql, Stored(td.fields))
    ensures Delivers(sql, TableFor(td), f, found)
  {
    hide Fold, ValidFields, RowidCell, WellTyped, DistinctKeys;
    StoredAreColumns(td);
    assert Fold(f.name) in TableFor(td).columns;
    if Fold(f.name) == "rowid" {
      if f.autoIncrement {
        RowidAlias(td, found.rowid, found.row, f);
      } else {
        RowidHidden(td, found.rowid, found.row, f);
      }
    }
  }

  /** The AUTOINCR column may be called rowid. */
  lemma RowidAlias(td: TableDef, id: int, row: Row, f: FieldDef)
    requires ValidTable(td) && f in Stored(td.fields) && Fold(f.name) == "rowid" && f.autoIncrement
    ensures RowidCell(TableFor(td), id, row) == Integer(id)
  {
    hide Fold, ValidFields;
    AliasIs(td, f);
  }

  /** A column that hides the rowid is a column like any other. */
  lemma RowidHidden(td: TableDef, id: int, row: Row, f: FieldDef)
    requires ValidTable(td) && DistinctKeys(Stored(td.fields))
    requires f in Stored(td.fields) && Fold(f.name) == "rowid" && !f.autoIncrement && "rowid" in row
    ensures RowidCell(TableFor(td), id, row) == row["rowid"]
  {
    hide Fold, ValidFields;
    StoredAreColumns(td);
    AliasIs(td, f);
  }

  /**
   The row found holds every stored column of the object, and the object holds its rowid, in the AUTOINCR field too:
   that column is the rowid.
   */
  ghost predicate Holds(td: TableDef, found: Inserted, enums: Enums, want: Scope) {
    && Typed(Stored(td.fields), want, enums)
    && "rowid" in want && want["rowid"] == IntValue(found.rowid)
    && forall f :: f in Stored(td.fields) ==>
         && Fold(f.name) in found.row && found.row[Fold(f.name)] == CellOf(f, want)
         && (f.autoIncrement ==> f.name in want && want[f.name] == IntValue(found.rowid))
  }

  /** Loading that row into `other` makes it agree with the object, column by column and in the rowid. */
  ghost predicate LoadsBack(sql: Sqlite, t: Table, td: TableDef, found: Inserted, enums: Enums, want: Scope,
                            other: Scope)
    requires ValidTable(td)
  {
    var loaded := LoadObject(sql, t, SourceOf(td), found, enums, other);
    loaded.Some? && Agree(Stored(td.fields) + [ROWID], loaded.value, want)
  }

  /** Two objects hold the same values in the listed fields. */
  ghost predicate Agree(fields: seq<FieldDef>, a: Scope, b: Scope) {
    forall f :: f in fields ==> f.name in a && f.name in b && a[f.name] == b[f.name]
  }

  lemma VisibleLoads(sql: Sqlite, td: TableDef, found: Inserted, enums: Enums, want: Scope, other: Scope)
    requires ValidTable(td) && Stored(td.fields) != [] && Holds(td, found, enums, want) && Visible(Stored(td.fields))
    requires Selectable(sql, Stored(td.fields)) && RowidFree(Stored(td.fields)) && DistinctKeys(Stored(td.fields))
    ensures LoadsBack(sql, TableFor(td), td, found, enums, want, other)
  {
    hide SourceOf, LoadObject, ValidFields, Word, CellOf, WellTyped, Restored, ReaderHides, Fold, RowidFree, TableFor;
    hide RowidCell, DistinctKeys;
    var stored, start := Stored(td.fields), other["rowid" := IntValue(found.rowid)];
    RowidResolves(td, found.rowid, found.row);
    LoadMeans(sql, td, found, enums, want, other);
    VisibleRestored(stored, want, start);
    ValidNames(td.fields);
    RestoredKeeps(stored, want, start, "rowid");
    var r := Restored(stored, want, start).value;
    forall f | f in stored ensures f.name in want && f.name in r && r[f.name] == want[f.name] {
      TypedAt(stored, want, enums, f);
      RestoredHas(stored, want, start, f);
    }
  }

  /** A hidden column is not read: where the two objects differ there, they still do, if get_columns compiles at all. */
  lemma HiddenStays(sql: Sqlite, td: TableDef, found: Inserted, enums: Enums, want: Scope, other: Scope, f: FieldDef)
    requires ValidTable(td) && Stored(td.fields) != [] && Holds(td, found, enums, want)
    requires Selectable(sql, Stored(td.fields)) && DistinctKeys(Stored(td.fields))
    requires f in Stored(td.fields) && ReaderHides(FormOf(f.typ), f.name) && f.name in other
    ensures var loaded := LoadObject(sql, TableFor(td), SourceOf(td), found, enums, other);
      loaded.Some? ==> f.name in loaded.value && loaded.value[f.name] == other[f.name]
    ensures f.name in want
    ensures other[f.name] != want[f.name] ==> !LoadsBack(sql, TableFor(td), td, found, enums, want, other)
  {
    hide SourceOf, LoadObject, ValidFields, Word, CellOf, WellTyped, Restored, ReaderHides, Fold, RowidLoaded, TableFor;
    hide DistinctKeys;
    var stored := Stored(td.fields);
    LoadMeans(sql, td, found, enums, want, other);
    ValidNames(td.fields);
    TypedAt(stored, want, enums, f);
    RestoredKeeps(stored, want, other["rowid" := RowidLoaded(sql, td, found)], f.name);
    assert f in stored + [ROWID];
  }

  lemma TypedAt(fields: seq<FieldDef>, scope: Scope, enums: Enums, f: FieldDef)
    requires Typed(fields, scope, enums) && f in fields
    ensures f.name in scope && WellTyped(f.typ, scope[f.name], enums)
  {
    var i :| 0 <= i < |fields| && fields[i] == f;
  }

  lemma SelectList(stored: seq<FieldDef>)
    requires stored != [] && forall f :: f in stored ==> Word(f.name)
    ensures Items("rowid," + Join(ColumnNames(stored), ", ")) == ["rowid"] + ColumnNames(stored)
  {
    var names := ColumnNames(stored);
    forall s | s in names ensures Listable(s) { WordListable(s); }
    ItemsOfJoin(names, ", ");
    ItemsAfter("rowid", Join(names, ", "));
    assert "rowid" + "," == "rowid,";
    TrimWord("rowid");
  }

  // ----- local variables of the emitted functions -----

  /** No word of a schema is one letter long, so the only local of insert and update hides no field. */
  lemma WordIsNoLocal(name: string)
    requires Word(name) || name == "rowid"
    ensures name !in FUNCTION_LOCALS
  {
    assert |"r"| == 1;
  }

  lemma Unhidden(fields: seq<FieldDef>, self: Scope, locals: Scope, enums: Enums)
    requires Typed(fields, self, enums) && forall f :: f in fields ==> f.name !in locals
    ensures Typed(fields, self + locals, enums) && RowOf(fields, self + locals) == RowOf(fields, self)
  {
    hide WellTyped, RowOf;
    forall i | 0 <= i < |fields| ensures fields[i].name !in locals {
      assert fields[i] in fields;
    }
    RowOfSame(fields, self, self + locals);
  }

  lemma {:induction false} RowOfSame(fields: seq<FieldDef>, a: Scope, b: Scope)
    requires forall i :: 0 <= i < |fields| ==>
      fields[i].name in a && fields[i].name in b && a[fields[i].name] == b[fields[i].name]
    ensures RowOf(fields, a) == RowOf(fields, b)
  {
    if fields != [] { RowOfSame(fields[..|fields| - 1], a, b); }
  }

  // ----- insert -----

  /**
   insert() can be prepared exactly when its table can be created and some column is bound (`() values ()` is no
   SQL), a forced insert exactly when its table can be created.
   */
  lemma InsertPreparesExactly(sql: Sqlite, td: TableDef)
    requires ValidTable(td)
    ensures var t, src := TableOf(sql, td), SourceOf(td);
      && ((t.Some? && Prepared(t.value, src.updateColumns, src.marks).Some?)
          <==> Creatable(sql, td) && Bound(td.fields) != [])
      && ((t.Some? && Prepared(t.value, src.columns, src.marksForce).Some?) <==> Creatable(sql, td))
  {
    hide ValidFields, Prepared, Word, TableNamed, DistinctKeys, Fold, Columns, TableOf;
    CreatedExactly(sql, td);
    SourceParts(td);
    ValidNames(td.fields);
    StoredAreColumns(td);
    PreparedExactly(TableFor(td), Bound(td.fields));
    PreparedExactly(TableFor(td), Stored(td.fields));
  }

  /** The AUTOINCR column, if any, is the one insert() fetches and no statement of insert() binds. */
  lemma {:induction false} AutosExactly(fields: seq<FieldDef>, name: string)
    ensures name in Autos(fields) <==> exists f :: f in Stored(fields) && f.autoIncrement && f.name == name
  {
    if fields != [] {
      var n := |fields| - 1;
      assert fields == fields[..n] + [fields[n]];
      StoredStep(fields[..n], fields[n]);
      AutosExactly(fields[..n], name);
      if !fields[n].typ.TypeSubtable? && fields[n].autoIncrement && fields[n].name == name {
        assert fields[n] in Stored(fields);
      }
    }
  }

  lemma {:induction false} FetchedHolds(fetched: seq<string>, self: Scope, rowid: int, name: string)
    ensures var after := AfterInsert(fetched, self, rowid);
      && (name in fetched || name == "rowid" ==> name in after && after[name] == IntValue(rowid))
      && (name !in fetched && name != "rowid" && name in self ==> name in after && after[name] == self[name])
  {
    if fetched != [] {
      var n := |fetched| - 1;
      assert fetched == fetched[..n] + [fetched[n]];
      FetchedHolds(fetched[..n], self, rowid, name);
    }
  }

  /** The row insert() writes: the bound fields, and the new rowid in the AUTOINCR column. */
  function InsertedRow(td: TableDef, self: Scope, next: int): (r: Row) {
    var row, alias := RowOf(Bound(td.fields), self), AliasOf(td);
    if alias == [] then row else row[alias[0] := Integer(next)]
  }

  lemma InsertedRowHolds(td: TableDef, self: Scope, enums: Enums, next: int, f: FieldDef)
    requires ValidTable(td) && Typed(Bound(td.fields), self, enums) && f in Stored(td.fields)
    requires DistinctKeys(Stored(td.fields)) && (f.autoIncrement ==> WellTyped(f.typ, IntValue(next), enums))
    ensures var row, after := InsertedRow(td, self, next), AfterInsert(Autos(td.fields), self, next);
      && Fold(f.name) in row && f.name in after
      && row[Fold(f.name)] == CellOf(f, after) && WellTyped(f.typ, after[f.name], enums)
      && (f.autoIncrement ==> after[f.name] == IntValue(next))
  {
    hide RowOf, AfterInsert, WellTyped, Fold, ValidFields;
    var autos, bound := Autos(td.fields), Bound(td.fields);
    ValidNames(td.fields);
    StoredExactly(td.fields, f);
    AutosExactly(td.fields, f.name);
    FetchedHolds(autos, self, next, f.name);
    AliasIs(td, f);
    if !f.autoIncrement {
      assert f.name !in autos by { if f.name in autos { AutosAreOne(td.fields, f, f.name); } }
      assert forall g :: g in bound ==> g in Stored(td.fields);
      RowOfAt(bound, self, f);
      var i :| 0 <= i < |bound| && bound[i] == f;
    }
  }

  /** A stored field is the AUTOINCR column exactly when it has that column's key. */
  lemma AliasIs(td: TableDef, f: FieldDef)
    requires ValidTable(td) && f in Stored(td.fields)
    ensures f.autoIncrement ==> AliasOf(td) == [Fold(f.name)] && Autos(td.fields) == [f.name]
    ensures DistinctKeys(Stored(td.fields)) && AliasOf(td) != [] && AliasOf(td)[0] == Fold(f.name) ==> f.autoIncrement
  {
    hide Fold, ValidFields;
    var autos := Autos(td.fields);
    AutosAtMostOne(td.fields);
    AutosExactly(td.fields, f.name);
    if autos != [] {
      AutosExactly(td.fields, autos[0]);
      var g :| g in Stored(td.fields) && g.autoIncrement && g.name == autos[0];
      assert AliasOf(td)[0] == Fold(g.name);
    }
  }

  /** Only one field is AUTOINCR, and its name is its own. */
  lemma AutosAreOne(fields: seq<FieldDef>, f: FieldDef, name: string)
    requires ValidFields(fields) && f in Stored(fields) && name in Autos(fields)
    requires f.autoIncrement || f.name == name
    ensures f.autoIncrement && f.name == name
  {
    ValidNames(fields);
    AutosExactly(fields, name);
    var g :| g in Stored(fields) && g.autoIncrement && g.name == name;
    StoredExactly(fields, f);
    StoredExactly(fields, g);
  }

  lemma InsertWrites(td: TableDef, self: Scope, enums: Enums, next: int)
    requires ValidTable(td) && Bound(td.fields) != [] && Typed(Bound(td.fields), self, enums)
    requires DistinctKeys(Stored(td.fields))
    ensures InsertObject(TableFor(td), SourceOf(td), self, next) == Some(Inserted(next, InsertedRow(td, self, next)))
  {
    hide SourceOf, ValidFields, Typed, RowOf, Join, Marks, Items, BindAll, Binders, ExecInsert, Word, Columns, Fold;
    hide DistinctKeys;
    var bound := Bound(td.fields);
    SourceParts(td);
    ValidNames(td.fields);
    StoredAreColumns(td);
    forall f | f in bound ensures f.name !in FUNCTION_LOCALS { WordIsNoLocal(f.name); }
    Unhidden(bound, self, FUNCTION_LOCALS, enums);
    InsertMeans(TableFor(td), bound, "insert", self + FUNCTION_LOCALS, enums, next);
    AliasNotBound(td, self);
  }

  /** The object's bound fields hold values of their types, and the new rowid fits the AUTOINCR field. */
  ghost predicate Insertable(td: TableDef, self: Scope, enums: Enums, next: int) {
    && Typed(Bound(td.fields), self, enums)
    && forall f :: f in Stored(td.fields) && f.autoIncrement ==> WellTyped(f.typ, IntValue(next), enums)
  }

  lemma InsertedHolds(td: TableDef, self: Scope, enums: Enums, next: int)
    requires ValidTable(td) && Bound(td.fields) != [] && Insertable(td, self, enums, next)
    requires DistinctKeys(Stored(td.fields))
    ensures var src := SourceOf(td);
      var stored := InsertObject(TableFor(td), src, self, next);
      && stored.Some? && stored.value.rowid == next && src.fetched == Autos(td.fields)
      && Holds(td, stored.value, enums, AfterInsert(src.fetched, self, next))
  {
    hide RowOf, AfterInsert, InsertedRow, InsertObject, WellTyped, SourceOf, CellOf, ValidFields, Fold, TableFor, Holds;
    hide DistinctKeys;
    var stored, after := Stored(td.fields), AfterInsert(Autos(td.fields), self, next);
    var row := InsertedRow(td, self, next);
    InsertWrites(td, self, enums, next);
    SourceParts(td);
    forall f | f in stored ensures HeldField(f, row, after, next, enums) {
      InsertedRowHolds(td, self, enums, next, f);
    }
    FetchedHolds(Autos(td.fields), self, next, "rowid");
    FieldsHold(td, Inserted(next, row), enums, after);
  }

  /** What insert() writes, a SELECT reads back into `other` just as the inserted object holds it after the call. */
  ghost predicate InsertReadsBack(sql: Sqlite, td: TableDef, self: Scope, enums: Enums, next: int, other: Scope)
    requires ValidTable(td)
  {
    var t := TableOf(sql, td);
    t.Some? &&
    var stored := InsertObject(t.value, SourceOf(td), self, next);
    && stored.Some? && stored.value.rowid == next
    && LoadsBack(sql, t.value, td, stored.value, enums, AfterInsert(SourceOf(td).fetched, self, next), other)
  }

  /** SQLite takes every name for the column it names, and so does the C++ compiler in the reader. */
  ghost predicate WellNamed(sql: Sqlite, td: TableDef) {
    && Creatable(sql, td) && Selectable(sql, Stored(td.fields)) && RowidFree(Stored(td.fields))
    && Visible(Stored(td.fields))
  }

  lemma InsertThenLoad(sql: Sqlite, td: TableDef, self: Scope, enums: Enums, next: int, other: Scope)
    requires ValidTable(td) && Bound(td.fields) != [] && Insertable(td, self, enums, next) && WellNamed(sql, td)
    ensures InsertReadsBack(sql, td, self, enums, next, other)
  {
    hide InsertObject, SourceOf, AfterInsert, Holds, Insertable, LoadsBack, ValidFields, Visible, Fold, TableNamed;
    hide TableOf, TableFor, RowidFree, Selectable;
    CreatedExactly(sql, td);
    InsertedHolds(td, self, enums, next);
    VisibleLoads(sql, td, InsertObject(TableFor(td), SourceOf(td), self, next).value, enums,
                 AfterInsert(SourceOf(td).fetched, self, next), other);
  }

  lemma AutoIsInt(fields: seq<FieldDef>, f: FieldDef)
    requires ValidFields(fields) && f in fields && f.autoIncrement
    ensures f.typ.TypeInt? || f.typ.TypeInt64?
  {
  }

  lemma BoundIsStored(fields: seq<FieldDef>)
    requires Bound(fields) != []
    ensures Stored(fields) != []
  {
    StoredExactly(fields, Bound(fields)[0]);
  }

  /** One field of an object as its row holds it. */
  ghost predicate HeldField(f: FieldDef, row: Row, after: Scope, rowid: int, enums: Enums) {
    && Fold(f.name) in row && f.name in after && row[Fold(f.name)] == CellOf(f, after)
    && WellTyped(f.typ, after[f.name], enums) && (f.autoIncrement ==> after[f.name] == IntValue(rowid))
  }

  lemma FieldsHold(td: TableDef, found: Inserted, enums: Enums, after: Scope)
    requires "rowid" in after && after["rowid"] == IntValue(found.rowid)
    requires forall f :: f in Stored(td.fields) ==> HeldField(f, found.row, after, found.rowid, enums)
    ensures Holds(td, found, enums, after)
  {
    hide WellTyped, CellOf, Fold;
    var stored := Stored(td.fields);
    forall i | 0 <= i < |stored|
      ensures stored[i].name in after && WellTyped(stored[i].typ, after[stored[i].name], enums)
    {
      assert HeldField(stored[i], found.row, after, found.rowid, enums);
    }
  }

  // ----- forced insert -----

  /** The rowid of a forced insert: the AUTOINCR field's value, when the table has one. */
  function ForcedRowid(td: TableDef, self: Scope, next: int): (n: int) {
    var autos := Autos(td.fields);
    if autos != [] && autos[0] in self && self[autos[0]].IntValue? then self[autos[0]].n else next
  }

  lemma ForceWrites(td: TableDef, self: Scope, enums: Enums, next: int)
    requires ValidTable(td) && Stored(td.fields) != [] && Typed(Stored(td.fields), self, enums)
    requires DistinctKeys(Stored(td.fields))
    ensures ForceObject(TableFor(td), SourceOf(td), self, next)
         == Some(Inserted(ForcedRowid(td, self, next), RowOf(Stored(td.fields), self)))
  {
    hide SourceOf, RowOf, Join, Marks, Items, BindAll, Binders, ExecInsert, Word, Columns, Fold, ValidFields, Typed;
    var stored, autos := Stored(td.fields), Autos(td.fields);
    SourceParts(td);
    ValidNames(td.fields);
    StoredAreColumns(td);
    forall f | f in stored ensures f.name !in FUNCTION_LOCALS { WordIsNoLocal(f.name); }
    Unhidden(stored, self, FUNCTION_LOCALS, enums);
    InsertMeans(TableFor(td), stored, "insert_force", self + FUNCTION_LOCALS, enums, next);
    if autos != [] {
      AutosExactly(td.fields, autos[0]);
      var f :| f in stored && f.autoIncrement && f.name == autos[0];
      AliasIs(td, f);
      RowOfAt(stored, self, f);
      AutoCell(td, self, enums, f);
    }
  }

  lemma AutoCell(td: TableDef, self: Scope, enums: Enums, f: FieldDef)
    requires ValidTable(td) && Typed(Stored(td.fields), self, enums) && f in Stored(td.fields) && f.autoIncrement
    ensures f.name in self && self[f.name].IntValue? && CellOf(f, self) == Integer(self[f.name].n)
    ensures forall next :: self[f.name] == IntValue(ForcedRowid(td, self, next))
  {
    hide ValidFields;
    StoredExactly(td.fields, f);
    AutoIsInt(td.fields, f);
    TypedAt(Stored(td.fields), self, enums, f);
    AliasIs(td, f);
  }

  /**
   A forced insert stores every column as the object has it: a SELECT reads all of them back, and the
   rowid is the AUTOINCR field's value when the table has one.
   */
  ghost predicate ForceReadsBack(sql: Sqlite, td: TableDef, self: Scope, enums: Enums, next: int, other: Scope)
    requires ValidTable(td)
  {
    var t := TableOf(sql, td);
    t.Some? &&
    var stored := ForceObject(t.value, SourceOf(td), self, next);
    && stored.Some?
    && (forall f :: f in Stored(td.fields) && f.autoIncrement ==>
          f.name in self && self[f.name] == IntValue(stored.value.rowid))
    && (SourceOf(td).fetched == [] ==> stored.value.rowid == next)
    && LoadsBack(sql, t.value, td, stored.value, enums, self["rowid" := IntValue(stored.value.rowid)], other)
  }

  lemma ForcedHolds(td: TableDef, self: Scope, enums: Enums, next: int)
    requires ValidTable(td) && Stored(td.fields) != [] && Typed(Stored(td.fields), self, enums)
    requires DistinctKeys(Stored(td.fields))
    ensures var src := SourceOf(td);
      var stored := ForceObject(TableFor(td), src, self, next);
      && stored.Some? && stored.value.rowid == ForcedRowid(td, self, next)
      && (forall f :: f in Stored(td.fields) && f.autoIncrement ==>
            f.name in self && self[f.name] == IntValue(stored.value.rowid))
      && (src.fetched == [] ==> stored.value.rowid == next)
      && Holds(td, stored.value, enums, self["rowid" := IntValue(stored.value.rowid)])
  {
    hide RowOf, ForceObject, WellTyped, SourceOf, CellOf, ValidFields, Holds, TableFor, Fold, DistinctKeys, HeldField;
    var stored, rowid := Stored(td.fields), ForcedRowid(td, self, next);
    ForceWrites(td, self, enums, next);
    SourceParts(td);
    forall f | f in stored
      ensures HeldField(f, RowOf(stored, self), self["rowid" := IntValue(rowid)], rowid, enums)
      ensures f.autoIncrement ==> f.name in self && self[f.name] == IntValue(rowid)
    {
      if f.autoIncrement { AutoCell(td, self, enums, f); }
      FieldForced(td, self, enums, rowid, f);
    }
    FieldsHold(td, Inserted(rowid, RowOf(stored, self)), enums, self["rowid" := IntValue(rowid)]);
  }

  lemma FieldForced(td: TableDef, self: Scope, enums: Enums, rowid: int, f: FieldDef)
    requires ValidTable(td) && Typed(Stored(td.fields), self, enums) && f in Stored(td.fields)
    requires DistinctKeys(Stored(td.fields))
    requires f.autoIncrement ==> f.name in self && self[f.name] == IntValue(rowid)
    ensures HeldField(f, RowOf(Stored(td.fields), self), self["rowid" := IntValue(rowid)], rowid, enums)
  {
    hide RowOf, WellTyped, CellOf, ValidFields, Fold;
    var stored := Stored(td.fields);
    ValidNames(td.fields);
    TypedAt(stored, self, enums, f);
    RowOfAt(stored, self, f);
    CellOfSame(f, self, self["rowid" := IntValue(rowid)]);
  }

  lemma ForceThenLoad(sql: Sqlite, td: TableDef, self: Scope, enums: Enums, next: int, other: Scope)
    requires ValidTable(td) && Typed(Stored(td.fields), self, enums) && WellNamed(sql, td)
    ensures ForceReadsBack(sql, td, self, enums, next, other)
  {
    hide ForceObject, SourceOf, Holds, LoadsBack, ValidFields, Visible, Typed, Fold, TableNamed, DistinctKeys;
    hide TableOf, TableFor, RowidFree, Selectable;
    CreatedExactly(sql, td);
    ForcedHolds(td, self, enums, next);
    var found := ForceObject(TableFor(td), SourceOf(td), self, next).value;
    VisibleLoads(sql, td, found, enums, self["rowid" := IntValue(found.rowid)], other);
  }

  lemma CellOfSame(f: FieldDef, a: Scope, b: Scope)
    requires f.name in a && f.name in b && a[f.name] == b[f.name]
    ensures CellOf(f, a) == CellOf(f, b)
  {
  }

  // ----- updates -----

  /** The row with that rowid: what an update of an object is for. */
  ghost function OwnRow(): (w: (seq<Cell>, int, Row) -> bool) {
    (ws: seq<Cell>, id: int, row: Row) => ws == [Integer(id)]
  }

  /** The binders in turn, then the UPDATE, whose WHERE clause has n marks. */
  ghost function Updated(t: Table, columns: string, marks: string, binders: seq<Binder>, stmt: string, n: nat,
                         scope: Scope, where: (seq<Cell>, int, Row) -> bool, rows: Rows): (r: Option<Rows>)
  {
    var params := BindAll(binders, stmt, |Items(marks)| + n, scope);
    if params.None? then None else ExecUpdate(t, columns, marks, params.value, where, n, rows)
  }

  /** update() */
  ghost function UpdateObject(t: Table, src: TableSource, self: Scope, rows: Rows): (r: Option<Rows>) {
    Updated(t, src.updateColumns, src.marks, src.updateBinders, "update", 1, self + FUNCTION_LOCALS, WhereRowid(t),
            rows)
  }

  /** Any update: the columns get the fields, the WHERE clause gets what is bound after them, in order. */
  lemma UpdateMeans(t: Table, fields: seq<FieldDef>, more: seq<FieldDef>, stmt: string, scope: Scope, enums: Enums,
                    where: (seq<Cell>, int, Row) -> bool, rows: Rows)
    requires fields != [] && Columns(t, fields) && Typed(fields + more, scope, enums)
    requires forall f :: f in fields ==> Word(f.name)
    ensures var columns, marks := Join(ColumnNames(fields), ", "), Join(Marks(|fields|), ",");
      Updated(t, columns, marks, Binders(fields + more, stmt), stmt, |more|, scope, where, rows)
      == Rewrite(rows, CellsOf(more, scope), where, RowOf(fields, scope), t.alias)
  {
    hide BindAll, Binders, Assign, RowOf, CellOf, Typed, Join, Items, Word, ExecUpdate, CellsOf, Marks, Updated,
         Rewrite;
    hide Following, Columns;
    PreparedExactly(t, fields);
    Written(fields, more, stmt, scope, enums);
    var params := BindAll(Binders(fields + more, stmt), stmt, |fields| + |more|, scope).value;
    UpdatedIs(t, Join(ColumnNames(fields), ", "), Join(Marks(|fields|), ","), Binders(fields + more, stmt), stmt, scope,
              params, ColumnKeys(fields), RowOf(fields, scope), CellsOf(more, scope), where, rows);
  }

  lemma UpdatedIs(t: Table, columns: string, marks: string, binders: seq<Binder>, stmt: string, scope: Scope,
                  params: map<nat, Cell>, names: seq<string>, row: Row, ws: seq<Cell>,
                  where: (seq<Cell>, int, Row) -> bool, rows: Rows)
    requires Prepared(t, columns, marks) == Some(names)
    requires BindAll(binders, stmt, |names| + |ws|, scope) == Some(params) && Assign(names, params) == Some(row)
    requires Following(params, |names|, ws)
    ensures Updated(t, columns, marks, binders, stmt, |ws|, scope, where, rows)
         == Rewrite(rows, ws, where, row, t.alias)
  {
    hide *;
    MarksPrepared(t, columns, marks);
    UpdatedRuns(t, columns, marks, binders, stmt, |ws|, scope, where, rows);
    ExecMeans(t, columns, marks, params, names, row, ws, where, rows);
  }

  lemma UpdatedRuns(t: Table, columns: string, marks: string, binders: seq<Binder>, stmt: string, n: nat, scope: Scope,
                    where: (seq<Cell>, int, Row) -> bool, rows: Rows)
    requires BindAll(binders, stmt, |Items(marks)| + n, scope).Some?
    ensures var params := BindAll(binders, stmt, |Items(marks)| + n, scope).value;
      Updated(t, columns, marks, binders, stmt, n, scope, where, rows)
      == ExecUpdate(t, columns, marks, params, where, n, rows)
  {
  }

  lemma MarksPrepared(t: Table, columns: string, marks: string)
    requires Prepared(t, columns, marks).Some?
    ensures |Items(marks)| == |Prepared(t, columns, marks).value|
  {
  }

  lemma ExecMeans(t: Table, columns: string, marks: string, params: map<nat, Cell>, names: seq<string>, row: Row,
                  ws: seq<Cell>, where: (seq<Cell>, int, Row) -> bool, rows: Rows)
    requires Prepared(t, columns, marks) == Some(names) && Assign(names, params) == Some(row)
    requires Following(params, |names|, ws)
    ensures ExecUpdate(t, columns, marks, params, where, |ws|, rows) == Rewrite(rows, ws, where, row, t.alias)
  {
    hide Prepared, Assign, Rewrite;
    var m := |names|;
    assert seq(|ws|, i requires 0 <= i < |ws| => params[m + 1 + i]) == ws;
  }

  /**
   update() writes the bound fields into the row whose rowid the object holds, and into no other: the rowid's
   mark is the one after the last column's.
   */
  lemma UpdateWritesItsRow(sql: Sqlite, td: TableDef, self: Scope, enums: Enums, rows: Rows)
    requires ValidTable(td) && Bound(td.fields) != [] && Typed(Bound(td.fields) + [ROWID], self, enums)
    requires Creatable(sql, td) && RowidFree(Stored(td.fields))
    ensures WritesItsRow(sql, td, self, rows)
  {
    hide UpdateObject, Rewrite, SourceOf, ValidFields, Typed, Bound, RowOf, CellsOf, TableOf, TableFor, Fold, Creatable;
    hide RowidFree, WhereRowid;
    CreatedExactly(sql, td);
    CreatableKeys(sql, td);
    RowidTyped(Bound(td.fields), self, enums);
    UpdateRewrites(td, self, enums, rows);
    AliasNotBound(td, self);
    TableAlias(td);
    RewriteOne(td, rows, self["rowid"].n, RowOf(Bound(td.fields), self), AliasOf(td));
  }

  ghost predicate WritesItsRow(sql: Sqlite, td: TableDef, self: Scope, rows: Rows)
    requires ValidTable(td)
  {
    var t := TableOf(sql, td);
    t.Some? &&
    var written, row := UpdateObject(t.value, SourceOf(td), self, rows), RowOf(Bound(td.fields), self);
    && written.Some? && written.value.Keys == rows.Keys
    && "rowid" in self
    && forall id :: id in rows ==>
      written.value[id] == if self["rowid"] == IntValue(id) then rows[id] + row else rows[id]
  }

  lemma CreatableKeys(sql: Sqlite, td: TableDef)
    requires Creatable(sql, td)
    ensures DistinctKeys(Stored(td.fields)) && Stored(td.fields) != []
  {
  }

  lemma TableAlias(td: TableDef)
    ensures TableFor(td).alias == AliasOf(td)
  {
  }

  lemma UpdateRewrites(td: TableDef, self: Scope, enums: Enums, rows: Rows)
    requires ValidTable(td) && Bound(td.fields) != [] && Typed(Bound(td.fields) + [ROWID], self, enums)
    ensures UpdateObject(TableFor(td), SourceOf(td), self, rows)
         == Rewrite(rows, CellsOf([ROWID], self), WhereRowid(TableFor(td)), RowOf(Bound(td.fields), self), AliasOf(td))
  {
    hide RowOf, Updated, Binders, Join, Items, ColumnNames, ValidFields, Word, Typed, CellsOf, Columns, WhereRowid;
    hide Rewrite, SourceOf, Marks, Fold;
    var bound, scope := Bound(td.fields), self + FUNCTION_LOCALS;
    SourceParts(td);
    ValidNames(td.fields);
    StoredAreColumns(td);
    UpdateSees(td, self, enums);
    UpdateMeans(TableFor(td), bound, [ROWID], "update", scope, enums, WhereRowid(TableFor(td)), rows);
  }

  lemma UpdateSees(td: TableDef, self: Scope, enums: Enums)
    requires ValidTable(td) && Typed(Bound(td.fields) + [ROWID], self, enums)
    ensures var bound, scope := Bound(td.fields), self + FUNCTION_LOCALS;
      && Typed(bound + [ROWID], scope, enums) && RowOf(bound, scope) == RowOf(bound, self)
      && CellsOf([ROWID], scope) == CellsOf([ROWID], self)
  {
    hide RowOf, ValidFields, Word;
    var bound, scope := Bound(td.fields), self + FUNCTION_LOCALS;
    var all := bound + [ROWID];
    ValidNames(td.fields);
    WordIsNoLocal("rowid");
    forall f | f in all ensures f.name !in FUNCTION_LOCALS { if f in bound { WordIsNoLocal(f.name); } }
    Unhidden(all, self, FUNCTION_LOCALS, enums);
    forall i | 0 <= i < |bound| ensures bound[i].name in self && bound[i].name !in FUNCTION_LOCALS {
      assert all[i] == bound[i] && bound[i] in all;
    }
    RowOfSame(bound, self, scope);
    assert all[|bound|] == ROWID;
    CellOfSame(ROWID, self, scope);
  }

  /** update() does not set the AUTOINCR column. */
  lemma AliasNotBound(td: TableDef, self: Scope)
    requires ValidTable(td) && DistinctKeys(Stored(td.fields))
    ensures AliasOf(td) != [] ==> AliasOf(td)[0] !in RowOf(Bound(td.fields), self)
  {
    hide Fold, ValidFields;
    var alias, bound := AliasOf(td), Bound(td.fields);
    if alias != [] {
      RowOfKeys(bound, self, alias[0]);
      ValidNames(td.fields);
      if alias[0] in ColumnKeys(bound) {
        var i :| 0 <= i < |bound| && Fold(bound[i].name) == alias[0];
        assert bound[i] in Stored(td.fields) && !bound[i].autoIncrement;
        AutosAtMostOne(td.fields);
        AliasIs(td, bound[i]);
      }
    }
  }

  lemma RowidTyped(fields: seq<FieldDef>, self: Scope, enums: Enums)
    requires Typed(fields + [ROWID], self, enums)
    ensures "rowid" in self && self["rowid"].IntValue?
    ensures CellsOf([ROWID], self) == [Integer(self["rowid"].n)]
  {
    assert (fields + [ROWID])[|fields|] == ROWID;
  }

  lemma RewriteOne(td: TableDef, rows: Rows, n: int, row: Row, alias: seq<string>)
    requires ValidTable(td) && RowidFree(Stored(td.fields)) && (alias != [] ==> alias[0] !in row)
    ensures var written := Rewrite(rows, [Integer(n)], WhereRowid(TableFor(td)), row, alias);
      && written.Some? && written.value.Keys == rows.Keys
      && forall id :: id in rows ==> written.value[id] == if id == n then rows[id] + row else rows[id]
  {
    hide TableFor, RowidCell, RowidFree;
    forall id | id in rows ensures WhereRowid(TableFor(td))([Integer(n)], id, rows[id]) <==> id == n {
      RowidResolves(td, id, rows[id]);
    }
  }

  /**
   The object holds the rowid of a row, that row holds some object's columns, and update() leaves AUTOINCR alone:
   the object has there what the row has, the rowid.
   */
  ghost predicate Updatable(td: TableDef, self: Scope, enums: Enums, rows: Rows, id: int, before: Scope) {
    && Typed(Bound(td.fields) + [ROWID], self, enums)
    && "rowid" in self && self["rowid"] == IntValue(id) && id in rows
    && Typed(Stored(td.fields), before, enums)
    && forall f :: f in Stored(td.fields) ==>
         && Fold(f.name) in rows[id] && rows[id][Fold(f.name)] == CellOf(f, before)
         && (f.autoIncrement ==> f.name in self && f.name in before && before[f.name] == self[f.name] == IntValue(id))
  }

  lemma UpdatedHolds(sql: Sqlite, td: TableDef, self: Scope, enums: Enums, rows: Rows, id: int, before: Scope)
    requires ValidTable(td) && Bound(td.fields) != [] && Updatable(td, self, enums, rows, id, before)
    requires Creatable(sql, td) && RowidFree(Stored(td.fields))
    ensures var written := UpdateObject(TableFor(td), SourceOf(td), self, rows);
      written.Some? && id in written.value && Holds(td, Inserted(id, written.value[id]), enums, self)
  {
    hide RowOf, UpdateObject, WellTyped, SourceOf, CellOf, ValidFields, Holds, TableFor, TableOf, Fold, HeldField,
         Creatable;
    hide RowidFree;
    var stored := Stored(td.fields);
    CreatedExactly(sql, td);
    CreatableKeys(sql, td);
    UpdateWritesItsRow(sql, td, self, enums, rows);
    var row := UpdateObject(TableFor(td), SourceOf(td), self, rows).value[id];
    forall f | f in stored ensures HeldField(f, row, self, id, enums) {
      FieldUpdated(td, self, enums, rows, id, before, f);
    }
    FieldsHold(td, Inserted(id, row), enums, self);
  }

  lemma FieldUpdated(td: TableDef, self: Scope, enums: Enums, rows: Rows, id: int, before: Scope, f: FieldDef)
    requires ValidTable(td) && Updatable(td, self, enums, rows, id, before) && f in Stored(td.fields)
    requires DistinctKeys(Stored(td.fields))
    ensures HeldField(f, rows[id] + RowOf(Bound(td.fields), self), self, id, enums)
  {
    hide RowOf, WellTyped, CellOf, ValidFields, Fold;
    var stored, bound := Stored(td.fields), Bound(td.fields);
    ValidNames(td.fields);
    StoredExactly(td.fields, f);
    RowOfKeys(bound, self, Fold(f.name));
    if f.autoIncrement {
      CellOfSame(f, self, before);
      TypedAt(stored, before, enums, f);
      assert Fold(f.name) !in ColumnKeys(bound) by { NotBound(td.fields, f); }
    } else {
      assert forall g :: g in bound ==> g in stored;
      RowOfAt(bound, self, f);
      assert f in bound + [ROWID];
      TypedAt(bound + [ROWID], self, enums, f);
    }
  }

  lemma NotBound(fields: seq<FieldDef>, f: FieldDef)
    requires ValidFields(fields) && DistinctKeys(Stored(fields)) && f in Stored(fields) && f.autoIncrement
    ensures Fold(f.name) !in ColumnKeys(Bound(fields))
  {
    hide Fold, ValidFields;
    ValidNames(fields);
    var bound := Bound(fields);
    forall i | 0 <= i < |bound| ensures Fold(bound[i].name) != Fold(f.name) {
      assert bound[i] in bound;
    }
  }

  /** After an update() the row it wrote is read back into `other` as the object. */
  ghost predicate UpdateReadsBack(sql: Sqlite, td: TableDef, self: Scope, enums: Enums, rows: Rows, id: int,
                                  other: Scope)
    requires ValidTable(td)
  {
    var t := TableOf(sql, td);
    t.Some? &&
    var written := UpdateObject(t.value, SourceOf(td), self, rows);
    && written.Some? && id in written.value
    && LoadsBack(sql, t.value, td, Inserted(id, written.value[id]), enums, self, other)
  }

  lemma UpdateThenLoad(sql: Sqlite, td: TableDef, self: Scope, enums: Enums, rows: Rows, id: int, before: Scope,
                       other: Scope)
    requires ValidTable(td) && Bound(td.fields) != [] && Updatable(td, self, enums, rows, id, before)
    requires WellNamed(sql, td)
    ensures UpdateReadsBack(sql, td, self, enums, rows, id, other)
  {
    hide UpdateObject, SourceOf, LoadsBack, ValidFields, Updatable, Holds, Visible, Fold, TableNamed, DistinctKeys;
    hide TableOf, TableFor, RowidFree, Selectable;
    CreatedExactly(sql, td);
    UpdatedHolds(sql, td, self, enums, rows, id, before);
    VisibleLoads(sql, td, Inserted(id, UpdateObject(TableFor(td), SourceOf(td), self, rows).value[id]), enums, self,
                 other);
  }

  // ----- the numbering of the emitted pieces -----

  /** Column k, its mark and the binder with index k + 1 belong together. */
  ghost predicate InStep(columns: string, marks: string, binders: seq<Binder>) {
    var names := Items(columns);
    && Items(marks) == Marks(|names|) && |binders| >= |names|
    && forall k :: 0 <= k < |names| ==> binders[k].operand == names[k] && Num(binders[k].index) == Some(k + 1)
  }

  lemma BindersInStep(fields: seq<FieldDef>, more: seq<FieldDef>, stmt: string)
    requires fields != [] && forall f :: f in fields ==> Word(f.name)
    ensures InStep(Join(ColumnNames(fields), ", "), Join(Marks(|fields|), ","), Binders(fields + more, stmt))
  {
    hide Join, Items;
    ListsParse(fields);
    var names, binders := ColumnNames(fields), Binders(fields + more, stmt);
    forall k | 0 <= k < |names| ensures binders[k].operand == names[k] && Num(binders[k].index) == Some(k + 1) {
      assert binders[k] == BinderFor((fields + more)[k], stmt, k + 1);
      NumOfDec(k + 1);
    }
  }

  /** Every list of a table is in step with its statement, and rowid's mark in UPDATE is one past the last. */
  lemma TableInStep(td: TableDef)
    requires ValidTable(td) && Bound(td.fields) != []
    ensures var src := SourceOf(td);
      && InStep(src.updateColumns, src.marks, src.insertBinders)
      && InStep(src.updateColumns, src.marks, src.updateBinders)
      && InStep(src.columns, src.marksForce, src.forceBinders)
      && src.updateBinders != []
      && var last := src.updateBinders[|src.updateBinders| - 1];
         last.operand == "rowid" && Num(last.index) == Some(|Items(src.updateColumns)| + 1)
  {
    var stored, bound := Stored(td.fields), Bound(td.fields);
    assert ValidFields(td.fields);
    hide *;
    SourceParts(td);
    ValidNames(td.fields);
    BoundIsStored(td.fields);
    assert bound + [] == bound && stored + [] == stored;
    BindersInStep(bound, [], "insert");
    BindersInStep(bound, [ROWID], "update");
    BindersInStep(stored, [], "insert_force");
    RowidIsLast(bound);
  }

  lemma RowidIsLast(bound: seq<FieldDef>)
    requires bound != [] && forall f :: f in bound ==> Word(f.name)
    ensures var binders := Binders(bound + [ROWID], "update");
      && binders != []
      && var last := binders[|binders| - 1];
         last.operand == "rowid" && Num(last.index) == Some(|Items(Join(ColumnNames(bound), ", "))| + 1)
  {
    hide Dec, Num, Items, Join, Word;
    assert Binders(bound + [ROWID], "update")[|bound|] == BinderFor(ROWID, "update", |bound| + 1);
    NumOfDec(|bound| + 1);
    ListsParse(bound);
  }
}
