/**
 Which names a table may have: reading back what was written, and writing the row that is meant, hold for every
 object exactly under conditions on the names, and fail on each of the other tables.
 */
module NameClashes {
  import opened Sequences
  import opened Schemas
  import opened Options
  import opened EmitSources
  import opened SqlMeaning
  import opened EmitterRoundTrip

  // ----- two objects that differ in every column -----

  function DefaultOf(t: TypeDef, one: bool): (v: Value) {
    match t
    case TypeText | TypeBlob => TextValue(if one then "1" else "")
    case TypeDouble => RealValue(if one then 1.0 else 0.0)
    case TypeBool => BoolValue(one)
    case TypeEnum(_) => EnumValue(if one then 1 else 0)
    case _ => IntValue(if one then 1 else 0)
  }

  function Filled(fields: seq<FieldDef>, one: bool): (self: Scope) {
    if fields == [] then map["rowid" := IntValue(0)]
    else
      var f := fields[|fields| - 1];
      Filled(fields[..|fields| - 1], one)[f.name := DefaultOf(f.typ, one)]
  }

  /** Enums whose members are 0 and 1. */
  function AllEnums(fields: seq<FieldDef>): (enums: Enums) {
    if fields == [] then map[] else AllEnums(fields[..|fields| - 1])[CType(fields[|fields| - 1].typ) := {0, 1}]
  }

  lemma {:induction false} AllEnumsHas(fields: seq<FieldDef>, f: FieldDef)
    requires f in fields
    ensures CType(f.typ) in AllEnums(fields) && AllEnums(fields)[CType(f.typ)] == {0, 1}
  {
    var n := |fields| - 1;
    assert fields == fields[..n] + [fields[n]];
    if f != fields[n] { AllEnumsHas(fields[..n], f); }
  }

  lemma {:induction false} FilledAt(fields: seq<FieldDef>, one: bool, f: FieldDef)
    requires DistinctNames(fields) && f in fields
    ensures f.name in Filled(fields, one) && Filled(fields, one)[f.name] == DefaultOf(f.typ, one)
  {
    hide DefaultOf;
    var n := |fields| - 1;
    assert fields == fields[..n] + [fields[n]];
    if f != fields[n] { FilledAt(fields[..n], one, f); }
  }

  lemma {:induction false} FilledRowid(fields: seq<FieldDef>, one: bool)
    requires forall f :: f in fields ==> f.name != "rowid"
    ensures "rowid" in Filled(fields, one) && Filled(fields, one)["rowid"] == IntValue(0)
  {
    hide DefaultOf;
    if fields != [] { FilledRowid(fields[..|fields| - 1], one); }
  }

  lemma RowidFits(enums: Enums)
    ensures WellTyped(TypeInt64, IntValue(0), enums) && WellTyped(TypeInt64, IntValue(1), enums)
    ensures WellTyped(TypeInt64, IntValue(2), enums)
  {
  }

  /** Filled, but with the rowid n, in the AUTOINCR field too. */
  function Object(td: TableDef, n: int, one: bool): (self: Scope) {
    var filled, autos := Filled(Stored(td.fields), one), Autos(td.fields);
    (if autos == [] then filled else filled[autos[0] := IntValue(n)])["rowid" := IntValue(n)]
  }

  lemma ObjectAt(td: TableDef, n: int, one: bool, f: FieldDef)
    requires ValidTable(td) && f in Stored(td.fields)
    ensures var self := Object(td, n, one);
      && "rowid" in self && self["rowid"] == IntValue(n)
      && f.name in self && self[f.name] == if f.autoIncrement then IntValue(n) else DefaultOf(f.typ, one)
  {
    hide Filled, DefaultOf, ValidFields;
    ValidNames(td.fields);
    FilledAt(Stored(td.fields), one, f);
    AutosExactly(td.fields, f.name);
    AutosAtMostOne(td.fields);
    if f.name in Autos(td.fields) { AutosAreOne(td.fields, f, f.name); }
  }

  lemma ObjectTyped(td: TableDef, n: int, one: bool)
    requires ValidTable(td) && 0 <= n <= 2
    ensures var self, enums := Object(td, n, one), AllEnums(Stored(td.fields));
      && Typed(Stored(td.fields), self, enums) && Typed(Bound(td.fields), self, enums)
      && Typed(Bound(td.fields) + [ROWID], self, enums) && Insertable(td, self, enums, n)
  {
    hide Object, AllEnums, CType, DefaultOf, ValidFields;
    var stored, bound := Stored(td.fields), Bound(td.fields);
    var enums, self := AllEnums(stored), Object(td, n, one);
    ValidNames(td.fields);
    forall f | f in stored ensures f.name in self && WellTyped(f.typ, self[f.name], enums)
      ensures f.autoIncrement ==> WellTyped(f.typ, IntValue(n), enums)
    {
      ObjectAt(td, n, one, f);
      DefaultTyped(td, n, one, f);
    }
    var all := bound + [ROWID];
    if stored != [] { ObjectAt(td, n, one, stored[0]); } else { ObjectRowid(td, n, one); }
    RowidFits(enums);
    forall i | 0 <= i < |all| ensures all[i].name in self && WellTyped(all[i].typ, self[all[i].name], enums) {
      if i < |bound| { assert all[i] in bound; } else { assert all[i] == ROWID; }
    }
    forall i | 0 <= i < |bound| ensures bound[i].name in self && WellTyped(bound[i].typ, self[bound[i].name], enums) {
      assert all[i] == bound[i];
    }
  }

  lemma ObjectRowid(td: TableDef, n: int, one: bool)
    ensures "rowid" in Object(td, n, one) && Object(td, n, one)["rowid"] == IntValue(n)
  {
  }

  lemma DefaultTyped(td: TableDef, n: int, one: bool, f: FieldDef)
    requires ValidTable(td) && f in Stored(td.fields) && 0 <= n <= 2
    ensures WellTyped(f.typ, DefaultOf(f.typ, one), AllEnums(Stored(td.fields)))
    ensures f.autoIncrement ==> WellTyped(f.typ, IntValue(n), AllEnums(Stored(td.fields)))
  {
    hide ValidFields, AllEnums, CType;
    StoredExactly(td.fields, f);
    AllEnumsHas(Stored(td.fields), f);
    if f.autoIncrement { AutoIsInt(td.fields, f); }
  }

  // ----- what a load makes of a column that it does not read, and of the rowid -----

  /** One more reader, when it succeeds. */
  lemma ReadAllMore(rs: seq<Reader>, f: FieldDef, k: nat, cells: seq<Cell>, enums: Enums, self: Scope)
    requires ReadAll(rs + [ReaderFor(f, k)], cells, enums, self).Some?
    ensures var before := ReadAll(rs, cells, enums, self);
      var after := ReadAll(rs + [ReaderFor(f, k)], cells, enums, self).value;
      && before.Some? && k < |cells| && ReadCell(ReaderFor(f, k), cells[k], enums).Some?
      && after == if ReaderHides(FormOf(f.typ), f.name) then before.value
                  else before.value[f.name := ReadCell(ReaderFor(f, k), cells[k], enums).value]
  {
    hide ReadCell, ReaderHides, ReaderCompiles, Num, Dec, FormOf, CType, SqliteColumn, SqliteMacro;
    NumOfDec(k);
    assert (rs + [ReaderFor(f, k)])[..|rs|] == rs;
  }

  /** Every field of that name is hidden in its reader. */
  ghost predicate HiddenAs(fields: seq<FieldDef>, name: string) {
    forall i :: 0 <= i < |fields| && fields[i].name == name ==> ReaderHides(FormOf(fields[i].typ), name)
  }

  lemma HiddenFront(fields: seq<FieldDef>, n: nat, name: string)
    requires HiddenAs(fields, name) && n < |fields|
    ensures HiddenAs(fields[..n], name) && (fields[n].name == name ==> ReaderHides(FormOf(fields[n].typ), name))
  {
    hide ReaderHides, FormOf;
  }

  lemma NothingRead(fields: seq<FieldDef>, cells: seq<Cell>, enums: Enums, self: Scope)
    requires fields == []
    ensures ReadAll(Readers(fields), cells, enums, self) == Some(self)
  {
  }

  lemma {:induction false} ReadAllKeeps(fields: seq<FieldDef>, cells: seq<Cell>, enums: Enums, self: Scope,
                                        name: string)
    requires HiddenAs(fields, name)
    ensures var r := ReadAll(Readers(fields), cells, enums, self);
      r.Some? ==> (name in r.value <==> name in self) && (name in self ==> r.value[name] == self[name])
  {
    hide *;
    if fields == [] {
      NothingRead(fields, cells, enums, self);
    } else {
      var n := |fields| - 1;
      ReadersStep(fields, n);
      HiddenFront(fields, n, name);
      ReadAllKeeps(fields[..n], cells, enums, self, name);
      if ReadAll(Readers(fields), cells, enums, self).Some? {
        ReadAllMore(Readers(fields[..n]), fields[n], n + 1, cells, enums, self);
      }
    }
  }

  lemma {:induction false} ReadAllTakes(fields: seq<FieldDef>, cells: seq<Cell>, enums: Enums, self: Scope, i: nat)
    requires DistinctNames(fields) && i < |fields| && !ReaderHides(FormOf(fields[i].typ), fields[i].name)
    requires forall j :: i < j < |fields| ==> fields[j].name != fields[i].name
    ensures var r := ReadAll(Readers(fields), cells, enums, self);
      r.Some? ==>
        && i + 1 < |cells| && fields[i].name in r.value
        && ReadCell(ReaderFor(fields[i], i + 1), cells[i + 1], enums) == Some(r.value[fields[i].name])
  {
    hide ReadCell, ReaderHides, FormOf, DistinctNames, ReadAll, Readers, ReaderFor;
    var n := |fields| - 1;
    ReadersStep(fields, n);
    if ReadAll(Readers(fields), cells, enums, self).Some? {
      ReadAllMore(Readers(fields[..n]), fields[n], n + 1, cells, enums, self);
      if i < n {
        DistinctFront(fields, n);
        ReadAllTakes(fields[..n], cells, enums, self, i);
      }
    }
  }

  lemma DistinctFront(fields: seq<FieldDef>, n: nat)
    requires DistinctNames(fields) && n <= |fields|
    ensures DistinctNames(fields[..n])
  {
    assert forall f :: f in fields[..n] ==> f in fields;
  }

  lemma {:induction false} SelectedAt(sql: Sqlite, t: Table, names: seq<string>, found: Inserted, k: nat)
    requires Selected(sql, t, names, found).Some? && k < |names|
    ensures SelectedCell(sql, t, names[k], found) == Some(Selected(sql, t, names, found).value[k])
  {
    hide SelectedCell;
    if k < |names| - 1 { SelectedAt(sql, t, names[..|names| - 1], found, k); }
  }

  /** The cells that a load reads, when it succeeds. */
  lemma LoadedFrom(sql: Sqlite, t: Table, td: TableDef, found: Inserted, enums: Enums, other: Scope)
    returns (cells: seq<Cell>)
    requires ValidTable(td) && Stored(td.fields) != []
    requires LoadObject(sql, t, SourceOf(td), found, enums, other).Some?
    ensures |cells| == |Stored(td.fields)| + 1 && cells[0] == RowidCell(t, found.rowid, found.row)
    ensures forall i :: 0 <= i < |Stored(td.fields)| ==>
      SelectedCell(sql, t, Stored(td.fields)[i].name, found) == Some(cells[i + 1])
    ensures LoadObject(sql, t, SourceOf(td), found, enums, other)
         == ReadAll(Readers(Stored(td.fields)), cells, enums, other["rowid" := IntValue(RowidRead(sql, cells[0]))])
  {
    hide SourceOf, ValidFields, Join, Items, Selected, SelectedCell, RowidCell, Word, ReadAll, Readers;
    var stored := Stored(td.fields);
    SourceParts(td);
    ValidNames(td.fields);
    SelectList(stored);
    var names := ["rowid"] + ColumnNames(stored);
    cells := Selected(sql, t, names, found).value;
    SelectedAt(sql, t, names, found, 0);
    RowidSelected(sql, t, found);
    forall i | 0 <= i < |stored| ensures SelectedCell(sql, t, stored[i].name, found) == Some(cells[i + 1]) {
      SelectedAt(sql, t, names, found, i + 1);
    }
  }

  lemma RowidSelected(sql: Sqlite, t: Table, found: Inserted)
    ensures SelectedCell(sql, t, "rowid", found) == Some(RowidCell(t, found.rowid, found.row))
  {
    FoldRowid();
  }

  /** The reader does not take the column from the row: a variable hides it, or SELECT computes something else. */
  ghost predicate Unread(sql: Sqlite, f: FieldDef) {
    ReaderHides(FormOf(f.typ), f.name) || Fold(f.name) in sql.computed
  }

  lemma HiddenLoaded(sql: Sqlite, t: Table, td: TableDef, found: Inserted, enums: Enums, other: Scope, f: FieldDef)
    requires ValidTable(td) && f in Stored(td.fields) && ReaderHides(FormOf(f.typ), f.name) && f.name in other
    ensures var r := LoadObject(sql, t, SourceOf(td), found, enums, other);
      r.Some? ==> f.name in r.value && r.value[f.name] == other[f.name]
  {
    hide *;
    var r := LoadObject(sql, t, SourceOf(td), found, enums, other);
    HiddenEverywhere(td, f);
    if r.Some? {
      var cells := LoadedFrom(sql, t, td, found, enums, other);
      ReadAllKeeps(Stored(td.fields), cells, enums, other["rowid" := IntValue(RowidRead(sql, cells[0]))], f.name);
    }
  }

  lemma HiddenEverywhere(td: TableDef, f: FieldDef)
    requires ValidTable(td) && f in Stored(td.fields) && ReaderHides(FormOf(f.typ), f.name)
    ensures f.name != "rowid" && Stored(td.fields) != []
    ensures HiddenAs(Stored(td.fields), f.name)
  {
    hide ReaderHides, FormOf, ValidFields, Stored, Word;
    ValidNames(td.fields);
  }

  lemma ComputedLoaded(sql: Sqlite, t: Table, td: TableDef, found: Inserted, enums: Enums, other: Scope, i: nat)
    requires ValidTable(td) && i < |Stored(td.fields)|
    requires var f := Stored(td.fields)[i];
      Fold(f.name) in sql.computed && !ReaderHides(FormOf(f.typ), f.name)
    ensures var f, r := Stored(td.fields)[i], LoadObject(sql, t, SourceOf(td), found, enums, other);
      var cell := sql.computed[Fold(f.name)];
      r.Some? ==>
        cell.Some? && f.name in r.value && ReadCell(ReaderFor(f, i + 1), cell.value, enums) == Some(r.value[f.name])
  {
    var r := LoadObject(sql, t, SourceOf(td), found, enums, other);
    hide LoadObject, SourceOf, ValidFields, ReadAll, Readers, ReaderHides, RowidCell, RowidRead, Word, ReadCell, Fold;
    hide ReaderFor, FormOf;
    if r.Some? {
      var cells := LoadedFrom(sql, t, td, found, enums, other);
      ValidNames(td.fields);
      OnlyThere(td, i);
      ReadAllTakes(Stored(td.fields), cells, enums, other["rowid" := IntValue(RowidRead(sql, cells[0]))], i);
    }
  }

  /** So what a load leaves there does not depend on the row. */
  lemma UnreadAlike(sql: Sqlite, t: Table, td: TableDef, a: Inserted, b: Inserted, enums: Enums, other: Scope,
                    f: FieldDef)
    requires ValidTable(td) && f in Stored(td.fields) && Unread(sql, f) && f.name in other
    ensures var x := LoadObject(sql, t, SourceOf(td), a, enums, other);
      var y := LoadObject(sql, t, SourceOf(td), b, enums, other);
      x.Some? && y.Some? ==> f.name in x.value && f.name in y.value && x.value[f.name] == y.value[f.name]
  {
    hide LoadObject, SourceOf, ValidFields, ReaderHides, ReadCell, Fold, ReaderFor, FormOf;
    if ReaderHides(FormOf(f.typ), f.name) {
      HiddenLoaded(sql, t, td, a, enums, other, f);
      HiddenLoaded(sql, t, td, b, enums, other, f);
    } else {
      var i :| 0 <= i < |Stored(td.fields)| && Stored(td.fields)[i] == f;
      ComputedLoaded(sql, t, td, a, enums, other, i);
      ComputedLoaded(sql, t, td, b, enums, other, i);
    }
  }

  lemma OnlyThere(td: TableDef, i: nat)
    requires ValidTable(td) && i < |Stored(td.fields)|
    ensures forall j :: i < j < |Stored(td.fields)| ==> Stored(td.fields)[j].name != Stored(td.fields)[i].name
  {
    var stored := Stored(td.fields);
    StoredNoDup(td.fields);
    forall j | i < j < |stored| ensures stored[j].name != stored[i].name {
      assert ColumnNames(stored)[i] != ColumnNames(stored)[j];
    }
  }

  /** Of two objects that differ in such a column, at most one is read back. */
  lemma NotBothLoaded(sql: Sqlite, t: Table, td: TableDef, a: Inserted, b: Inserted, enums: Enums,
                      wantA: Scope, wantB: Scope, other: Scope, f: FieldDef)
    requires ValidTable(td) && f in Stored(td.fields) && Unread(sql, f) && f.name in other
    requires f.name in wantA && f.name in wantB && wantA[f.name] != wantB[f.name]
    ensures !LoadsBack(sql, t, td, a, enums, wantA, other) || !LoadsBack(sql, t, td, b, enums, wantB, other)
  {
    hide LoadObject, SourceOf, ValidFields, Unread;
    UnreadAlike(sql, t, td, a, b, enums, other, f);
    assert f in Stored(td.fields) + [ROWID];
  }

  /** Of two objects whose rows have the same cell for `rowid`, but not the same rowid, at most one is read back. */
  lemma NotBothRowids(sql: Sqlite, t: Table, td: TableDef, a: Inserted, b: Inserted, enums: Enums,
                      wantA: Scope, wantB: Scope, other: Scope)
    requires ValidTable(td) && Stored(td.fields) != []
    requires RowidCell(t, a.rowid, a.row) == RowidCell(t, b.rowid, b.row)
    requires "rowid" in wantA && "rowid" in wantB && wantA["rowid"] != wantB["rowid"]
    ensures !LoadsBack(sql, t, td, a, enums, wantA, other) || !LoadsBack(sql, t, td, b, enums, wantB, other)
  {
    hide LoadObject, SourceOf, ValidFields, RowidCell;
    LoadedRowid(sql, t, td, a, enums, other);
    LoadedRowid(sql, t, td, b, enums, other);
    assert ROWID in Stored(td.fields) + [ROWID];
  }

  lemma LoadedRowid(sql: Sqlite, t: Table, td: TableDef, found: Inserted, enums: Enums, other: Scope)
    requires ValidTable(td) && Stored(td.fields) != []
    ensures var r := LoadObject(sql, t, SourceOf(td), found, enums, other);
      r.Some? ==>
        && "rowid" in r.value
        && r.value["rowid"] == IntValue(RowidRead(sql, RowidCell(t, found.rowid, found.row)))
  {
    var r := LoadObject(sql, t, SourceOf(td), found, enums, other);
    hide LoadObject, SourceOf, ValidFields, RowidCell, ReadAll, Readers, ReaderHides, Word, RowidRead;
    if r.Some? {
      var cells := LoadedFrom(sql, t, td, found, enums, other);
      ValidNames(td.fields);
      ReadAllKeeps(Stored(td.fields), cells, enums, other["rowid" := IntValue(RowidRead(sql, cells[0]))], "rowid");
    }
  }

  // ----- insert -----

  /** Every object in this table is inserted and read back. */
  ghost predicate InsertsReadBack(sql: Sqlite, td: TableDef)
    requires ValidTable(td)
  {
    forall self: Scope, enums: Enums, next: int, other: Scope ::
      Insertable(td, self, enums, next) && Typed(Stored(td.fields), other, enums) ==>
      InsertReadsBack(sql, td, self, enums, next, other)
  }

  /**
   Every insert of every object is read back into every object of the class, AUTOINCR field and rowid included,
   exactly when some column is bound and every column is well named.
   */
  lemma InsertThenLoadExactly(sql: Sqlite, td: TableDef)
    requires ValidTable(td)
    ensures InsertsReadBack(sql, td) <==> Bound(td.fields) != [] && WellNamed(sql, td)
  {
    hide InsertReadsBack, Insertable, Typed, WellNamed;
    if Bound(td.fields) != [] && WellNamed(sql, td) {
      forall self: Scope, enums: Enums, next: int, other: Scope
        | Insertable(td, self, enums, next) && Typed(Stored(td.fields), other, enums)
        ensures InsertReadsBack(sql, td, self, enums, next, other)
      {
        InsertThenLoad(sql, td, self, enums, next, other);
      }
    } else if InsertsReadBack(sql, td) {
      InsertClash(sql, td);
    }
  }

  lemma InsertClash(sql: Sqlite, td: TableDef)
    requires ValidTable(td) && (Bound(td.fields) == [] || !WellNamed(sql, td))
    ensures !InsertsReadBack(sql, td)
  {
    var stored := Stored(td.fields);
    var enums := AllEnums(stored);
    hide AllEnums, Object, ValidFields, Fold, InsertReadsBack, Insertable, Typed, TableNamed, DistinctKeys, ReaderHides;
    ObjectTyped(td, 0, false);
    ObjectTyped(td, 1, true);
    ObjectTyped(td, 1, false);
    if InsertsReadBack(sql, td) {
      assert InsertReadsBack(sql, td, Object(td, 0, false), enums, 0, Object(td, 1, true));
      assert InsertReadsBack(sql, td, Object(td, 1, true), enums, 1, Object(td, 1, true));
      assert InsertReadsBack(sql, td, Object(td, 1, false), enums, 1, Object(td, 1, true));
      InsertPrepared(sql, td, Object(td, 0, false), enums, 0, Object(td, 1, true));
      if f :| f in stored && Unread(sql, f) {
        InsertUnread(sql, td, f);
      } else {
        var f :| f in stored && Fold(f.name) == "rowid" && !f.autoIncrement;
        InsertRowid(sql, td, f);
      }
      assert false;
    }
  }

  /** Reading anything back takes a table, and a column to bind. */
  lemma InsertPrepared(sql: Sqlite, td: TableDef, self: Scope, enums: Enums, next: int, other: Scope)
    requires ValidTable(td) && InsertReadsBack(sql, td, self, enums, next, other)
    ensures Creatable(sql, td) && Bound(td.fields) != []
  {
    hide LoadsBack, ValidFields, TableOf, SourceOf, Prepared, BindAll, Creatable;
    CreatedExactly(sql, td);
    InsertPreparesExactly(sql, td);
  }

  lemma InsertUnread(sql: Sqlite, td: TableDef, f: FieldDef)
    requires ValidTable(td) && Creatable(sql, td) && Bound(td.fields) != [] && f in Stored(td.fields) && Unread(sql, f)
    ensures var enums, other := AllEnums(Stored(td.fields)), Object(td, 1, true);
      || !InsertReadsBack(sql, td, Object(td, 0, false), enums, 0, other)
      || !InsertReadsBack(sql, td, Object(td, 1, true), enums, 1, other)
  {
    var enums, a, b := AllEnums(Stored(td.fields)), Object(td, 0, false), Object(td, 1, true);
    var t, src, autos := TableFor(td), SourceOf(td), Autos(td.fields);
    hide AllEnums, Object, ValidFields, Fold, TableFor, TableOf, SourceOf, LoadsBack, InsertObject, Creatable, Unread;
    hide AfterInsert, DefaultOf;
    CreatedExactly(sql, td);
    SourceParts(td);
    ObjectAt(td, 0, false, f);
    ObjectAt(td, 1, true, f);
    FetchedField(td, a, 0, f);
    FetchedField(td, b, 1, f);
    DefaultsDiffer(f);
    var x, y := InsertObject(t, src, a, 0), InsertObject(t, src, b, 1);
    if x.Some? && y.Some? {
      NotBothLoaded(sql, t, td, x.value, y.value, enums, AfterInsert(autos, a, 0), AfterInsert(autos, b, 1), b, f);
    }
  }

  /** After insert() the AUTOINCR field is the rowid, and any other is as it was. */
  lemma FetchedField(td: TableDef, self: Scope, next: int, f: FieldDef)
    requires ValidTable(td) && f in Stored(td.fields) && f.name in self
    ensures var after := AfterInsert(Autos(td.fields), self, next);
      f.name in after && after[f.name] == if f.autoIncrement then IntValue(next) else self[f.name]
  {
    hide ValidFields, AfterInsert;
    ValidNames(td.fields);
    FetchedHolds(Autos(td.fields), self, next, f.name);
    AutosExactly(td.fields, f.name);
    if f.name in Autos(td.fields) { AutosAreOne(td.fields, f, f.name); }
  }

  lemma DefaultsDiffer(f: FieldDef)
    ensures DefaultOf(f.typ, false) != DefaultOf(f.typ, true)
  {
  }

  lemma InsertRowid(sql: Sqlite, td: TableDef, f: FieldDef)
    requires ValidTable(td) && Creatable(sql, td) && Bound(td.fields) != []
    requires f in Stored(td.fields) && Fold(f.name) == "rowid" && !f.autoIncrement
    ensures var enums, other := AllEnums(Stored(td.fields)), Object(td, 1, true);
      || !InsertReadsBack(sql, td, Object(td, 0, false), enums, 0, other)
      || !InsertReadsBack(sql, td, Object(td, 1, false), enums, 1, other)
  {
    var enums, other := AllEnums(Stored(td.fields)), Object(td, 1, true);
    var a, b := Object(td, 0, false), Object(td, 1, false);
    var t, src, autos := TableFor(td), SourceOf(td), Autos(td.fields);
    hide AllEnums, Object, ValidFields, Fold, TableFor, TableOf, SourceOf, LoadsBack, InsertObject, Creatable,
         RowidCell;
    hide AfterInsert, DefaultOf, InsertedRow, CellOf;
    CreatedExactly(sql, td);
    CreatableKeys(sql, td);
    SourceParts(td);
    ObjectTyped(td, 0, false);
    ObjectTyped(td, 1, false);
    InsertWrites(td, a, enums, 0);
    InsertWrites(td, b, enums, 1);
    ObjectAt(td, 0, false, f);
    ObjectAt(td, 1, false, f);
    InsertedCell(td, a, 0, f);
    InsertedCell(td, b, 1, f);
    CellOfSame(f, a, b);
    RowidHidden(td, 0, InsertedRow(td, a, 0), f);
    RowidHidden(td, 1, InsertedRow(td, b, 1), f);
    FetchedHolds(autos, a, 0, "rowid");
    FetchedHolds(autos, b, 1, "rowid");
    NotBothRowids(sql, t, td, Inserted(0, InsertedRow(td, a, 0)), Inserted(1, InsertedRow(td, b, 1)), enums,
                  AfterInsert(autos, a, 0), AfterInsert(autos, b, 1), other);
  }

  lemma InsertedCell(td: TableDef, self: Scope, next: int, f: FieldDef)
    requires ValidTable(td) && DistinctKeys(Stored(td.fields)) && f in Stored(td.fields) && !f.autoIncrement
    ensures var row := InsertedRow(td, self, next);
      Fold(f.name) in row && row[Fold(f.name)] == CellOf(f, self)
  {
    hide Fold, ValidFields, RowOf, CellOf;
    ValidNames(td.fields);
    StoredExactly(td.fields, f);
    assert forall g :: g in Bound(td.fields) ==> g in Stored(td.fields);
    RowOfAt(Bound(td.fields), self, f);
    AliasIs(td, f);
  }

  // ----- forced insert -----

  ghost predicate ForcesReadBack(sql: Sqlite, td: TableDef)
    requires ValidTable(td)
  {
    forall self: Scope, enums: Enums, next: int, other: Scope ::
      Typed(Stored(td.fields), self, enums) && Typed(Stored(td.fields), other, enums) ==>
      ForceReadsBack(sql, td, self, enums, next, other)
  }

  /** Every forced insert of every object is read back exactly when every column is well named. */
  lemma ForceThenLoadExactly(sql: Sqlite, td: TableDef)
    requires ValidTable(td)
    ensures ForcesReadBack(sql, td) <==> WellNamed(sql, td)
  {
    hide ForceReadsBack, Typed, WellNamed;
    if WellNamed(sql, td) {
      forall self: Scope, enums: Enums, next: int, other: Scope
        | Typed(Stored(td.fields), self, enums) && Typed(Stored(td.fields), other, enums)
        ensures ForceReadsBack(sql, td, self, enums, next, other)
      {
        ForceThenLoad(sql, td, self, enums, next, other);
      }
    } else if ForcesReadBack(sql, td) {
      ForceClash(sql, td);
    }
  }

  lemma ForceClash(sql: Sqlite, td: TableDef)
    requires ValidTable(td) && !WellNamed(sql, td)
    ensures !ForcesReadBack(sql, td)
  {
    var stored := Stored(td.fields);
    var enums := AllEnums(stored);
    hide AllEnums, Object, ValidFields, Fold, ForceReadsBack, Typed, TableNamed, DistinctKeys, ReaderHides;
    ObjectTyped(td, 0, false);
    ObjectTyped(td, 1, true);
    ObjectTyped(td, 1, false);
    if ForcesReadBack(sql, td) {
      assert ForceReadsBack(sql, td, Object(td, 0, false), enums, 0, Object(td, 1, true));
      assert ForceReadsBack(sql, td, Object(td, 1, true), enums, 1, Object(td, 1, true));
      assert ForceReadsBack(sql, td, Object(td, 1, false), enums, 1, Object(td, 1, true));
      ForcePrepared(sql, td, Object(td, 0, false), enums, 0, Object(td, 1, true));
      if f :| f in stored && Unread(sql, f) {
        ForceUnread(sql, td, f);
      } else {
        var f :| f in stored && Fold(f.name) == "rowid" && !f.autoIncrement;
        ForceRowid(sql, td, f);
      }
      assert false;
    }
  }

  lemma ForcePrepared(sql: Sqlite, td: TableDef, self: Scope, enums: Enums, next: int, other: Scope)
    requires ValidTable(td) && ForceReadsBack(sql, td, self, enums, next, other)
    ensures Creatable(sql, td)
  {
    hide LoadsBack, ValidFields, TableOf, SourceOf, Creatable;
    CreatedExactly(sql, td);
  }

  lemma ForceUnread(sql: Sqlite, td: TableDef, f: FieldDef)
    requires ValidTable(td) && Creatable(sql, td) && f in Stored(td.fields) && Unread(sql, f)
    ensures var enums, other := AllEnums(Stored(td.fields)), Object(td, 1, true);
      || !ForceReadsBack(sql, td, Object(td, 0, false), enums, 0, other)
      || !ForceReadsBack(sql, td, Object(td, 1, true), enums, 1, other)
  {
    var enums, a, b := AllEnums(Stored(td.fields)), Object(td, 0, false), Object(td, 1, true);
    var t, src := TableFor(td), SourceOf(td);
    hide AllEnums, Object, ValidFields, Fold, TableFor, TableOf, SourceOf, LoadsBack, ForceObject, Creatable, Unread;
    hide DefaultOf;
    CreatedExactly(sql, td);
    ObjectAt(td, 0, false, f);
    ObjectAt(td, 1, true, f);
    DefaultsDiffer(f);
    ValidNames(td.fields);
    var x, y := ForceObject(t, src, a, 0), ForceObject(t, src, b, 1);
    if x.Some? && y.Some? {
      NotBothLoaded(sql, t, td, x.value, y.value, enums, a["rowid" := IntValue(x.value.rowid)],
                    b["rowid" := IntValue(y.value.rowid)], b, f);
    }
  }

  lemma ForceRowid(sql: Sqlite, td: TableDef, f: FieldDef)
    requires ValidTable(td) && Creatable(sql, td)
    requires f in Stored(td.fields) && Fold(f.name) == "rowid" && !f.autoIncrement
    ensures var enums, other := AllEnums(Stored(td.fields)), Object(td, 1, true);
      || !ForceReadsBack(sql, td, Object(td, 0, false), enums, 0, other)
      || !ForceReadsBack(sql, td, Object(td, 1, false), enums, 1, other)
  {
    var stored, enums := Stored(td.fields), AllEnums(Stored(td.fields));
    var a, b := Object(td, 0, false), Object(td, 1, false);
    var t, src, other := TableFor(td), SourceOf(td), Object(td, 1, true);
    hide AllEnums, Object, ValidFields, Fold, TableFor, TableOf, SourceOf, LoadsBack, ForceObject, Creatable, RowidCell;
    hide DefaultOf, RowOf, CellOf, ForcedRowid;
    CreatedExactly(sql, td);
    CreatableKeys(sql, td);
    ObjectTyped(td, 0, false);
    ObjectTyped(td, 1, false);
    ForceWrites(td, a, enums, 0);
    ForceWrites(td, b, enums, 1);
    ObjectForced(td, 0, false);
    ObjectForced(td, 1, false);
    ObjectAt(td, 0, false, f);
    ObjectAt(td, 1, false, f);
    RowOfAt(stored, a, f);
    RowOfAt(stored, b, f);
    CellOfSame(f, a, b);
    RowidHidden(td, 0, RowOf(stored, a), f);
    RowidHidden(td, 1, RowOf(stored, b), f);
    NotBothRowids(sql, t, td, Inserted(0, RowOf(stored, a)), Inserted(1, RowOf(stored, b)), enums,
                  a["rowid" := IntValue(0)], b["rowid" := IntValue(1)], other);
  }

  lemma ObjectForced(td: TableDef, n: int, one: bool)
    requires ValidTable(td)
    ensures ForcedRowid(td, Object(td, n, one), n) == n
  {
    hide ValidFields, Filled;
    var autos := Autos(td.fields);
    if autos != [] {
      AutosExactly(td.fields, autos[0]);
      var f :| f in Stored(td.fields) && f.autoIncrement && f.name == autos[0];
      ObjectAt(td, n, one, f);
    }
  }

  // ----- update -----

  /** The table can be created, and every update of every row of it is read back. */
  ghost predicate UpdatesReadBack(sql: Sqlite, td: TableDef)
    requires ValidTable(td)
  {
    TableOf(sql, td).Some? && forall self: Scope, enums: Enums, rows: Rows, id: int, before: Scope, other: Scope ::
      Updatable(td, self, enums, rows, id, before) && Typed(Stored(td.fields), other, enums) ==>
      UpdateReadsBack(sql, td, self, enums, rows, id, other)
  }

  /** Every update of every row is read back exactly when some column is bound and every column is well named. */
  lemma UpdateThenLoadExactly(sql: Sqlite, td: TableDef)
    requires ValidTable(td)
    ensures UpdatesReadBack(sql, td) <==> Bound(td.fields) != [] && WellNamed(sql, td)
  {
    hide UpdateReadsBack, Updatable, Typed, Creatable, Selectable, RowidFree, Visible, TableOf;
    if Bound(td.fields) != [] && WellNamed(sql, td) {
      CreatedExactly(sql, td);
      forall self: Scope, enums: Enums, rows: Rows, id: int, before: Scope, other: Scope
        | Updatable(td, self, enums, rows, id, before) && Typed(Stored(td.fields), other, enums)
        ensures UpdateReadsBack(sql, td, self, enums, rows, id, other)
      {
        UpdateThenLoad(sql, td, self, enums, rows, id, before, other);
      }
    } else if UpdatesReadBack(sql, td) {
      UpdateClash(sql, td);
    }
  }

  /** The object and nothing else in the table. */
  function OnlyRow(td: TableDef, n: int, one: bool): (rows: Rows) {
    map[n := RowOf(Stored(td.fields), Object(td, n, one))]
  }

  lemma ObjectUpdatable(td: TableDef, n: int, one: bool)
    requires ValidTable(td) && DistinctKeys(Stored(td.fields)) && 0 <= n <= 2
    ensures Updatable(td, Object(td, n, one), AllEnums(Stored(td.fields)), OnlyRow(td, n, one), n, Object(td, n, one))
  {
    hide AllEnums, Object, ValidFields, Fold, RowOf, CellOf, DefaultOf, Typed;
    var stored, self := Stored(td.fields), Object(td, n, one);
    ObjectTyped(td, n, one);
    ObjectRowid(td, n, one);
    forall f | f in stored
      ensures Fold(f.name) in RowOf(stored, self) && RowOf(stored, self)[Fold(f.name)] == CellOf(f, self)
      ensures f.autoIncrement ==> f.name in self && self[f.name] == IntValue(n)
    {
      RowOfAt(stored, self, f);
      ObjectAt(td, n, one, f);
    }
  }

  lemma UpdateClash(sql: Sqlite, td: TableDef)
    requires ValidTable(td) && (Bound(td.fields) == [] || !WellNamed(sql, td))
    ensures !UpdatesReadBack(sql, td)
  {
    var stored := Stored(td.fields);
    var enums := AllEnums(stored);
    hide AllEnums, Object, ValidFields, Fold, UpdateReadsBack, Updatable, Typed, TableNamed, ReaderHides, OnlyRow;
    hide DistinctKeys, TableOf, TableFor;
    CreatedExactly(sql, td);
    if UpdatesReadBack(sql, td) {
      ObjectTyped(td, 1, true);
      ObjectUpdatable(td, 0, false);
      ObjectUpdatable(td, 1, true);
      ObjectUpdatable(td, 1, false);
      assert UpdateReadsBack(sql, td, Object(td, 0, false), enums, OnlyRow(td, 0, false), 0, Object(td, 1, true));
      assert UpdateReadsBack(sql, td, Object(td, 1, true), enums, OnlyRow(td, 1, true), 1, Object(td, 1, true));
      assert UpdateReadsBack(sql, td, Object(td, 1, false), enums, OnlyRow(td, 1, false), 1, Object(td, 1, true));
      UpdatePrepared(sql, td, Object(td, 0, false), OnlyRow(td, 0, false), 0, Object(td, 1, true));
      if f :| f in stored && Unread(sql, f) {
        UpdateUnread(sql, td, f);
      } else {
        var f :| f in stored && Fold(f.name) == "rowid" && !f.autoIncrement;
        UpdateRowid(sql, td, f);
      }
      assert false;
    }
  }

  lemma UpdatePrepared(sql: Sqlite, td: TableDef, self: Scope, rows: Rows, id: int, other: Scope)
    requires ValidTable(td) && UpdateReadsBack(sql, td, self, AllEnums(Stored(td.fields)), rows, id, other)
    ensures Creatable(sql, td) && Bound(td.fields) != []
  {
    hide LoadsBack, ValidFields, TableOf, SourceOf, Prepared, BindAll, Creatable, WhereRowid, Rewrite;
    CreatedExactly(sql, td);
    InsertPreparesExactly(sql, td);
  }

  lemma UpdateUnread(sql: Sqlite, td: TableDef, f: FieldDef)
    requires ValidTable(td) && Creatable(sql, td) && f in Stored(td.fields) && Unread(sql, f)
    ensures var enums, other := AllEnums(Stored(td.fields)), Object(td, 1, true);
      || !UpdateReadsBack(sql, td, Object(td, 0, false), enums, OnlyRow(td, 0, false), 0, other)
      || !UpdateReadsBack(sql, td, Object(td, 1, true), enums, OnlyRow(td, 1, true), 1, other)
  {
    var enums, a, b := AllEnums(Stored(td.fields)), Object(td, 0, false), Object(td, 1, true);
    var t, src := TableFor(td), SourceOf(td);
    hide AllEnums, Object, ValidFields, Fold, TableFor, TableOf, SourceOf, LoadsBack, UpdateObject, Creatable, Unread;
    hide DefaultOf, OnlyRow;
    CreatedExactly(sql, td);
    ObjectAt(td, 0, false, f);
    ObjectAt(td, 1, true, f);
    DefaultsDiffer(f);
    var x, y := UpdateObject(t, src, a, OnlyRow(td, 0, false)), UpdateObject(t, src, b, OnlyRow(td, 1, true));
    if x.Some? && y.Some? && 0 in x.value && 1 in y.value {
      NotBothLoaded(sql, t, td, Inserted(0, x.value[0]), Inserted(1, y.value[1]), enums, a, b, b, f);
    }
  }

  lemma UpdateRowid(sql: Sqlite, td: TableDef, f: FieldDef)
    requires ValidTable(td) && Creatable(sql, td)
    requires f in Stored(td.fields) && Fold(f.name) == "rowid" && !f.autoIncrement
    ensures var enums, other := AllEnums(Stored(td.fields)), Object(td, 1, true);
      || !UpdateReadsBack(sql, td, Object(td, 0, false), enums, OnlyRow(td, 0, false), 0, other)
      || !UpdateReadsBack(sql, td, Object(td, 1, false), enums, OnlyRow(td, 1, false), 1, other)
  {
    var enums, other := AllEnums(Stored(td.fields)), Object(td, 1, true);
    var a, b := Object(td, 0, false), Object(td, 1, false);
    var t, src := TableFor(td), SourceOf(td);
    hide AllEnums, Object, ValidFields, Fold, TableFor, TableOf, SourceOf, LoadsBack, UpdateObject, Creatable,
         RowidCell;
    hide DefaultOf, CellOf, OnlyRow;
    CreatedExactly(sql, td);
    CreatableKeys(sql, td);
    ObjectAt(td, 0, false, f);
    ObjectAt(td, 1, false, f);
    CellOfSame(f, a, b);
    UpdatedCell(td, 0, f);
    UpdatedCell(td, 1, f);
    var x := UpdateObject(t, src, a, OnlyRow(td, 0, false)).value[0];
    var y := UpdateObject(t, src, b, OnlyRow(td, 1, false)).value[1];
    RowidHidden(td, 0, x, f);
    RowidHidden(td, 1, y, f);
    NotBothRowids(sql, t, td, Inserted(0, x), Inserted(1, y), enums, a, b, other);
  }

  /** Whether or not the update finds the row, it holds the object's own cell afterwards, as it did before. */
  lemma UpdatedCell(td: TableDef, n: int, f: FieldDef)
    requires ValidTable(td) && DistinctKeys(Stored(td.fields)) && f in Stored(td.fields) && !f.autoIncrement
    requires 0 <= n <= 2
    ensures var written := UpdateObject(TableFor(td), SourceOf(td), Object(td, n, false), OnlyRow(td, n, false));
      && written.Some? && n in written.value && Fold(f.name) in written.value[n]
      && written.value[n][Fold(f.name)] == CellOf(f, Object(td, n, false))
  {
    var self, enums := Object(td, n, false), AllEnums(Stored(td.fields));
    hide AllEnums, Object, ValidFields, Fold, TableFor, SourceOf, UpdateObject, CellOf, RowOf, Picked, WhereRowid,
         CellsOf;
    ValidNames(td.fields);
    StoredExactly(td.fields, f);
    assert forall g :: g in Bound(td.fields) ==> g in Stored(td.fields);
    assert f in Bound(td.fields);
    ObjectTyped(td, n, false);
    UpdateRewrites(td, self, enums, OnlyRow(td, n, false));
    AliasNotBound(td, self);
    RowOfAt(Stored(td.fields), self, f);
    RowOfAt(Bound(td.fields), self, f);
  }

  // ----- which row an update writes -----

  ghost predicate UpdatesWriteTheirRows(sql: Sqlite, td: TableDef)
    requires ValidTable(td)
  {
    forall self: Scope, enums: Enums, rows: Rows ::
      Typed(Bound(td.fields) + [ROWID], self, enums) ==> WritesItsRow(sql, td, self, rows)
  }

  /** Every update() writes the object's own row and no other, exactly when `rowid` means the rowid. */
  lemma UpdateWritesItsRowExactly(sql: Sqlite, td: TableDef)
    requires ValidTable(td)
    ensures UpdatesWriteTheirRows(sql, td)
       <==> Bound(td.fields) != [] && Creatable(sql, td) && RowidFree(Stored(td.fields))
  {
    hide WritesItsRow, Typed, Creatable, RowidFree, Fold;
    if Bound(td.fields) != [] && Creatable(sql, td) && RowidFree(Stored(td.fields)) {
      forall self: Scope, enums: Enums, rows: Rows | Typed(Bound(td.fields) + [ROWID], self, enums)
        ensures WritesItsRow(sql, td, self, rows)
      {
        UpdateWritesItsRow(sql, td, self, enums, rows);
      }
    } else if UpdatesWriteTheirRows(sql, td) {
      hide Object, OnlyRow;
      ObjectTyped(td, 2, true);
      assert WritesItsRow(sql, td, Object(td, 2, true), OnlyRow(td, 2, false));
      WritePrepared(sql, td, Object(td, 2, true), OnlyRow(td, 2, false));
      MisledUpdate(sql, td);
      assert false;
    }
  }

  lemma WritePrepared(sql: Sqlite, td: TableDef, self: Scope, rows: Rows)
    requires ValidTable(td) && WritesItsRow(sql, td, self, rows)
    ensures Creatable(sql, td) && Bound(td.fields) != []
  {
    hide ValidFields, TableOf, SourceOf, Prepared, BindAll, Creatable, WhereRowid, Rewrite;
    CreatedExactly(sql, td);
    InsertPreparesExactly(sql, td);
  }

  /** A column that hides the rowid holds 0 or 1, so the WHERE clause misses row 2, which is the object's. */
  lemma MisledUpdate(sql: Sqlite, td: TableDef)
    requires ValidTable(td) && Creatable(sql, td) && Bound(td.fields) != [] && !RowidFree(Stored(td.fields))
    ensures !WritesItsRow(sql, td, Object(td, 2, true), OnlyRow(td, 2, false))
  {
    var stored, bound, enums := Stored(td.fields), Bound(td.fields), AllEnums(Stored(td.fields));
    var self, rows, t := Object(td, 2, true), OnlyRow(td, 2, false), TableFor(td);
    hide AllEnums, Object, ValidFields, Fold, TableFor, TableOf, SourceOf, UpdateObject, CellOf, RowOf, WhereRowid,
         CellsOf;
    hide Creatable, Rewrite;
    CreatedExactly(sql, td);
    CreatableKeys(sql, td);
    ValidNames(td.fields);
    ObjectTyped(td, 2, true);
    ObjectRowid(td, 2, true);
    RowidTyped(bound, self, enums);
    UpdateRewrites(td, self, enums, rows);
    AliasNotBound(td, self);
    NothingPicked(td, [Integer(2)]);
    NoneRewritten(rows, [Integer(2)], WhereRowid(t), RowOf(bound, self), AliasOf(td));
    var f := bound[0];
    assert forall g :: g in bound ==> g in stored;
    RowOfAt(stored, Object(td, 2, false), f);
    RowOfAt(bound, self, f);
    ObjectAt(td, 2, false, f);
    ObjectAt(td, 2, true, f);
    CellsDiffer(td, f);
    assert 2 in rows;
  }

  lemma CellsDiffer(td: TableDef, f: FieldDef)
    requires ValidTable(td) && f in Stored(td.fields) && !f.autoIncrement
    ensures CellOf(f, Object(td, 2, false)) != CellOf(f, Object(td, 2, true))
  {
    hide Object, ValidFields;
    StoredExactly(td.fields, f);
    ObjectAt(td, 2, false, f);
    ObjectAt(td, 2, true, f);
  }

  lemma NothingPicked(td: TableDef, ws: seq<Cell>)
    requires ValidTable(td) && DistinctKeys(Stored(td.fields)) && !RowidFree(Stored(td.fields)) && ws == [Integer(2)]
    ensures Picked(OnlyRow(td, 2, false), ws, WhereRowid(TableFor(td))) == {}
  {
    hide Object, ValidFields, Fold, TableFor, RowidCell, CellOf, RowOf, CellEquals;
    var stored, self := Stored(td.fields), Object(td, 2, false);
    var f :| f in stored && Fold(f.name) == "rowid" && !f.autoIncrement;
    RowOfAt(stored, self, f);
    RowidHidden(td, 2, RowOf(stored, self), f);
    SmallCell(td, f);
  }

  lemma SmallCell(td: TableDef, f: FieldDef)
    requires ValidTable(td) && f in Stored(td.fields) && !f.autoIncrement
    ensures !CellEquals(CellOf(f, Object(td, 2, false)), 2)
  {
    hide Object, ValidFields;
    StoredExactly(td.fields, f);
    ObjectAt(td, 2, false, f);
    assert Dec(2) == "2";
  }

  lemma NoneRewritten(rows: Rows, ws: seq<Cell>, where: (seq<Cell>, int, Row) -> bool, row: Row, alias: seq<string>)
    requires Picked(rows, ws, where) == {}
    ensures Rewrite(rows, ws, where, row, alias) == Some(rows)
  {
    assert Extend(rows, {}, row) == rows;
  }

  // ----- tables where it goes wrong -----

  lemma OneField(td: TableDef, f: FieldDef)
    requires td.fields == [f] && td.customs == [] && !f.typ.TypeSubtable? && !f.autoIncrement
    requires Word(f.name) && f.name != "rowid"
    ensures ValidTable(td) && Stored(td.fields) == [f] && Bound(td.fields) == [f] && Autos(td.fields) == []
  {
    assert td.fields[..0] == [];
  }

  lemma OneFieldRow(f: FieldDef, scope: Scope)
    ensures RowOf([f], scope) == map[Fold(f.name) := CellOf(f, scope)]
  {
    assert RowOf([f][..0], scope) == map[];
  }

  /** The column `got`: whatever was inserted, the object it is read into keeps its own value. */
  lemma GotIsNotRead(sql: Sqlite, name: string, n: int, m: int, next: int)
    requires -0x8000_0000 <= n < 0x8000_0000 && "got" !in sql.computed
    ensures var td := TableDef(name, [FieldDef("got", TypeInt, false)], []);
      && ValidTable(td)
      && var stored := InsertObject(TableFor(td), SourceOf(td), map["got" := IntValue(n)], next);
      && stored == Some(Inserted(next, map["got" := Integer(n)]))
      && LoadObject(sql, TableFor(td), SourceOf(td), stored.value, map[], map["got" := IntValue(m)])
         == Some(map["got" := IntValue(m), "rowid" := IntValue(next)])
  {
    var f := FieldDef("got", TypeInt, false);
    var td, self := TableDef(name, [f], []), map["got" := IntValue(n)];
    var other: Scope := map["got" := IntValue(m)];
    OneField(td, f);
    FoldGot();
    OneFieldRow(f, self);
    OneRestoredField(f, AfterInsert([], self, next), other["rowid" := IntValue(next)]);
    GotInsertable(td, f, self, n, next);
    GotAfter(self, n, m, next);
    GotPlain(sql, td, f);
    RowidResolves(td, next, RowOf([f], self));
    assert RowidRead(sql, Integer(next)) == next;
    hide *;
    InsertedHolds(td, self, map[], next);
    InsertWrites(td, self, map[], next);
    GotInserted(td, self, next);
    LoadMeans(sql, td, Inserted(next, RowOf([f], self)), map[], AfterInsert([], self, next), other);
  }

  lemma FoldGot()
    ensures Fold("got") == "got"
  {
  }

  lemma GotPlain(sql: Sqlite, td: TableDef, f: FieldDef)
    requires Stored(td.fields) == [f] && f.name == "got" && "got" !in sql.computed
    ensures DistinctKeys(Stored(td.fields)) && Selectable(sql, Stored(td.fields)) && RowidFree(Stored(td.fields))
  {
    FoldGot();
    assert |"rowid"| == 5;
  }

  lemma GotInserted(td: TableDef, self: Scope, next: int)
    requires ValidTable(td) && Autos(td.fields) == []
    ensures InsertedRow(td, self, next) == RowOf(Bound(td.fields), self) && SourceOf(td).fetched == []
  {
  }

  lemma GotAfter(self: Scope, n: int, m: int, next: int)
    requires self == map["got" := IntValue(n)]
    ensures var f, other: Scope := FieldDef("got", TypeInt, false), map["got" := IntValue(m)];
      OneRestored(f, AfterInsert([], self, next), Some(other["rowid" := IntValue(next)]))
      == Some(map["got" := IntValue(m), "rowid" := IntValue(next)])
  {
  }

  lemma GotInsertable(td: TableDef, f: FieldDef, self: Scope, n: int, next: int)
    requires Stored(td.fields) == [f] && Bound(td.fields) == [f]
    requires f == FieldDef("got", TypeInt, false) && self == map["got" := IntValue(n)]
    requires -0x8000_0000 <= n < 0x8000_0000
    ensures Insertable(td, self, map[], next)
  {
    hide Stored, Bound;
  }

  lemma OneRestoredField(f: FieldDef, want: Scope, self: Scope)
    ensures Restored([f], want, self) == OneRestored(f, want, Some(self))
  {
    assert [f][..0] == [];
  }

  /**
   The column `ROWID`: of the rows 1 and 5, where that column holds 5 and 9, an update of the object with the rowid 5
   writes row 1.
   */
  lemma RowidColumnPicksAnotherRow(name: string, n: int)
    requires -0x8000_0000 <= n < 0x8000_0000
    ensures var td := TableDef(name, [FieldDef("ROWID", TypeInt, false)], []);
      var self: Scope := map["ROWID" := IntValue(n), "rowid" := IntValue(5)];
      var rows: Rows := map[1 := map["rowid" := Integer(5)], 5 := map["rowid" := Integer(9)]];
      && ValidTable(td)
      && UpdateObject(TableFor(td), SourceOf(td), self, rows)
         == Some(map[1 := map["rowid" := Integer(n)], 5 := map["rowid" := Integer(9)]])
  {
    var f := FieldDef("ROWID", TypeInt, false);
    var td := TableDef(name, [f], []);
    var self: Scope := map["ROWID" := IntValue(n), "rowid" := IntValue(5)];
    var rows: Rows := map[1 := map["rowid" := Integer(5)], 5 := map["rowid" := Integer(9)]];
    var row: Row := map["rowid" := Integer(n)];
    hide Fold, ValidFields, UpdateObject, SourceOf, RowOf, CellsOf, Typed, TableFor;
    OneField(td, f);
    UpperRowid();
    OneFieldRow(f, self);
    UpperTable(td, f);
    UpperTyped(f, self, n);
    RowidFive(f, self, n);
    UpdateOfOne(td, f, self, rows, row);
  }

  lemma UpdateOfOne(td: TableDef, f: FieldDef, self: Scope, rows: Rows, row: Row)
    requires ValidTable(td) && Bound(td.fields) == [f] && AliasOf(td) == [] && TableFor(td) == Table(["rowid"], [])
    requires Typed([f] + [ROWID], self, map[]) && CellsOf([ROWID], self) == [Integer(5)] && RowOf([f], self) == row
    requires rows == map[1 := map["rowid" := Integer(5)], 5 := map["rowid" := Integer(9)]] && row.Keys == {"rowid"}
    ensures UpdateObject(TableFor(td), SourceOf(td), self, rows)
         == Some(map[1 := row, 5 := map["rowid" := Integer(9)]])
  {
    hide *;
    UpdateRewrites(td, self, map[], rows);
    PicksRowOne(TableFor(td), rows);
    RowOneRewritten(rows, WhereRowid(TableFor(td)), row);
  }

  lemma UpperTyped(f: FieldDef, self: Scope, n: int)
    requires f == FieldDef("ROWID", TypeInt, false) && -0x8000_0000 <= n < 0x8000_0000
    requires self == map["ROWID" := IntValue(n), "rowid" := IntValue(5)]
    ensures Typed([f] + [ROWID], self, map[]) && CellOf(f, self) == Integer(n)
  {
    assert ([f] + [ROWID])[0] == f && ([f] + [ROWID])[1] == ROWID;
  }

  lemma RowidFive(f: FieldDef, self: Scope, n: int)
    requires self == map["ROWID" := IntValue(n), "rowid" := IntValue(5)] && Typed([f] + [ROWID], self, map[])
    ensures CellsOf([ROWID], self) == [Integer(5)]
  {
    RowidTyped([f], self, map[]);
  }

  lemma RowOneRewritten(rows: Rows, where: (seq<Cell>, int, Row) -> bool, row: Row)
    requires rows == map[1 := map["rowid" := Integer(5)], 5 := map["rowid" := Integer(9)]]
    requires row.Keys == {"rowid"} && Picked(rows, [Integer(5)], where) == {1}
    ensures Rewrite(rows, [Integer(5)], where, row, []) == Some(map[1 := row, 5 := map["rowid" := Integer(9)]])
  {
    assert rows[1] + row == row;
    assert Extend(rows, {1}, row) == map[1 := row, 5 := map["rowid" := Integer(9)]];
  }

  lemma UpperRowid()
    ensures Fold("ROWID") == "rowid"
  {
  }

  lemma UpperTable(td: TableDef, f: FieldDef)
    requires Stored(td.fields) == [f] && Autos(td.fields) == [] && Fold(f.name) == "rowid"
    ensures TableFor(td) == Table(["rowid"], []) && AliasOf(td) == []
  {
    hide Fold;
  }

  lemma PicksRowOne(t: Table, rows: Rows)
    requires t == Table(["rowid"], [])
    requires rows == map[1 := map["rowid" := Integer(5)], 5 := map["rowid" := Integer(9)]]
    ensures Picked(rows, [Integer(5)], WhereRowid(t)) == {1}
  {
    var where := WhereRowid(t);
    assert where([Integer(5)], 1, rows[1]) && !where([Integer(5)], 5, rows[5]);
  }

  /** A column with a reserved name, such as `order`: the class compiles, and there is no table for it. */
  lemma OrderIsNotCreated(sql: Sqlite, name: string)
    requires "order" in sql.reserved
    ensures var td := TableDef(name, [FieldDef("order", TypeInt, false)], []);
      ValidTable(td) && Visible(Stored(td.fields)) && TableOf(sql, td) == None
  {
    var f := FieldDef("order", TypeInt, false);
    var td := TableDef(name, [f], []);
    FoldOrder();
    hide Fold, ValidFields, ReaderHides, TableOf, Word;
    OneField(td, f);
    VisibleNames([f]);
    CreatedExactly(sql, td);
    assert f in Stored(td.fields);
  }

  lemma FoldOrder()
    ensures Fold("order") == "order" && Word("order") && "order" != "rowid" && "order" != "ret" && "order" != "r"
  {
    assert "order"[0] != "rowid"[0] && |"order"| == 5 && |"ret"| == 3 && |"r"| == 1;
  }

  /** Names that no variable of the reader has. */
  lemma VisibleNames(fields: seq<FieldDef>)
    requires forall f :: f in fields ==> f.name == "order" || f.name == "ab" || f.name == "AB" || f.name == "id"
    ensures Visible(fields)
  {
    assert |"order"| == 5 && |"ab"| == |"AB"| == |"id"| == 2;
    assert |"got"| == 3 && |"pStmt"| == 5 && |"ptr"| == |"len"| == 3 && |"v"| == 1;
    assert "order"[0] != "pStmt"[0];
  }

  lemma TwoFields(td: TableDef, f: FieldDef, g: FieldDef)
    requires td.fields == [f, g] && td.customs == [] && !f.typ.TypeSubtable? && !g.typ.TypeSubtable?
    requires f.name != g.name && Word(f.name) && Word(g.name) && f.name != "rowid" && g.name != "rowid"
    requires !g.autoIncrement
    requires f.autoIncrement ==> f.typ.TypeInt? || f.typ.TypeInt64?
    ensures ValidTable(td) && Stored(td.fields) == [f, g]
  {
    hide Word, Stored, Bound, Autos;
    TwoStored(f, g);
    assert NoDup(ColumnNames(td.fields));
    assert forall h :: h in td.fields ==> h == f || h == g;
  }

  lemma TwoStored(f: FieldDef, g: FieldDef)
    requires !f.typ.TypeSubtable? && !g.typ.TypeSubtable?
    ensures Stored([f, g]) == [f, g]
  {
    hide *;
    var none: seq<FieldDef> := [];
    NoneStored(none);
    StoredStep(none, f);
    StoredStep([f], g);
    assert none + [f] == [f] && [f] + [g] == [f, g];
  }

  lemma NoneStored(fields: seq<FieldDef>)
    requires fields == []
    ensures Stored(fields) == []
  {
  }

  /** Two columns that differ in case alone: two members of the class, and no table. */
  lemma CaseAloneIsNotCreated(sql: Sqlite, name: string)
    ensures var td := TableDef(name, [FieldDef("ab", TypeInt, false), FieldDef("AB", TypeInt, false)], []);
      ValidTable(td) && Visible(Stored(td.fields)) && TableOf(sql, td) == None
  {
    var f, g := FieldDef("ab", TypeInt, false), FieldDef("AB", TypeInt, false);
    var td := TableDef(name, [f, g], []);
    SameFolded();
    hide Word, Fold, ValidFields, ReaderHides, Stored, Visible, TableOf;
    TwoFields(td, f, g);
    VisibleNames([f, g]);
    hide Fold, ValidFields, ReaderHides, TableOf, Word;
    CreatedExactly(sql, td);
    assert f in Stored(td.fields) && g in Stored(td.fields);
  }

  lemma SameFolded()
    ensures Word("ab") && Word("AB") && "ab" != "AB" && "ab" != "rowid" && "AB" != "rowid" && Fold("ab") == Fold("AB")
  {
    assert "ab"[0] != "AB"[0] && |"rowid"| == 5;
  }

  /** AUTOINCR on an INT64 passes the parser: the column is declared `int64`, which SQLite does not number. */
  lemma Int64AutoIsNotCreated(sql: Sqlite, name: string)
    ensures var td := TableDef(name, [FieldDef("id", TypeInt64, true), FieldDef("ab", TypeInt, false)], []);
      ValidTable(td) && Visible(Stored(td.fields)) && TableOf(sql, td) == None
  {
    var f, g := FieldDef("id", TypeInt64, true), FieldDef("ab", TypeInt, false);
    var td := TableDef(name, [f, g], []);
    assert "id"[0] != "ab"[0] && |"rowid"| == 5;
    TwoFields(td, f, g);
    VisibleNames([f, g]);
    hide Fold, ValidFields, ReaderHides, TableOf, Word;
    CreatedExactly(sql, td);
    assert f in Stored(td.fields);
  }

  /** An AUTOINCR column may be called `ROWID`: it is the rowid. */
  lemma AutoincrRowidIsWellNamed(sql: Sqlite, name: string)
    requires TableNamed(sql, name) && "ab" !in sql.reserved && "ab" !in sql.computed
    ensures var td := TableDef(name, [FieldDef("ROWID", TypeInt, true), FieldDef("ab", TypeInt, false)], []);
      ValidTable(td) && Bound(td.fields) != [] && WellNamed(sql, td)
  {
    var f, g := FieldDef("ROWID", TypeInt, true), FieldDef("ab", TypeInt, false);
    var td := TableDef(name, [f, g], []);
    UpperNames();
    TwoFields(td, f, g);
    StoredExactly(td.fields, g);
    hide Fold, ValidFields, Bound, Stored, Word, ReaderHides;
    assert g in Stored(td.fields);
    AutoincrWellNamed(sql, td, f, g);
  }

  lemma UpperNames()
    ensures Fold("ROWID") == "rowid" && Fold("ab") == "ab" && "ROWID" != "ab" && "ROWID" != "rowid" && "ab" != "rowid"
    ensures Word("ROWID") && Word("ab") && forall form :: !ReaderHides(form, "ROWID") && !ReaderHides(form, "ab")
  {
    assert |"ROWID"| == |"rowid"| == |"pStmt"| == 5 && |"ab"| == 2 && |"got"| == |"ptr"| == |"len"| == 3 && |"v"| == 1;
    assert "ROWID"[0] != "rowid"[0] && "ROWID"[0] != "pStmt"[0];
  }

  lemma AutoincrWellNamed(sql: Sqlite, td: TableDef, f: FieldDef, g: FieldDef)
    requires Stored(td.fields) == [f, g] && TableNamed(sql, td.name) && Visible([f, g])
    requires f.autoIncrement && f.typ.TypeInt? && Fold(f.name) == "rowid"
    requires !g.autoIncrement && Fold(g.name) == "ab" && "ab" !in sql.reserved && "ab" !in sql.computed
    ensures WellNamed(sql, td)
  {
    hide Fold, Stored, TableNamed, ReaderHides;
    assert |"rowid"| == 5 && |"ab"| == 2;
  }
}
