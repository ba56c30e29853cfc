/** CUSTOM-UPD and CUSTOM-UPDBY: their numbering, and which names let them write the object's own fields. */
module CustomUpdates {
  import opened Sequences
  import opened Schemas
  import opened Options
  import opened EmitSources
  import opened SqlMeaning
  import opened EmitterRoundTrip
  import opened NameClashes

  /** The custom update that is emitted for the i-th one of the table. */
  function Emitted(td: TableDef, i: nat): (src: CustomSource)
    requires ValidTable(td) && i < |td.customs|
  {
    SourceOf(td).customs[i]
  }

  /** As many custom updates are emitted as the table has, in its order; each has its name in its statement. */
  lemma CustomsEmitted(td: TableDef, i: nat)
    requires ValidTable(td) && i < |td.customs|
    ensures |SourceOf(td).customs| == |td.customs|
    ensures Emitted(td, i).stmt == (if td.customs[i].Upd? then "update_" else "update_by_") + td.customs[i].name
    ensures Emitted(td, i).query == if td.customs[i].Upd? then "rowid = ?" else td.customs[i].query
  {
    EmittedIs(td, i);
    assert "update" + "_" == "update_" && "update_by" + "_" == "update_by_";
  }

  lemma EmittedIs(td: TableDef, i: nat)
    requires ValidTable(td) && i < |td.customs|
    ensures Emitted(td, i) == CustomOf(td.fields, td.customs[i])
  {
    hide CustomOf;
    SourceParts(td);
  }

  /**
   The i-th custom update as emitted, CUSTOM-UPD or CUSTOM-UPDBY, with m columns and n WHERE arguments: marks 1 to m
   take the columns as listed, marks m + 1 on take rowid, or v1 to vn.
   */
  lemma CustomInStep(td: TableDef, i: nat, c: CustomUpdate, k: nat)
    requires ValidTable(td) && i < |td.customs| && c == td.customs[i] && c.words != []
    requires k < |CustomOperands(td.fields, c)|
    ensures var src, m := Emitted(td, i), |c.words|;
      && InStep(src.columns, src.marks, src.binders) && Items(src.columns) == c.words
      && |src.binders| == m + (if c.Upd? then 1 else |c.args|)
      && Num(src.binders[k].index) == Some(k + 1)
      && src.binders[k].operand
         == if k < m then c.words[k] else if c.Upd? then "rowid" else "v" + Dec(k - m + 1)
  {
    hide Join, Items, InStep, FindField;
    var fields := Resolve(td.fields, c.words);
    EmittedIs(td, i);
    CustomWords(td, c);
    BindersInStep(fields, CustomWheres(c), CustomStmt(c));
    ListsParse(fields);
    NumOfDec(k + 1);
  }

  lemma CustomWords(td: TableDef, c: CustomUpdate)
    requires ValidTable(td) && c in td.customs
    ensures ColumnNames(Resolve(td.fields, c.words)) == c.words
    ensures forall f :: f in Resolve(td.fields, c.words) ==> f in td.fields && Word(f.name)
  {
    var fields := Resolve(td.fields, c.words);
    forall i | 0 <= i < |fields| ensures fields[i].name == c.words[i] && fields[i] in td.fields {
      assert FindField(td.fields, c.words[i]) == Some(fields[i]);
    }
  }

  // ----- what the emitted function sees -----

  /** Its local variables. */
  const CUSTOM_LOCALS: Scope := map["r" := IntValue(0), "ret" := BoolValue(false)]

  /** A local or a parameter of the function hides a column of that name. */
  predicate CustomHides(c: CustomUpdate, name: string) {
    name == "r" || name == "ret" || (c.UpdBy? && name in ColumnNames(Arguments(c.args)))
  }

  /** What a WHERE clause picks, by the values bound to its marks, the rowid and the row. */
  type Where = (seq<Cell>, int, Row) -> bool

  /** The emitted clause: `rowid = ?` in a CUSTOM-UPD, and otherwise a clause of some meaning. */
  ghost function WhereOf(t: Table, c: CustomUpdate, query: string, meaning: string -> Where): (w: Where) {
    if c.Upd? && query == "rowid = ?" then WhereRowid(t) else meaning(query)
  }

  /** The clause that the schema asks for. */
  function QueryOf(c: CustomUpdate): (query: string) {
    if c.Upd? then "rowid = ?" else c.query
  }

  /** The rows the call is for: the object's own row, or those that the clause of the schema is about. */
  ghost function MeantBy(c: CustomUpdate, meaning: string -> Where): (w: Where) {
    if c.Upd? then OwnRow() else meaning(c.query)
  }

  /** update_x() and update_by_x(v1, ..., vn), as emitted: parameters before locals before fields. */
  ghost function CustomUpdateObject(t: Table, td: TableDef, i: nat, meaning: string -> Where, self: Scope, args: Scope,
                                    rows: Rows): (r: Option<Rows>)
    requires ValidTable(td) && i < |td.customs|
  {
    var c, src := td.customs[i], Emitted(td, i);
    Updated(t, src.columns, src.marks, src.binders, src.stmt, |CustomWheres(c)|, self + CUSTOM_LOCALS + args,
            WhereOf(t, c, src.query, meaning), rows)
  }

  /** The object's listed fields, and rowid or the arguments, hold values of their types. */
  ghost predicate Callable(td: TableDef, c: CustomUpdate, self: Scope, args: Scope, enums: Enums)
    requires ValidTable(td) && c in td.customs
  {
    && Typed(Resolve(td.fields, c.words), self, enums)
    && if c.Upd? then args == map[] && Typed([ROWID], self, enums)
       else args.Keys == Elements(ColumnNames(Arguments(c.args))) && Typed(Arguments(c.args), args, enums)
  }

  /** The call sets the listed columns to the object's own fields in the rows it is for. */
  ghost predicate CustomWrites(sql: Sqlite, td: TableDef, i: nat, meaning: string -> Where,
                               self: Scope, args: Scope, rows: Rows)
    requires ValidTable(td) && i < |td.customs|
  {
    var t, c := TableOf(sql, td), td.customs[i];
    (if t.None? then None else CustomUpdateObject(t.value, td, i, meaning, self, args, rows))
    == Rewrite(rows, CellsOf(CustomWheres(c), self + args), MeantBy(c, meaning),
               RowOf(Resolve(td.fields, c.words), self), AliasOf(td))
  }

  lemma CustomUpdateMeans(sql: Sqlite, td: TableDef, i: nat, c: CustomUpdate, meaning: string -> Where,
                          self: Scope, args: Scope, enums: Enums, rows: Rows)
    requires ValidTable(td) && i < |td.customs| && c == td.customs[i] && c.words != []
    requires Callable(td, c, self, args, enums)
    requires Creatable(sql, td) && (c.Upd? ==> RowidFree(Stored(td.fields)))
    requires forall w :: w in c.words ==> !CustomHides(c, w)
    ensures CustomWrites(sql, td, i, meaning, self, args, rows)
  {
    var ws := CellsOf(CustomWheres(c), self + args);
    hide CustomHides, Callable, RowidFree, ValidFields, FindField, Fold, Rewrite, CellsOf, RowOf, Resolve, Creatable;
    hide CustomUpdateObject, MeantBy, TableOf, TableFor, CustomWheres;
    CreatedExactly(sql, td);
    CustomRuns(td, i, c, meaning, self, args, enums, rows);
    MeantRows(td, c, meaning, self, args, enums, rows, RowOf(Resolve(td.fields, c.words), self));
  }

  /** What is executed, whatever the WHERE clause picks. */
  lemma CustomRuns(td: TableDef, i: nat, c: CustomUpdate, meaning: string -> Where,
                   self: Scope, args: Scope, enums: Enums, rows: Rows)
    requires ValidTable(td) && i < |td.customs| && c == td.customs[i] && c.words != []
    requires Callable(td, c, self, args, enums)
    requires forall w :: w in c.words ==> !CustomHides(c, w)
    ensures CustomUpdateObject(TableFor(td), td, i, meaning, self, args, rows)
         == Rewrite(rows, CellsOf(CustomWheres(c), self + args), WhereOf(TableFor(td), c, QueryOf(c), meaning),
                    RowOf(Resolve(td.fields, c.words), self), AliasOf(td))
  {
    var fields, scope := Resolve(td.fields, c.words), self + CUSTOM_LOCALS + args;
    CustomWords(td, c);
    CustomSees(td, c, self, args, enums);
    CustomParts(td, c);
    ListedAreColumns(td, c, self, args, enums);
    CustomObjectIs(td, i, c, meaning, self, args, rows);
    TableAlias(td);
    hide *;
    UpdateMeans(TableFor(td), fields, CustomWheres(c), CustomStmt(c), scope, enums,
                WhereOf(TableFor(td), c, QueryOf(c), meaning), rows);
  }

  lemma CustomObjectIs(td: TableDef, i: nat, c: CustomUpdate, meaning: string -> Where,
                       self: Scope, args: Scope, rows: Rows)
    requires ValidTable(td) && i < |td.customs| && c == td.customs[i]
    ensures var t, src := TableFor(td), CustomOf(td.fields, c);
      CustomUpdateObject(t, td, i, meaning, self, args, rows)
      == Updated(t, src.columns, src.marks, src.binders, src.stmt, |CustomWheres(c)|, self + CUSTOM_LOCALS + args,
                 WhereOf(t, c, QueryOf(c), meaning), rows)
  {
    EmittedIs(td, i);
  }

  lemma ListedAreColumns(td: TableDef, c: CustomUpdate, self: Scope, args: Scope, enums: Enums)
    requires ValidTable(td) && c in td.customs && Callable(td, c, self, args, enums)
    ensures forall f :: f in Resolve(td.fields, c.words) ==> f in Stored(td.fields)
    ensures Columns(TableFor(td), Resolve(td.fields, c.words))
  {
    hide Fold, ValidFields, CType, FindField;
    var fields := Resolve(td.fields, c.words);
    CustomWords(td, c);
    StoredAreColumns(td);
    forall f | f in fields ensures f in Stored(td.fields) {
      TypedAt(fields, self, enums, f);
      StoredExactly(td.fields, f);
    }
  }

  lemma SameRows(td: TableDef, rows: Rows, n: int, row: Row, alias: seq<string>)
    requires ValidTable(td) && RowidFree(Stored(td.fields))
    ensures Rewrite(rows, [Integer(n)], WhereRowid(TableFor(td)), row, alias)
         == Rewrite(rows, [Integer(n)], OwnRow(), row, alias)
  {
    hide RowidFree, ValidFields, TableFor, RowidCell, Extend, Move;
    forall id | id in rows
      ensures WhereRowid(TableFor(td))([Integer(n)], id, rows[id]) <==> OwnRow()([Integer(n)], id, rows[id])
    {
      RowidResolves(td, id, rows[id]);
    }
    assert Picked(rows, [Integer(n)], WhereRowid(TableFor(td))) == Picked(rows, [Integer(n)], OwnRow());
  }

  /** When `rowid` means the rowid, the emitted clause picks the rows that are meant. */
  lemma MeantRows(td: TableDef, c: CustomUpdate, meaning: string -> Where,
                  self: Scope, args: Scope, enums: Enums, rows: Rows, row: Row)
    requires ValidTable(td) && c in td.customs && Callable(td, c, self, args, enums)
    requires c.Upd? ==> RowidFree(Stored(td.fields))
    ensures var ws, t := CellsOf(CustomWheres(c), self + args), TableFor(td);
      Rewrite(rows, ws, WhereOf(t, c, QueryOf(c), meaning), row, AliasOf(td))
      == Rewrite(rows, ws, MeantBy(c, meaning), row, AliasOf(td))
  {
    if c.Upd? {
      RowidBound(td, c, self, args, enums);
      SameRows(td, rows, self["rowid"].n, row, AliasOf(td));
    }
  }

  lemma RowidBound(td: TableDef, c: CustomUpdate, self: Scope, args: Scope, enums: Enums)
    requires ValidTable(td) && c in td.customs && Callable(td, c, self, args, enums) && c.Upd?
    ensures "rowid" in self && self["rowid"].IntValue?
    ensures CellsOf(CustomWheres(c), self + args) == [Integer(self["rowid"].n)]
  {
    hide ValidFields, FindField, Resolve;
    assert [] + [ROWID] == [ROWID] && self + args == self;
    RowidTyped([], self, enums);
  }

  lemma CustomParts(td: TableDef, c: CustomUpdate)
    requires ValidTable(td) && c in td.customs
    ensures var src, fields := CustomOf(td.fields, c), Resolve(td.fields, c.words);
      && src.columns == Join(ColumnNames(fields), ", ") && src.marks == Join(Marks(|fields|), ",")
      && src.stmt == CustomStmt(c) && src.binders == Binders(fields + CustomWheres(c), CustomStmt(c))
  {
    CustomWords(td, c);
  }

  lemma CustomSees(td: TableDef, c: CustomUpdate, self: Scope, args: Scope, enums: Enums)
    requires ValidTable(td) && c in td.customs && Callable(td, c, self, args, enums)
    requires forall w :: w in c.words ==> !CustomHides(c, w)
    ensures var fields, scope := Resolve(td.fields, c.words), self + CUSTOM_LOCALS + args;
      && Typed(fields + CustomWheres(c), scope, enums) && RowOf(fields, scope) == RowOf(fields, self)
      && CellsOf(CustomWheres(c), scope) == CellsOf(CustomWheres(c), self + args)
  {
    hide RowOf, CellOf, ValidFields, WellTyped;
    var fields, more, scope := Resolve(td.fields, c.words), CustomWheres(c), self + CUSTOM_LOCALS + args;
    FieldsSeen(td, c, self, args);
    OperandsSeen(c, self, args, enums);
    hide CustomHides, CustomWheres;
    RowOfSame(fields, self, scope);
  }

  lemma FieldsSeen(td: TableDef, c: CustomUpdate, self: Scope, args: Scope)
    requires ValidTable(td) && c in td.customs && forall w :: w in c.words ==> !CustomHides(c, w)
    requires if c.Upd? then args == map[] else args.Keys == Elements(ColumnNames(Arguments(c.args)))
    ensures var fields, scope := Resolve(td.fields, c.words), self + CUSTOM_LOCALS + args;
      forall i :: 0 <= i < |fields| && fields[i].name in self ==>
        fields[i].name in scope && scope[fields[i].name] == self[fields[i].name]
  {
    hide ValidFields;
    var fields := Resolve(td.fields, c.words);
    CustomWords(td, c);
    forall i | 0 <= i < |fields| ensures fields[i].name !in CUSTOM_LOCALS && fields[i].name !in args {
      assert ColumnNames(fields)[i] in c.words;
    }
  }

  /** rowid, or the arguments, are seen as they are. */
  lemma OperandsSeen(c: CustomUpdate, self: Scope, args: Scope, enums: Enums)
    requires if c.Upd? then args == map[] && Typed([ROWID], self, enums)
             else args.Keys == Elements(ColumnNames(Arguments(c.args))) && Typed(Arguments(c.args), args, enums)
    ensures var more, scope := CustomWheres(c), self + CUSTOM_LOCALS + args;
      Typed(more, scope, enums) && CellsOf(more, scope) == CellsOf(more, self + args)
  {
    hide WellTyped, CellOf, Dec;
    var more, scope := CustomWheres(c), self + CUSTOM_LOCALS + args;
    forall i | 0 <= i < |more|
      ensures more[i].name in scope && more[i].name in self + args && scope[more[i].name] == (self + args)[more[i].name]
      ensures WellTyped(more[i].typ, scope[more[i].name], enums)
      ensures CellOf(more[i], scope) == CellOf(more[i], self + args)
    {
      if c.UpdBy? { assert ColumnNames(more)[i] in args.Keys; } else { assert more[i] == ROWID; }
      CellOfSame(more[i], scope, self + args);
    }
  }

  // ----- exactly the names that are hidden -----

  /** Whatever the object, the arguments, the meaning of the clause and the rows are, the call writes what it should. */
  ghost predicate CustomAlwaysWrites(sql: Sqlite, td: TableDef, i: nat)
    requires ValidTable(td) && i < |td.customs|
  {
    forall meaning: string -> Where, self: Scope, args: Scope, enums: Enums, rows: Rows ::
      Callable(td, td.customs[i], self, args, enums) ==> CustomWrites(sql, td, i, meaning, self, args, rows)
  }

  /**
   Every call writes the object's own fields into the rows it is for exactly when some column is listed, the table
   can be created, `rowid` means the rowid where the call asks for it, and no listed column has the name of a local or
   of a parameter.
   */
  lemma CustomWritesExactly(sql: Sqlite, td: TableDef, i: nat, c: CustomUpdate)
    requires ValidTable(td) && i < |td.customs| && c == td.customs[i] && Bindable(td.fields, c)
    ensures CustomAlwaysWrites(sql, td, i) <==>
      && c.words != [] && Creatable(sql, td) && (c.Upd? ==> RowidFree(Stored(td.fields)))
      && forall w :: w in c.words ==> !CustomHides(c, w)
  {
    hide CustomWrites, Callable, CustomHides, Creatable, RowidFree, Bindable, ValidFields, FindField;
    if c.words != [] && Creatable(sql, td) && (c.Upd? ==> RowidFree(Stored(td.fields)))
       && forall w :: w in c.words ==> !CustomHides(c, w) {
      forall meaning: string -> Where, self: Scope, args: Scope, enums: Enums, rows: Rows
        | Callable(td, c, self, args, enums)
        ensures CustomWrites(sql, td, i, meaning, self, args, rows)
      {
        CustomUpdateMeans(sql, td, i, c, meaning, self, args, enums, rows);
      }
    } else if CustomAlwaysWrites(sql, td, i) {
      CustomClash(sql, td, i, c);
    }
  }

  lemma CustomClash(sql: Sqlite, td: TableDef, i: nat, c: CustomUpdate)
    requires ValidTable(td) && i < |td.customs| && c == td.customs[i] && Bindable(td.fields, c)
    requires CustomAlwaysWrites(sql, td, i)
    ensures c.words != [] && Creatable(sql, td) && (c.Upd? ==> RowidFree(Stored(td.fields)))
    ensures forall w :: w in c.words ==> !CustomHides(c, w)
  {
    hide CustomWrites, Callable, CustomHides, Creatable, RowidFree, Bindable, ValidFields, FindField,
         CustomAlwaysWrites;
    WritesPrepared(sql, td, i, c);
    forall w | w in c.words ensures !CustomHides(c, w) {
      var k :| 0 <= k < |c.words| && c.words[k] == w;
      if CustomHides(c, w) { HiddenColumnIsNotWritten(sql, td, i, c, k); }
    }
    if c.Upd? && !RowidFree(Stored(td.fields)) {
      MisledCustom(sql, td, i, c);
      AlwaysWritesThis(sql, td, i, c, Everything(), Misled(td), map[], AllEnums(Stored(td.fields)),
                       OnlyRow(td, 2, false));
    }
  }

  /** Without a table, or a column to set, not even an empty table is left as it is. */
  lemma WritesPrepared(sql: Sqlite, td: TableDef, i: nat, c: CustomUpdate)
    requires ValidTable(td) && i < |td.customs| && c == td.customs[i] && Bindable(td.fields, c)
    requires CustomAlwaysWrites(sql, td, i)
    ensures c.words != [] && Creatable(sql, td)
  {
    hide Callable, Creatable, Bindable, FindField, Filled, FilledArguments, AllEnums, CustomWheres, CustomWrites,
         Resolve;
    hide ValidFields, CustomAlwaysWrites;
    FilledCallable(td, c, false);
    var self := Filled(Resolve(td.fields, c.words), false);
    var args: Scope := if c.Upd? then map[] else FilledArguments(c.args);
    AlwaysWritesThis(sql, td, i, c, Everything(), self, args, AllEnums(Resolve(td.fields, c.words) + CustomWheres(c)),
                     map[]);
    CustomPrepared(sql, td, i, c, self, args);
  }

  lemma CustomPrepared(sql: Sqlite, td: TableDef, i: nat, c: CustomUpdate, self: Scope, args: Scope)
    requires ValidTable(td) && i < |td.customs| && c == td.customs[i]
    requires CustomWrites(sql, td, i, Everything(), self, args, map[])
    ensures c.words != [] && Creatable(sql, td)
  {
    var fields, t, src := Resolve(td.fields, c.words), TableFor(td), CustomOf(td.fields, c);
    CustomParts(td, c);
    hide *;
    CreatedExactly(sql, td);
    NothingRewritten(CellsOf(CustomWheres(c), self + args), MeantBy(c, Everything()), RowOf(fields, self), AliasOf(td));
    CustomWritten(sql, td, i, c, self, args);
    WrittenUpdate(sql, td, i, c, Everything(), self, args, map[]);
    if fields == [] { NothingPrepared(t, fields); }
    var params, names, row, ws := UpdatedParts(t, src.columns, src.marks, src.binders, src.stmt, |CustomWheres(c)|,
                                               self + CUSTOM_LOCALS + args, WhereOf(t, c, QueryOf(c), Everything()),
                                               map[]);
  }

  lemma CustomWritten(sql: Sqlite, td: TableDef, i: nat, c: CustomUpdate, self: Scope, args: Scope)
    requires ValidTable(td) && i < |td.customs| && c == td.customs[i]
    requires CustomWrites(sql, td, i, Everything(), self, args, map[])
    requires Rewrite(map[], CellsOf(CustomWheres(c), self + args), MeantBy(c, Everything()),
                     RowOf(Resolve(td.fields, c.words), self), AliasOf(td)).Some?
    ensures TableOf(sql, td).Some?
  {
    hide TableOf, Rewrite, Resolve, CellsOf, AliasOf, RowOf, CustomWheres, MeantBy, CustomUpdateObject;
  }

  lemma NothingPrepared(t: Table, fields: seq<FieldDef>)
    requires fields == []
    ensures Prepared(t, Join(ColumnNames(fields), ", "), Join(Marks(|fields|), ",")) == None
  {
    PreparedExactly(t, fields);
  }

  lemma NothingRewritten(ws: seq<Cell>, where: Where, row: Row, alias: seq<string>)
    ensures Rewrite(map[], ws, where, row, alias) == Some(map[])
  {
    assert Picked(map[], ws, where) == {};
    NoneRewritten(map[], ws, where, row, alias);
  }

  // ----- a column that hides the rowid -----

  /** An object whose rowid is 2, over a table whose one row, row 2, has nothing of it and a 0 in the column `rowid`. */
  function Misled(td: TableDef): (self: Scope) {
    Filled(Stored(td.fields), true)["rowid" := IntValue(2)]
  }

  lemma MisledCustom(sql: Sqlite, td: TableDef, i: nat, c: CustomUpdate)
    requires ValidTable(td) && i < |td.customs| && c == td.customs[i] && c.words != [] && Bindable(td.fields, c)
    requires c.Upd?
    requires Creatable(sql, td) && !RowidFree(Stored(td.fields))
    requires forall w :: w in c.words ==> !CustomHides(c, w)
    ensures Callable(td, c, Misled(td), map[], AllEnums(Stored(td.fields)))
    ensures !CustomWrites(sql, td, i, Everything(), Misled(td), map[], OnlyRow(td, 2, false))
  {
    var self, args: Scope, enums, rows := Misled(td), map[], AllEnums(Stored(td.fields)), OnlyRow(td, 2, false);
    var row, alias, t := RowOf(Resolve(td.fields, c.words), self), AliasOf(td), TableFor(td);
    hide Callable, Creatable, Bindable, ValidFields, FindField, AllEnums, RowOf, CustomHides, Resolve, Misled, OnlyRow;
    hide CellsOf, TableOf, TableFor, Rewrite, CustomWheres, CustomUpdateObject, AliasOf, RowidFree, DistinctKeys,
         WhereRowid;
    MisledCallable(td, c);
    CreatedExactly(sql, td);
    CreatableKeys(sql, td);
    CustomRuns(td, i, c, Everything(), self, args, enums, rows);
    MisledRowid(td, c);
    NothingPicked(td, [Integer(2)]);
    NoneRewritten(rows, [Integer(2)], WhereRowid(t), row, alias);
    MisledDiffers(td, c);
  }

  lemma MisledAt(td: TableDef, f: FieldDef)
    requires ValidTable(td) && f in Stored(td.fields)
    ensures f.name in Misled(td) && Misled(td)[f.name] == DefaultOf(f.typ, true)
    ensures "rowid" in Misled(td) && Misled(td)["rowid"] == IntValue(2)
  {
    hide ValidFields, DefaultOf;
    ValidNames(td.fields);
    FilledAt(Stored(td.fields), true, f);
  }

  lemma MisledTyped(td: TableDef, f: FieldDef)
    requires ValidTable(td) && f in td.fields && !f.typ.TypeSubtable?
    ensures f in Stored(td.fields) && f.name in Misled(td)
    ensures WellTyped(f.typ, Misled(td)[f.name], AllEnums(Stored(td.fields)))
  {
    hide ValidFields, AllEnums, Misled, WellTyped, DefaultOf;
    StoredExactly(td.fields, f);
    MisledAt(td, f);
    DefaultTyped(td, 2, true, f);
  }

  lemma ListedAreStored(td: TableDef, c: CustomUpdate)
    requires ValidTable(td) && c in td.customs && Bindable(td.fields, c)
    ensures forall f :: f in Resolve(td.fields, c.words) ==>
      f in td.fields && !f.typ.TypeSubtable? && f in Stored(td.fields)
  {
    var fields := Resolve(td.fields, c.words);
    CustomWords(td, c);
    AllColumnsBoth(fields, CustomWheres(c));
    hide ValidFields, Word, Resolve, FindField, Stored, CustomWheres;
    forall f | f in fields ensures f in td.fields && !f.typ.TypeSubtable? && f in Stored(td.fields) {
      StoredExactly(td.fields, f);
    }
  }

  lemma MisledCallable(td: TableDef, c: CustomUpdate)
    requires ValidTable(td) && c in td.customs && Bindable(td.fields, c) && c.Upd?
    ensures Callable(td, c, Misled(td), map[], AllEnums(Stored(td.fields)))
    ensures forall f :: f in Resolve(td.fields, c.words) ==> f in Stored(td.fields)
  {
    var fields, enums := Resolve(td.fields, c.words), AllEnums(Stored(td.fields));
    hide ValidFields, AllEnums, WellTyped, Word, Resolve, FindField, Stored, Misled, Bindable;
    ListedAreStored(td, c);
    MisledHasRowid(td, enums);
    forall i | 0 <= i < |fields|
      ensures fields[i].name in Misled(td) && WellTyped(fields[i].typ, Misled(td)[fields[i].name], enums)
    {
      MisledTyped(td, fields[i]);
    }
  }

  lemma MisledHasRowid(td: TableDef, enums: Enums)
    ensures "rowid" in Misled(td) && Misled(td)["rowid"] == IntValue(2) && Typed([ROWID], Misled(td), enums)
  {
    hide Filled;
  }

  lemma MisledRowid(td: TableDef, c: CustomUpdate)
    requires ValidTable(td) && c in td.customs && c.Upd?
    ensures CellsOf(CustomWheres(c), Misled(td) + map[]) == [Integer(2)]
  {
    assert Misled(td) + map[] == Misled(td);
  }

  /** What is meant is to change row 2, or to move it. */
  lemma MisledDiffers(td: TableDef, c: CustomUpdate)
    requires ValidTable(td) && c in td.customs && c.words != [] && Bindable(td.fields, c) && c.Upd?
    requires DistinctKeys(Stored(td.fields))
    ensures var row := RowOf(Resolve(td.fields, c.words), Misled(td));
      Rewrite(OnlyRow(td, 2, false), [Integer(2)], OwnRow(), row, AliasOf(td)) != Some(OnlyRow(td, 2, false))
  {
    var fields := Resolve(td.fields, c.words);
    var f, row, before := fields[0], RowOf(fields, Misled(td)), RowOf(Stored(td.fields), Object(td, 2, false));
    hide Bindable, ValidFields, FindField, AllEnums, RowOf, Resolve, Misled, AliasOf, CellOf, Fold, DistinctKeys,
         Object;
    hide Stored, Rewrite, OwnRow;
    assert f in fields;
    ListedAreStored(td, c);
    ResolvedKeys(td, c);
    RowOfAt(fields, Misled(td), f);
    MisledCells(td, f);
    AliasIs(td, f);
    RowOfAt(Stored(td.fields), Object(td, 2, false), f);
    if AliasOf(td) != [] && AliasOf(td)[0] in row { MisledAlias(td, c); }
    RewrittenDiffers(before, row, AliasOf(td), Fold(f.name));
  }

  lemma RewrittenDiffers(before: Row, row: Row, alias: seq<string>, key: string)
    requires if alias != [] && alias[0] in row then row[alias[0]] == Integer(1)
             else key in row && key in before && row[key] != before[key]
    ensures Rewrite(map[2 := before], [Integer(2)], OwnRow(), row, alias) != Some(map[2 := before])
  {
    var rows: Rows := map[2 := before];
    assert Picked(rows, [Integer(2)], OwnRow()) == {2};
    if alias != [] && alias[0] in row {
      assert 2 in rows && 1 !in rows;
    } else {
      assert rows[2][key] != (rows[2] + row)[key];
      assert Extend(rows, {2}, row)[2] == rows[2] + row;
    }
  }

  lemma ResolvedKeys(td: TableDef, c: CustomUpdate)
    requires ValidTable(td) && c in td.customs && DistinctKeys(Stored(td.fields))
    requires forall f :: f in Resolve(td.fields, c.words) ==> f in Stored(td.fields)
    ensures DistinctKeys(Resolve(td.fields, c.words))
  {
    hide Fold, ValidFields, FindField, Resolve;
  }

  lemma MisledCells(td: TableDef, f: FieldDef)
    requires ValidTable(td) && f in Stored(td.fields)
    ensures !f.autoIncrement ==> CellOf(f, Object(td, 2, false)) != CellOf(f, Misled(td))
    ensures f.autoIncrement ==> CellOf(f, Misled(td)) == Integer(1)
  {
    hide Object, Misled, ValidFields;
    StoredExactly(td.fields, f);
    ObjectAt(td, 2, false, f);
    MisledAt(td, f);
    if f.autoIncrement { AutoIsInt(td.fields, f); }
  }

  lemma MisledAlias(td: TableDef, c: CustomUpdate)
    requires ValidTable(td) && c in td.customs && DistinctKeys(Stored(td.fields))
    requires forall f :: f in Resolve(td.fields, c.words) ==> f in Stored(td.fields)
    requires AliasOf(td) != [] && AliasOf(td)[0] in RowOf(Resolve(td.fields, c.words), Misled(td))
    ensures RowOf(Resolve(td.fields, c.words), Misled(td))[AliasOf(td)[0]] == Integer(1)
  {
    var fields, alias := Resolve(td.fields, c.words), AliasOf(td);
    hide Fold, ValidFields, FindField, Resolve, Misled, CellOf, AliasOf;
    RowOfKeys(fields, Misled(td), alias[0]);
    var i :| 0 <= i < |fields| && Fold(fields[i].name) == alias[0];
    assert fields[i] in fields;
    ResolvedKeys(td, c);
    RowOfAt(fields, Misled(td), fields[i]);
    AliasIs(td, fields[i]);
    MisledCells(td, fields[i]);
  }

  // ----- a name that is hidden -----

  /** Clauses that pick every row. */
  ghost function Everything(): (m: string -> Where) {
    (query: string) => EveryRow()
  }

  ghost function EveryRow(): (w: Where) {
    (ws: seq<Cell>, id: int, row: Row) => true
  }

  lemma AlwaysWritesThis(sql: Sqlite, td: TableDef, i: nat, c: CustomUpdate, meaning: string -> Where,
                         self: Scope, args: Scope, enums: Enums, rows: Rows)
    requires ValidTable(td) && i < |td.customs| && c == td.customs[i] && CustomAlwaysWrites(sql, td, i)
    requires Callable(td, c, self, args, enums)
    ensures CustomWrites(sql, td, i, meaning, self, args, rows)
  {
    hide Callable, CustomWrites;
  }

  /** Of two objects that differ in every column, at most one is written as it is. */
  lemma HiddenColumnIsNotWritten(sql: Sqlite, td: TableDef, i: nat, c: CustomUpdate, k: nat)
    requires ValidTable(td) && i < |td.customs| && c == td.customs[i] && Bindable(td.fields, c) && Creatable(sql, td)
    requires k < |c.words| && CustomHides(c, c.words[k])
    ensures !CustomAlwaysWrites(sql, td, i)
  {
    var fields := Resolve(td.fields, c.words);
    hide *;
    var enums := AllEnums(fields + CustomWheres(c));
    var args: Scope := if c.Upd? then map[] else FilledArguments(c.args);
    FilledCallable(td, c, false);
    FilledCallable(td, c, true);
    if CustomAlwaysWrites(sql, td, i) {
      AlwaysWritesThis(sql, td, i, c, Everything(), Filled(fields, false), args, enums, map[0 := map[]]);
      AlwaysWritesThis(sql, td, i, c, Everything(), Filled(fields, true), args, enums, map[0 := map[]]);
      NotBothWritten(sql, td, i, c, k, args, enums);
    }
  }

  lemma NotBothWritten(sql: Sqlite, td: TableDef, i: nat, c: CustomUpdate, k: nat, args: Scope, enums: Enums)
    requires ValidTable(td) && i < |td.customs| && c == td.customs[i] && Bindable(td.fields, c) && k < |c.words|
    requires CustomHides(c, c.words[k])
    requires Creatable(sql, td)
    requires Callable(td, c, Filled(Resolve(td.fields, c.words), false), args, enums)
    requires Callable(td, c, Filled(Resolve(td.fields, c.words), true), args, enums)
    ensures !CustomWrites(sql, td, i, Everything(), Filled(Resolve(td.fields, c.words), false), args, map[0 := map[]])
         || !CustomWrites(sql, td, i, Everything(), Filled(Resolve(td.fields, c.words), true), args, map[0 := map[]])
  {
    var fields := Resolve(td.fields, c.words);
    var zeros, ones := Filled(fields, false), Filled(fields, true);
    FieldsDistinct(td, c);
    ListedIsColumn(td, c, k);
    CallableArguments(td, c, zeros, args, enums);
    FilledZero(td, c, false);
    FilledZero(td, c, true);
    hide *;
    if CustomWrites(sql, td, i, Everything(), zeros, args, map[0 := map[]])
       && CustomWrites(sql, td, i, Everything(), ones, args, map[0 := map[]]) {
      WritesOwnCell(sql, td, i, c, zeros, args, enums, k);
      WritesOwnCell(sql, td, i, c, ones, args, enums, k);
      FilledAt(fields, false, fields[k]);
      FilledAt(fields, true, fields[k]);
      HiddenSeen(c, c.words[k], zeros, args);
      HiddenSeen(c, c.words[k], ones, args);
      DefaultCells(fields[k], zeros, ones);
      assert false;
    }
  }

  lemma FilledZero(td: TableDef, c: CustomUpdate, one: bool)
    requires ValidTable(td) && c in td.customs
    ensures var self := Filled(Resolve(td.fields, c.words), one);
      "rowid" in self && self["rowid"] == IntValue(0)
  {
    hide ValidFields, FindField;
    CustomWords(td, c);
    forall f | f in Resolve(td.fields, c.words) ensures f.name != "rowid" { RowidReserved(td.fields, f); }
    FilledRowid(Resolve(td.fields, c.words), one);
  }

  lemma ListedIsColumn(td: TableDef, c: CustomUpdate, k: nat)
    requires ValidTable(td) && c in td.customs && Bindable(td.fields, c) && k < |c.words|
    ensures !Resolve(td.fields, c.words)[k].typ.TypeSubtable?
  {
    AllColumnsBoth(Resolve(td.fields, c.words), CustomWheres(c));
  }

  lemma CallableArguments(td: TableDef, c: CustomUpdate, self: Scope, args: Scope, enums: Enums)
    requires ValidTable(td) && c in td.customs && Callable(td, c, self, args, enums)
    ensures if c.Upd? then args == map[] else args.Keys == Elements(ColumnNames(Arguments(c.args)))
  {
  }

  lemma DefaultCells(f: FieldDef, zeros: Scope, ones: Scope)
    requires !f.typ.TypeSubtable? && f.name in zeros && f.name in ones
    requires zeros[f.name] == DefaultOf(f.typ, false) && ones[f.name] == DefaultOf(f.typ, true)
    ensures CellOf(f, zeros) != CellOf(f, ones)
  {
  }

  /** What the emitted function finds under a hidden name is none of the object's. */
  lemma HiddenSeen(c: CustomUpdate, name: string, self: Scope, args: Scope)
    requires CustomHides(c, name)
    requires if c.Upd? then args == map[] else args.Keys == Elements(ColumnNames(Arguments(c.args)))
    ensures name in CUSTOM_LOCALS + args && name in self + CUSTOM_LOCALS + args
    ensures (self + CUSTOM_LOCALS + args)[name] == (CUSTOM_LOCALS + args)[name]
  {
  }

  lemma FieldsDistinct(td: TableDef, c: CustomUpdate)
    requires ValidTable(td) && c in td.customs
    ensures var fields := Resolve(td.fields, c.words);
      DistinctNames(fields) && forall i :: 0 <= i < |fields| ==> fields[i].name == c.words[i]
  {
    var fields := Resolve(td.fields, c.words);
    CustomWords(td, c);
    forall i | 0 <= i < |fields| ensures fields[i].name == c.words[i] {
      assert ColumnNames(fields)[i] == c.words[i];
    }
    forall f, g | f in fields && g in fields && f.name == g.name ensures f == g {
      var i :| 0 <= i < |fields| && fields[i] == f;
      var j :| 0 <= j < |fields| && fields[j] == g;
      assert FindField(td.fields, c.words[i]) == Some(f) && FindField(td.fields, c.words[j]) == Some(g);
    }
  }

  function FilledArguments(args: seq<TypeDef>): (r: Scope) {
    map name | name in ColumnNames(Arguments(args)) :: ArgumentValue(Arguments(args), name)
  }

  function ArgumentValue(arguments: seq<FieldDef>, name: string): (v: Value) {
    if name in Filled(arguments, false) then Filled(arguments, false)[name] else IntValue(0)
  }

  lemma ArgumentsDistinct(args: seq<TypeDef>)
    ensures DistinctNames(Arguments(args))
  {
    var arguments := Arguments(args);
    hide Dec;
    forall f, g | f in arguments && g in arguments && f.name == g.name ensures f == g {
      var i :| 0 <= i < |arguments| && arguments[i] == f;
      var j :| 0 <= j < |arguments| && arguments[j] == g;
      SameNumber(i + 1, j + 1);
    }
  }

  lemma SameNumber(i: nat, j: nat)
    requires "v" + Dec(i) == "v" + Dec(j)
    ensures i == j
  {
    hide Dec, Num;
    assert ("v" + Dec(i))[1..] == Dec(i) && ("v" + Dec(j))[1..] == Dec(j);
    NumOfDec(i);
    NumOfDec(j);
  }

  lemma FilledCallable(td: TableDef, c: CustomUpdate, one: bool)
    requires ValidTable(td) && c in td.customs && Bindable(td.fields, c)
    ensures var fields := Resolve(td.fields, c.words);
      Callable(td, c, Filled(fields, one), if c.Upd? then map[] else FilledArguments(c.args),
               AllEnums(fields + CustomWheres(c)))
  {
    hide Filled, AllEnums, CType, ValidFields;
    var fields, more := Resolve(td.fields, c.words), CustomWheres(c);
    var enums := AllEnums(fields + more);
    FieldsDistinct(td, c);
    CustomWords(td, c);
    AllColumnsBoth(fields, more);
    TypedWithin(fields, fields + more, one);
    if c.Upd? {
      forall f | f in fields ensures f.name != "rowid" { assert f in td.fields; RowidReserved(td.fields, f); }
      FilledRowid(fields, one);
      RowidFits(enums);
    } else {
      ArgumentsDistinct(c.args);
      TypedWithin(more, fields + more, false);
      forall i | 0 <= i < |more| ensures more[i].name in FilledArguments(c.args)
        ensures FilledArguments(c.args)[more[i].name] == Filled(more, false)[more[i].name]
      {
        FilledAt(more, false, more[i]);
        assert ColumnNames(more)[i] == more[i].name;
      }
    }
  }

  lemma RowidReserved(fields: seq<FieldDef>, f: FieldDef)
    requires ValidFields(fields) && f in fields
    ensures f.name != "rowid"
  {
  }

  lemma TypedWithin(fields: seq<FieldDef>, all: seq<FieldDef>, one: bool)
    requires DistinctNames(fields) && AllColumns(fields) && forall f :: f in fields ==> f in all
    ensures Typed(fields, Filled(fields, one), AllEnums(all))
  {
    hide Filled, AllEnums, CType;
    forall i | 0 <= i < |fields|
      ensures fields[i].name in Filled(fields, one)
      ensures WellTyped(fields[i].typ, Filled(fields, one)[fields[i].name], AllEnums(all))
    {
      FilledAt(fields, one, fields[i]);
      AllEnumsHas(all, fields[i]);
    }
  }

  // ----- from the rows back to what was bound -----

  /** A call that writes the object's own fields into a row of nothing has bound each field's own cell. */
  lemma WritesOwnCell(sql: Sqlite, td: TableDef, i: nat, c: CustomUpdate, self: Scope, args: Scope, enums: Enums,
                      k: nat)
    requires ValidTable(td) && i < |td.customs| && c == td.customs[i] && Creatable(sql, td)
    requires Callable(td, c, self, args, enums)
    requires k < |c.words|
    requires "rowid" in self && self["rowid"] == IntValue(0)
    requires CustomWrites(sql, td, i, Everything(), self, args, map[0 := map[]])
    ensures var f, scope := Resolve(td.fields, c.words)[k], self + CUSTOM_LOCALS + args;
      f.name in scope && BindCell(FormOf(f.typ), SqliteBind(f.typ), scope[f.name]) == Some(CellOf(f, self))
  {
    var fields := Resolve(td.fields, c.words);
    hide *;
    var more, alias := CustomWheres(c), AliasOf(td);
    var own := RowOf(fields, self);
    CreatableKeys(sql, td);
    ListedAreColumns(td, c, self, args, enums);
    ResolvedKeys(td, c);
    CustomWords(td, c);
    CustomParts(td, c);
    AliasIsInteger(td, c, self, args, enums);
    SoleRowMeant(td, c, self, args, enums);
    var n := SoleRewritten(CellsOf(more, self + args), MeantBy(c, Everything()), own, alias);
    CreatedExactly(sql, td);
    WrittenUpdate(sql, td, i, c, Everything(), self, args, map[0 := map[]]);
    TableAlias(td);
    BoundOwnCell(TableFor(td), fields, more, CustomStmt(c), self + CUSTOM_LOCALS + args,
                 WhereOf(TableFor(td), c, QueryOf(c), Everything()), n, self, k);
  }

  lemma SoleRowMeant(td: TableDef, c: CustomUpdate, self: Scope, args: Scope, enums: Enums)
    requires ValidTable(td) && c in td.customs && Callable(td, c, self, args, enums)
    requires "rowid" in self && self["rowid"] == IntValue(0)
    ensures MeantBy(c, Everything())(CellsOf(CustomWheres(c), self + args), 0, map[])
  {
    hide ValidFields, FindField, Resolve;
    if c.Upd? { RowidBound(td, c, self, args, enums); }
  }

  lemma BoundOwnCell(t: Table, fields: seq<FieldDef>, more: seq<FieldDef>, stmt: string, scope: Scope,
                     where: Where, n: int, self: Scope, k: nat)
    requires k < |fields| && DistinctKeys(fields) && Columns(t, fields) && forall f :: f in fields ==> Word(f.name)
    requires var columns, marks := Join(ColumnNames(fields), ", "), Join(Marks(|fields|), ",");
      Updated(t, columns, marks, Binders(fields + more, stmt), stmt, |more|, scope, where, map[0 := map[]])
      == Some(map[n := RowOf(fields, self)])
    ensures var f := fields[k];
      f.name in scope && BindCell(FormOf(f.typ), SqliteBind(f.typ), scope[f.name]) == Some(CellOf(f, self))
  {
    hide *;
    var columns, marks := Join(ColumnNames(fields), ", "), Join(Marks(|fields|), ",");
    PreparedExactly(t, fields);
    ListsParse(fields);
    var params, names, row, ws :=
      UpdatedParts(t, columns, marks, Binders(fields + more, stmt), stmt, |more|, scope, where, map[0 := map[]]);
    OwnAt(fields, self, k);
    SoleRow(ws, where, row, t.alias, n, RowOf(fields, self));
    var j := AssignAt(names, params, k);
    BoundCell(fields + more, stmt, |Items(marks)| + |more|, scope, j);
    SameField(fields, j, k);
  }

  lemma WrittenUpdate(sql: Sqlite, td: TableDef, i: nat, c: CustomUpdate, meaning: string -> Where,
                      self: Scope, args: Scope, rows: Rows)
    requires ValidTable(td) && i < |td.customs| && c == td.customs[i]
    requires CustomWrites(sql, td, i, meaning, self, args, rows)
    requires TableOf(sql, td) == Some(TableFor(td))
    ensures var t, src, scope := TableFor(td), CustomOf(td.fields, c), self + CUSTOM_LOCALS + args;
      Updated(t, src.columns, src.marks, src.binders, src.stmt, |CustomWheres(c)|, scope,
              WhereOf(t, c, QueryOf(c), meaning), rows)
      == Rewrite(rows, CellsOf(CustomWheres(c), self + args), MeantBy(c, meaning),
                 RowOf(Resolve(td.fields, c.words), self), AliasOf(td))
  {
  }

  lemma SameField(fields: seq<FieldDef>, j: nat, k: nat)
    requires DistinctKeys(fields) && j < |fields| && k < |fields| && Fold(fields[j].name) == Fold(fields[k].name)
    ensures fields[j] == fields[k]
  {
  }

  lemma OwnAt(fields: seq<FieldDef>, self: Scope, k: nat)
    requires DistinctKeys(fields) && k < |fields|
    ensures var key := Fold(fields[k].name);
      key in RowOf(fields, self) && RowOf(fields, self)[key] == CellOf(fields[k], self)
  {
    RowOfAt(fields, self, fields[k]);
  }

  lemma AliasIsInteger(td: TableDef, c: CustomUpdate, self: Scope, args: Scope, enums: Enums)
    requires ValidTable(td) && c in td.customs && Callable(td, c, self, args, enums)
    requires DistinctKeys(Stored(td.fields))
    ensures var alias, row := AliasOf(td), RowOf(Resolve(td.fields, c.words), self);
      alias != [] && alias[0] in row ==> row[alias[0]].Integer?
  {
    hide ValidFields, RowOf, WellTyped, CellOf, Fold;
    var alias, fields := AliasOf(td), Resolve(td.fields, c.words);
    ListedAreColumns(td, c, self, args, enums);
    ResolvedKeys(td, c);
    hide FindField, Resolve;
    if alias != [] && alias[0] in RowOf(fields, self) {
      RowOfKeys(fields, self, alias[0]);
      var i :| 0 <= i < |fields| && Fold(fields[i].name) == alias[0];
      assert fields[i] in fields;
      AliasIs(td, fields[i]);
      StoredExactly(td.fields, fields[i]);
      AutoIsInt(td.fields, fields[i]);
      RowOfAt(fields, self, fields[i]);
      IntegerCell(fields[i], self, enums);
    }
  }

  lemma IntegerCell(f: FieldDef, self: Scope, enums: Enums)
    requires f.typ.TypeInt? || f.typ.TypeInt64?
    requires f.name in self && WellTyped(f.typ, self[f.name], enums)
    ensures CellOf(f, self).Integer?
  {
  }

  /** The one row there is gets the cells, and moves to the rowid among them. */
  lemma SoleRewritten(ws: seq<Cell>, where: Where, row: Row, alias: seq<string>)
    returns (n: int)
    requires where(ws, 0, map[]) && (alias != [] && alias[0] in row ==> row[alias[0]].Integer?)
    ensures Rewrite(map[0 := map[]], ws, where, row, alias) == Some(map[n := row])
  {
    var rows: Rows := map[0 := map[]];
    n := if alias == [] || alias[0] !in row then 0 else row[alias[0]].i;
    assert Picked(rows, ws, where) == {0};
    assert rows[0] + row == row;
    if alias != [] && alias[0] in row {
      assert 0 in rows && (n == 0 || n !in rows);
      assert (rows - {0})[n := row] == map[n := row];
    } else {
      assert Extend(rows, {0}, row) == map[0 := row];
    }
  }

  lemma SoleRow(ws: seq<Cell>, where: Where, row: Row, alias: seq<string>, n: int, own: Row)
    requires Rewrite(map[0 := map[]], ws, where, row, alias) == Some(map[n := own]) && own.Keys != {}
    ensures row == own
  {
    var rows: Rows := map[0 := map[]];
    assert map[n := own][n] == own;
    if where(ws, 0, map[]) {
      assert 0 in Picked(rows, ws, where);
      var m := SoleRewritten(ws, where, row, alias);
      assert n in map[m := row];
    } else {
      assert Picked(rows, ws, where) == {};
      NoneRewritten(rows, ws, where, row, alias);
    }
  }

  lemma UpdatedParts(t: Table, columns: string, marks: string, binders: seq<Binder>, stmt: string, n: nat, scope: Scope,
                     where: Where, rows: Rows)
    returns (params: map<nat, Cell>, names: seq<string>, row: Row, ws: seq<Cell>)
    requires Updated(t, columns, marks, binders, stmt, n, scope, where, rows).Some?
    ensures BindAll(binders, stmt, |Items(marks)| + n, scope) == Some(params)
    ensures Prepared(t, columns, marks) == Some(names) && Assign(names, params) == Some(row)
    ensures Updated(t, columns, marks, binders, stmt, n, scope, where, rows) == Rewrite(rows, ws, where, row, t.alias)
  {
    hide BindAll, Items, Prepared, Assign, Rewrite;
    params := BindAll(binders, stmt, |Items(marks)| + n, scope).value;
    names := Prepared(t, columns, marks).value;
    row := Assign(names, params).value;
    ws := seq(n, i requires 0 <= i < n => params[|names| + 1 + i]);
  }

  lemma {:induction false} AssignAt(names: seq<string>, params: map<nat, Cell>, k: nat) returns (j: nat)
    requires Assign(names, params).Some? && k < |names|
    ensures j < |names| && names[j] == names[k] && j + 1 in params
    ensures names[k] in Assign(names, params).value && Assign(names, params).value[names[k]] == params[j + 1]
  {
    var n := |names| - 1;
    if names[k] == names[n] {
      j := n;
    } else {
      j := AssignAt(names[..n], params, k);
    }
  }

  lemma {:induction false} BoundCell(fields: seq<FieldDef>, stmt: string, marks: nat, scope: Scope, k: nat)
    requires BindAll(Binders(fields, stmt), stmt, marks, scope).Some? && k < |fields|
    ensures var f, params := fields[k], BindAll(Binders(fields, stmt), stmt, marks, scope).value;
      && f.name in scope && k + 1 in params
      && BindCell(FormOf(f.typ), SqliteBind(f.typ), scope[f.name]) == Some(params[k + 1])
  {
    hide BindCell, FormOf, SqliteBind, Num, Dec;
    var n := |fields| - 1;
    NumOfDec(n + 1);
    assert Binders(fields, stmt)[..n] == Binders(fields[..n], stmt);
    if k < n { BoundCell(fields[..n], stmt, marks, scope, k); }
  }

  // ----- tables where it goes wrong -----

  /** A table of one column and one custom update of it. */
  function OneColumnTable(name: string, f: FieldDef, c: CustomUpdate): (td: TableDef) {
    TableDef(name, [f], [c])
  }

  lemma OneColumn(name: string, f: FieldDef, c: CustomUpdate)
    requires !f.typ.TypeSubtable? && !f.autoIncrement && Word(f.name) && f.name != "rowid" && c.words == [f.name]
    ensures var td := OneColumnTable(name, f, c);
      && ValidTable(td) && c in td.customs && Autos(td.fields) == [] && Resolve(td.fields, c.words) == [f]
      && AliasOf(td) == [] && Columns(TableFor(td), [f]) && (Fold(f.name) != "rowid" ==> RowidFree(Stored(td.fields)))
  {
    var td := OneColumnTable(name, f, c);
    OneColumnValid(td, f, c);
    hide Word, Fold, ValidFields, Columns, Stored, Bound, Autos;
    StoredAreColumns(td);
  }

  lemma OneColumnValid(td: TableDef, f: FieldDef, c: CustomUpdate)
    requires td.fields == [f] && td.customs == [c] && c.words == [f.name]
    requires !f.typ.TypeSubtable? && !f.autoIncrement && Word(f.name) && f.name != "rowid"
    ensures ValidTable(td) && Autos(td.fields) == [] && Stored(td.fields) == [f] && Resolve(td.fields, c.words) == [f]
  {
    hide Word;
    assert td.fields[..0] == [];
    assert FindField(td.fields, f.name) == Some(f);
  }

  /** CUSTOM-UPD of an INT column `ret`: whatever the object holds there, 0 is written, the value of the local. */
  lemma RetIsWrittenAsZero(name: string, meaning: string -> Where, n: int, id: int, rows: Rows)
    requires -0x8000_0000_0000_0000 <= id < 0x8000_0000_0000_0000
    ensures var f, c := FieldDef("ret", TypeInt, false), Upd("it", ["ret"]);
      var td, self := OneColumnTable(name, f, c), map["ret" := IntValue(n), "rowid" := IntValue(id)];
      && ValidTable(td) && c in td.customs
      && CustomUpdateObject(TableFor(td), td, 0, meaning, self, map[], rows)
         == Rewrite(rows, [Integer(id)], OwnRow(), map["ret" := Integer(0)], [])
  {
    var f, c := FieldDef("ret", TypeInt, false), Upd("it", ["ret"]);
    var td, self := OneColumnTable(name, f, c), map["ret" := IntValue(n), "rowid" := IntValue(id)];
    OneColumn(name, f, c);
    CustomParts(td, c);
    var seen: Scope := map["r" := IntValue(0), "ret" := IntValue(0), "rowid" := IntValue(id)];
    RetSeen(f, self, seen, n, id);
    RetFolds();
    OneFieldRow(f, seen);
    hide Updated, Rewrite, BindAll, Binders, RowOf, CellsOf, ValidFields, Autos, Typed, CellOf, Fold, TableFor,
         WhereRowid;
    hide Columns, RowidFree, AliasOf, Stored;
    TableAlias(td);
    UpdateSeenAs(TableFor(td), f, CustomStmt(c), self + CUSTOM_LOCALS + map[], seen, WhereRowid(TableFor(td)), rows);
    SameRows(td, rows, id, map["ret" := Integer(0)], []);
  }

  /** An update by rowid whose binders see other variables than the fields, of the same cells as `seen`. */
  lemma UpdateSeenAs(t: Table, f: FieldDef, stmt: string, scope: Scope, seen: Scope,
                     where: Where, rows: Rows)
    requires Columns(t, [f]) && Word(f.name) && Typed([f] + [ROWID], seen, map[])
    requires SeenAlike(Binders([f, ROWID], stmt), scope, seen)
    ensures Updated(t, Join(ColumnNames([f]), ", "), Join(Marks(1), ","), Binders([f] + [ROWID], stmt), stmt, 1,
                    scope, where, rows)
         == Rewrite(rows, CellsOf([ROWID], seen), where, RowOf([f], seen), t.alias)
  {
    hide *;
    assert [f] + [ROWID] == [f, ROWID];
    UpdatedAlike(t, Join(ColumnNames([f]), ", "), Join(Marks(1), ","), Binders([f, ROWID], stmt), stmt, 1, scope,
                 seen, where, rows);
    UpdateMeans(t, [f], [ROWID], stmt, seen, map[], where, rows);
  }

  /** CUSTOM-UPD of a column with a reserved name, such as `order`: no variable hides it, and nothing is written. */
  lemma OrderIsNotWritten(sql: Sqlite, name: string, meaning: string -> Where, self: Scope)
    requires "order" in sql.reserved
    ensures var f, c := FieldDef("order", TypeInt, false), Upd("it", ["order"]);
      var td := OneColumnTable(name, f, c);
      && ValidTable(td) && c in td.customs && !CustomHides(c, "order") && TableOf(sql, td) == None
      && !CustomWrites(sql, td, 0, meaning, self, map[], map[])
  {
    var f, c := FieldDef("order", TypeInt, false), Upd("it", ["order"]);
    var td := OneColumnTable(name, f, c);
    FoldOrder();
    hide Word, Fold, ValidFields, TableOf, FindField, Resolve, TableNamed, CustomWrites;
    OneColumnValid(td, f, c);
    assert f in Stored(td.fields);
    CreatedExactly(sql, td);
    NothingWithoutTable(sql, td, 0, c, meaning, self, map[]);
  }

  lemma NothingWithoutTable(sql: Sqlite, td: TableDef, i: nat, c: CustomUpdate, meaning: string -> Where,
                            self: Scope, args: Scope)
    requires ValidTable(td) && i < |td.customs| && c == td.customs[i] && TableOf(sql, td) == None
    ensures !CustomWrites(sql, td, i, meaning, self, args, map[])
  {
    var row := RowOf(Resolve(td.fields, c.words), self);
    hide TableOf, Rewrite, CellsOf, RowOf, FindField, Resolve, AliasOf, MeantBy, CustomWheres, ValidFields;
    NothingRewritten(CellsOf(CustomWheres(c), self + args), MeantBy(c, meaning), row, AliasOf(td));
  }

  lemma RetFolds()
    ensures Fold("ret") == "ret" && "ret" != "rowid"
  {
    assert |"ret"| == 3 && |"rowid"| == 5;
  }

  lemma V1Folds()
    ensures Fold("v1") == "v1"
  {
  }

  lemma RetSeen(f: FieldDef, self: Scope, seen: Scope, n: int, id: int)
    requires -0x8000_0000_0000_0000 <= id < 0x8000_0000_0000_0000
    requires f == FieldDef("ret", TypeInt, false) && self == map["ret" := IntValue(n), "rowid" := IntValue(id)]
    requires seen == map["r" := IntValue(0), "ret" := IntValue(0), "rowid" := IntValue(id)]
    ensures Typed([f] + [ROWID], seen, map[]) && CellOf(f, seen) == Integer(0)
    ensures CellsOf([ROWID], seen) == [Integer(id)]
    ensures forall stmt: string :: SeenAlike(Binders([f, ROWID], stmt), self + CUSTOM_LOCALS + map[], seen)
  {
    hide Dec;
  }

  /** CUSTOM-UPDBY of an INT column `v1` by an INT: the argument is written, whatever the object holds. */
  lemma ParameterIsWritten(name: string, query: string, meaning: string -> Where, n: int, a: int,
                           rows: Rows)
    requires -0x8000_0000 <= a < 0x8000_0000
    ensures var f, c := FieldDef("v1", TypeInt, false), UpdBy("it", ["v1"], [TypeInt], query);
      var td := OneColumnTable(name, f, c);
      && ValidTable(td) && c in td.customs
      && CustomUpdateObject(TableFor(td), td, 0, meaning, map["v1" := IntValue(n)], map["v1" := IntValue(a)], rows)
         == Rewrite(rows, [Integer(a)], meaning(query), map["v1" := Integer(a)], [])
  {
    var f, c := FieldDef("v1", TypeInt, false), UpdBy("it", ["v1"], [TypeInt], query);
    var td := OneColumnTable(name, f, c);
    var self: Scope, args: Scope := map["v1" := IntValue(n)], map["v1" := IntValue(a)];
    var scope := self + CUSTOM_LOCALS + args;
    OneColumn(name, f, c);
    CustomParts(td, c);
    FirstArgument(f, scope, a);
    V1Folds();
    OneFieldRow(f, scope);
    hide Updated, Rewrite, Binders, RowOf, CellsOf, CellOf, ValidFields, Autos, Typed, Arguments, Fold, TableFor,
         Columns;
    hide AliasOf, Stored, RowidFree;
    UpdateMeans(TableFor(td), [f], [f], CustomStmt(c), scope, map[], meaning(query), rows);
    TableAlias(td);
  }

  lemma FirstArgument(f: FieldDef, scope: Scope, a: int)
    requires -0x8000_0000 <= a < 0x8000_0000
    requires f == FieldDef("v1", TypeInt, false) && "v1" in scope && scope["v1"] == IntValue(a)
    ensures Arguments([TypeInt]) == [f] && Typed([f] + [f], scope, map[])
    ensures CellsOf([f], scope) == [Integer(a)] && CellOf(f, scope) == Integer(a)
  {
    assert Dec(1) == "1" && "v" + "1" == "v1";
  }

  /** The binders pass on the same cells in both scopes. */
  ghost predicate SeenAlike(bs: seq<Binder>, a: Scope, b: Scope) {
    forall i :: 0 <= i < |bs| ==>
      && bs[i].operand in a && bs[i].operand in b
      && BindCell(bs[i].form, bs[i].func, a[bs[i].operand]) == BindCell(bs[i].form, bs[i].func, b[bs[i].operand])
  }

  lemma {:induction false} BoundAlike(bs: seq<Binder>, stmt: string, marks: nat, a: Scope, b: Scope)
    requires SeenAlike(bs, a, b)
    ensures BindAll(bs, stmt, marks, a) == BindAll(bs, stmt, marks, b)
  {
    hide BindCell, Num;
    if bs != [] { BoundAlike(bs[..|bs| - 1], stmt, marks, a, b); }
  }

  lemma UpdatedAlike(t: Table, columns: string, marks: string, binders: seq<Binder>, stmt: string, n: nat, a: Scope,
                     b: Scope, where: Where, rows: Rows)
    requires SeenAlike(binders, a, b)
    ensures Updated(t, columns, marks, binders, stmt, n, a, where, rows)
         == Updated(t, columns, marks, binders, stmt, n, b, where, rows)
  {
    hide BindAll, ExecUpdate, SeenAlike;
    BoundAlike(binders, stmt, |Items(marks)| + n, a, b);
  }
}
