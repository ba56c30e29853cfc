/** The emitter: the loops that keep column lists, `?` lists, bind indices and read indices in step. */
module EmitSources {
  import opened Schemas
  import opened Options

  // ----- the emitted pieces that carry an index -----

  /** Which of the four binder and reader templates a type uses. */
  datatype Form = Pod | Bytes | Flag | Member

  datatype Binder = Binder(stmt: string, form: Form, func: string, index: string, operand: string)

  /** A column of the emitted CREATE TABLE. */
  datatype ColumnDecl = ColumnDecl(name: string, sqlType: string, autoIncrement: bool)

  datatype Reader =
    Reader(form: Form, func: string, sqliteType: string, index: string, field: string, fieldType: string)

  datatype CustomSource =
    CustomSource(stmt: string, columns: string, marks: string, binders: seq<Binder>, query: string)

  datatype TableSource = TableSource(
    created: seq<ColumnDecl>, columns: string, updateColumns: string, marks: string, marksForce: string,
    insertBinders: seq<Binder>, updateBinders: seq<Binder>, forceBinders: seq<Binder>,
    readers: seq<Reader>, fetched: seq<string>, customs: seq<CustomSource>)

  function FormOf(t: TypeDef): (f: Form) {
    match t
    case TypeText | TypeBlob => Bytes
    case TypeBool => Flag
    case TypeEnum(_) => Member
    case _ => Pod
  }

  function SqliteType(t: TypeDef): (s: string) {
    match t
    case TypeInt64 => "int64"
    case TypeDouble => "double"
    case TypeText => "text"
    case TypeBlob => "blob"
    case _ => "int"
  }

  function SqliteCreateType(t: TypeDef): (s: string) {
    match t
    case TypeInt64 => "int64"
    case TypeDouble => "double"
    case TypeText => "text"
    case TypeBlob => "blob"
    case _ => "integer"
  }

  function SqliteBind(t: TypeDef): (s: string) {
    "sqlite3_bind_" + SqliteType(t)
  }

  function SqliteColumn(t: TypeDef): (s: string) {
    "sqlite3_column_" + SqliteType(t)
  }

  function SqliteMacro(t: TypeDef): (s: string) {
    match t
    case TypeDouble => "FLOAT"
    case TypeText => "TEXT"
    case TypeBlob => "BLOB"
    case _ => "INTEGER"
  }

  function DotsToColons(s: string): (r: string) {
    if s == "" then "" else (if s[0] == '.' then "::" else [s[0]]) + DotsToColons(s[1..])
  }

  function ColonsToDots(s: string): (r: string) {
    if s == "" then ""
    else if |s| >= 2 && s[0] == ':' && s[1] == ':' then "." + ColonsToDots(s[2..])
    else [s[0]] + ColonsToDots(s[1..])
  }

  /** A dotted name comes out as a C++ name without dots, from which it can be read back. */
  lemma {:induction false} DotsToColonsBack(s: string)
    ensures '.' !in DotsToColons(s)
    ensures ':' !in s ==> ColonsToDots(DotsToColons(s)) == s
  {
    if s != "" {
      DotsToColonsBack(s[1..]);
      var rest := DotsToColons(s[1..]);
      if s[0] == '.' {
        assert ("::" + rest)[2..] == rest && "." + s[1..] == s;
      } else {
        assert ([s[0]] + rest)[1..] == rest && [s[0]] + s[1..] == s;
      }
    }
  }

  function CType(t: TypeDef): (s: string) {
    match t
    case TypeInt => "int32_t"
    case TypeInt64 => "int64_t"
    case TypeDouble => "double"
    case TypeBool => "bool"
    case TypeEnum(name) => DotsToColons(name)
    case _ => "const std::string &"
  }

  // ----- the pattern map and the templates that read it -----

  datatype Key =
    | AllFieldnames | UpdateFieldnames | Fieldname | Fieldtype | SqliteBindFunc | SqliteColumnFunc
    | SqliteMacroName | SelectColumnIndex | UpdateColumnIndex | Stmt | Questionmarks | QuestionmarksForce
    | Customname | By | Fieldindex | ArgIndex | CustomFieldlist | CustomQuestionmarks | Querystring

  type Patterns = map<Key, string>

  /** TABLE_insert_binder_*: insert, update and forced insert all share it. */
  function InsertBinder(p: Patterns, form: Form): (b: Binder)
    requires {Stmt, SqliteBindFunc, UpdateColumnIndex, Fieldname} <= p.Keys
  {
    Binder(p[Stmt], form, p[SqliteBindFunc], p[UpdateColumnIndex], p[Fieldname])
  }

  /** TABLE_get_column_*. */
  function GetColumn(p: Patterns, form: Form): (r: Reader)
    requires {SqliteColumnFunc, SqliteMacroName, SelectColumnIndex, Fieldname, Fieldtype} <= p.Keys
  {
    Reader(form, p[SqliteColumnFunc], p[SqliteMacroName], p[SelectColumnIndex], p[Fieldname], p[Fieldtype])
  }

  /** The statement that binds rowid inside TABLE_CLASS_IMPL. */
  function UpdateRowidBinder(p: Patterns): (b: Binder)
    requires UpdateColumnIndex in p
  {
    Binder("update", Pod, "sqlite3_bind_int64", p[UpdateColumnIndex], "rowid")
  }

  /** TABLE_custom_upd_binder_*. */
  function CustomBinder(p: Patterns, form: Form): (b: Binder)
    requires {By, Customname, SqliteBindFunc, Fieldindex, Fieldname} <= p.Keys
  {
    Binder(p[By] + "_" + p[Customname], form, p[SqliteBindFunc], p[Fieldindex], p[Fieldname])
  }

  /** TABLE_custom_updby_binder_*. */
  function CustomArgBinder(p: Patterns, form: Form): (b: Binder)
    requires {Customname, SqliteBindFunc, ArgIndex, Fieldindex} <= p.Keys
  {
    Binder("update_by" + "_" + p[Customname], form, p[SqliteBindFunc], p[ArgIndex], "v" + p[Fieldindex])
  }

  /** The statement that binds rowid inside TABLE_custom_upd_implementation. */
  function CustomRowidBinder(p: Patterns): (b: Binder)
    requires {Customname, Fieldindex} <= p.Keys
  {
    Binder("update" + "_" + p[Customname], Pod, "sqlite3_bind_int64", p[Fieldindex], "rowid")
  }

  // ----- what the loops must produce: the k-th column gets the k-th mark, binder and reader -----

  const ROWID := FieldDef("rowid", TypeInt64, false)

  function BinderFor(f: FieldDef, stmt: string, index: nat): (b: Binder) {
    Binder(stmt, FormOf(f.typ), SqliteBind(f.typ), Dec(index), f.name)
  }

  function Binders(fields: seq<FieldDef>, stmt: string): (r: seq<Binder>)
    ensures |r| == |fields|
    ensures forall k :: 0 <= k < |fields| ==> r[k] == BinderFor(fields[k], stmt, k + 1)
  {
    seq(|fields|, k requires 0 <= k < |fields| => BinderFor(fields[k], stmt, k + 1))
  }

  function ReaderFor(f: FieldDef, index: nat): (r: Reader) {
    Reader(FormOf(f.typ), SqliteColumn(f.typ), SqliteMacro(f.typ), Dec(index), f.name, CType(f.typ))
  }

  function Readers(fields: seq<FieldDef>): (r: seq<Reader>)
    ensures |r| == |fields|
    ensures forall k :: 0 <= k < |fields| ==> r[k] == ReaderFor(fields[k], k + 1)
  {
    seq(|fields|, k requires 0 <= k < |fields| => ReaderFor(fields[k], k + 1))
  }

  function DeclFor(f: FieldDef): (d: ColumnDecl) {
    ColumnDecl(f.name, SqliteCreateType(f.typ), f.autoIncrement)
  }

  function Declared(fields: seq<FieldDef>): (r: seq<ColumnDecl>)
    ensures |r| == |fields|
    ensures forall k :: 0 <= k < |fields| ==> r[k] == DeclFor(fields[k])
  {
    seq(|fields|, k requires 0 <= k < |fields| => DeclFor(fields[k]))
  }

  /** The names of the AUTOINCR columns, which insert() sets from the new rowid. */
  function Autos(fields: seq<FieldDef>): (r: seq<string>) {
    if fields == [] then []
    else
      var n := |fields| - 1;
      Autos(fields[..n])
      + if !fields[n].typ.TypeSubtable? && fields[n].autoIncrement then [fields[n].name] else []
  }

  /** The parameters v1, v2, ... of a CUSTOM-UPDBY function. */
  function Arguments(args: seq<TypeDef>): (r: seq<FieldDef>)
    ensures |r| == |args|
    ensures forall i :: 0 <= i < |args| ==> r[i] == FieldDef("v" + Dec(i + 1), args[i], false)
  {
    seq(|args|, i requires 0 <= i < |args| => FieldDef("v" + Dec(i + 1), args[i], false))
  }

  /** What the WHERE clause of a custom update asks for. */
  function CustomWheres(c: CustomUpdate): (r: seq<FieldDef>) {
    if c.Upd? then [ROWID] else Arguments(c.args)
  }

  /** What a custom update binds, in order: its columns, then what its WHERE clause asks for. */
  function CustomOperands(fields: seq<FieldDef>, c: CustomUpdate): (r: seq<FieldDef>)
    requires forall w :: w in c.words ==> FindField(fields, w).Some?
  {
    Resolve(fields, c.words) + CustomWheres(c)
  }

  function CustomStmt(c: CustomUpdate): (s: string) {
    (if c.Upd? then "update" else "update_by") + "_" + c.name
  }

  function CustomOf(fields: seq<FieldDef>, c: CustomUpdate): (s: CustomSource)
    requires forall w :: w in c.words ==> FindField(fields, w).Some?
  {
    CustomSource(CustomStmt(c), Join(c.words, ", "), Join(Marks(|c.words|), ","),
                 Binders(CustomOperands(fields, c), CustomStmt(c)),
                 if c.Upd? then "rowid = ?" else c.query)
  }

  /** Nothing a custom update binds is a SUBTABLE: the emitter stops on one. */
  predicate Bindable(fields: seq<FieldDef>, c: CustomUpdate)
    requires forall w :: w in c.words ==> FindField(fields, w).Some?
  {
    AllColumns(CustomOperands(fields, c))
  }

  function CustomsOf(fields: seq<FieldDef>, customs: seq<CustomUpdate>): (r: seq<CustomSource>)
    requires forall c, w :: c in customs && w in c.words ==> FindField(fields, w).Some?
  {
    seq(|customs|, i requires 0 <= i < |customs| => CustomOf(fields, customs[i]))
  }

  function SourceOf(td: TableDef): (s: TableSource)
    requires ValidTable(td)
  {
    var stored, bound := Stored(td.fields), Bound(td.fields);
    TableSource(
      Declared(stored), Join(ColumnNames(stored), ", "), Join(ColumnNames(bound), ", "),
      Join(Marks(|bound|), ","), Join(Marks(|stored|), ","),
      Binders(bound, "insert"), Binders(bound + [ROWID], "update"), Binders(stored, "insert_force"),
      Readers(stored), Autos(td.fields), CustomsOf(td.fields, td.customs))
  }

  // ----- one more field -----

  /** What the second loop has printed so far, and its counters. */
  datatype Streams = Streams(
    created: seq<ColumnDecl>, marks: string, marksForce: string, insertBinders: seq<Binder>, updateBinders: seq<Binder>,
    forceBinders: seq<Binder>, readers: seq<Reader>, fetched: seq<string>,
    selectColumn: nat, updateColumn: nat, firstSelect: bool, firstUpdate: bool)

  function StreamsOf(fields: seq<FieldDef>): (s: Streams) {
    var stored, bound := Stored(fields), Bound(fields);
    Streams(Declared(stored), Join(Marks(|bound|), ","), Join(Marks(|stored|), ","),
            Binders(bound, "insert"), Binders(bound, "update"), Binders(stored, "insert_force"),
            Readers(stored), Autos(fields), |stored| + 1, |bound| + 1, stored == [], bound == [])
  }

  /** One turn of the loop: a SUBTABLE prints nothing, an AUTOINCR column is only forced, read and fetched. */
  function NextStreams(s: Streams, f: FieldDef): (r: Streams) {
    if f.typ.TypeSubtable? then s
    else
      var forced := s.(
        created := s.created + [DeclFor(f)],
        marksForce := (if s.firstSelect then s.marksForce else s.marksForce + ",") + "?",
        forceBinders := s.forceBinders + [BinderFor(f, "insert_force", s.selectColumn)],
        readers := s.readers + [ReaderFor(f, s.selectColumn)],
        selectColumn := s.selectColumn + 1, firstSelect := false);
      if f.autoIncrement then forced.(fetched := s.fetched + [f.name])
      else forced.(
        marks := (if s.firstUpdate then s.marks else s.marks + ",") + "?",
        insertBinders := s.insertBinders + [BinderFor(f, "insert", s.updateColumn)],
        updateBinders := s.updateBinders + [BinderFor(f, "update", s.updateColumn)],
        updateColumn := s.updateColumn + 1, firstUpdate := false)
  }

  lemma StoredStep(fields: seq<FieldDef>, f: FieldDef)
    ensures Stored(fields + [f]) == if f.typ.TypeSubtable? then Stored(fields) else Stored(fields) + [f]
    ensures var unbound := f.typ.TypeSubtable? || f.autoIncrement;
      Bound(fields + [f]) == if unbound then Bound(fields) else Bound(fields) + [f]
    ensures var auto := !f.typ.TypeSubtable? && f.autoIncrement;
      Autos(fields + [f]) == if auto then Autos(fields) + [f.name] else Autos(fields)
  {
    assert (fields + [f])[..|fields|] == fields;
  }

  lemma NamesStep(fields: seq<FieldDef>, f: FieldDef)
    ensures var names := Join(ColumnNames(fields), ", ");
      Join(ColumnNames(fields + [f]), ", ") == (if fields == [] then names else names + ", ") + f.name
  {
    assert ColumnNames(fields + [f]) == ColumnNames(fields) + [f.name];
    JoinMore(ColumnNames(fields), f.name, ", ");
  }

  lemma ListStep(fields: seq<FieldDef>, f: FieldDef, stmt: string)
    ensures Binders(fields + [f], stmt) == Binders(fields, stmt) + [BinderFor(f, stmt, |fields| + 1)]
    ensures Readers(fields + [f]) == Readers(fields) + [ReaderFor(f, |fields| + 1)]
    ensures Declared(fields + [f]) == Declared(fields) + [DeclFor(f)]
  {
  }

  lemma MarksStep(n: nat)
    ensures Join(Marks(n + 1), ",") == (if n == 0 then Join(Marks(n), ",") else Join(Marks(n), ",") + ",") + "?"
  {
    assert Marks(n + 1) == Marks(n) + ["?"];
    JoinMore(Marks(n), "?", ",");
  }

  /** What the first loop has printed so far. */
  datatype Lists = Lists(all: string, update: string, firstSelect: bool, firstUpdate: bool)

  function ListsOf(fields: seq<FieldDef>): (s: Lists) {
    var stored, bound := Stored(fields), Bound(fields);
    Lists(Join(ColumnNames(stored), ", "), Join(ColumnNames(bound), ", "), stored == [], bound == [])
  }

  lemma ListsStep(fields: seq<FieldDef>, f: FieldDef)
    ensures var s, r := ListsOf(fields), ListsOf(fields + [f]);
      if f.typ.TypeSubtable? then r == s
      else
        && !r.firstSelect && r.all == (if s.firstSelect then s.all else s.all + ", ") + f.name
        && if f.autoIncrement then r.update == s.update && r.firstUpdate == s.firstUpdate
           else !r.firstUpdate && r.update == (if s.firstUpdate then s.update else s.update + ", ") + f.name
  {
    hide Join, ColumnNames, Stored, Bound, Autos;
    StoredStep(fields, f);
    NamesStep(Stored(fields), f);
    NamesStep(Bound(fields), f);
  }

  lemma StreamsStep(fields: seq<FieldDef>, f: FieldDef)
    ensures StreamsOf(fields + [f]) == NextStreams(StreamsOf(fields), f)
  {
    hide Join, Marks, Stored, Bound, Autos, Binders, Readers, Declared, BinderFor, ReaderFor, DeclFor;
    StoredStep(fields, f);
    ListStep(Stored(fields), f, "insert_force");
    ListStep(Bound(fields), f, "insert");
    ListStep(Bound(fields), f, "update");
    MarksStep(|Stored(fields)|);
    MarksStep(|Bound(fields)|);
  }

  lemma StreamsNone()
    ensures StreamsOf([]) == Streams([], "", "", [], [], [], [], [], 1, 1, true, true)
  {
  }

  lemma StreamsCount(fields: seq<FieldDef>)
    ensures StreamsOf(fields).updateColumn == |Bound(fields)| + 1
  {
  }

  /** The first i items with a comma after each but the last of all: how the custom lists are printed. */
  function Listed(items: seq<string>, i: nat, comma: string): (s: string)
    requires i <= |items|
  {
    if 0 < i < |items| then Join(items[..i], comma) + comma else Join(items[..i], comma)
  }

  lemma ListedStep(items: seq<string>, i: nat, comma: string)
    requires i < |items|
    ensures var longer := Listed(items, i, comma) + items[i];
      Listed(items, i + 1, comma) == if i + 1 < |items| then longer + comma else longer
  {
    assert items[..i + 1] == items[..i] + [items[i]];
    hide Join;
    JoinMore(items[..i], items[i], comma);
  }

  lemma ListedAll(items: seq<string>, comma: string)
    ensures Listed(items, |items|, comma) == Join(items, comma)
  {
    assert items[..|items|] == items;
  }

  lemma BindersStep(fields: seq<FieldDef>, i: nat, stmt: string)
    requires i < |fields|
    ensures Binders(fields[..i + 1], stmt) == Binders(fields[..i], stmt) + [BinderFor(fields[i], stmt, i + 1)]
  {
    assert fields[..i + 1] == fields[..i] + [fields[i]];
  }

  /** The first i fields are columns and have their binders. */
  ghost predicate Printed(fields: seq<FieldDef>, i: nat, stmt: string, binders: seq<Binder>) {
    i <= |fields| && AllColumns(fields[..i]) && binders == Binders(fields[..i], stmt)
  }

  lemma PrintedNone(fields: seq<FieldDef>, stmt: string)
    ensures Printed(fields, 0, stmt, [])
  {
  }

  lemma PrintedStep(fields: seq<FieldDef>, i: nat, stmt: string, binders: seq<Binder>, b: Binder)
    requires Printed(fields, i, stmt, binders) && i < |fields| && !fields[i].typ.TypeSubtable?
    requires b == BinderFor(fields[i], stmt, i + 1)
    ensures Printed(fields, i + 1, stmt, binders + [b])
  {
    hide BinderFor;
    BindersStep(fields, i, stmt);
  }

  lemma PrintedAll(fields: seq<FieldDef>, stmt: string, binders: seq<Binder>)
    requires Printed(fields, |fields|, stmt, binders)
    ensures AllColumns(fields) && binders == Binders(fields, stmt)
  {
    assert fields[..|fields|] == fields;
  }

  lemma NotAllColumns(fields: seq<FieldDef>, i: nat)
    requires i < |fields| && fields[i].typ.TypeSubtable?
    ensures !AllColumns(fields)
  {
  }

  lemma AllColumnsBoth(a: seq<FieldDef>, b: seq<FieldDef>)
    ensures AllColumns(a + b) == (AllColumns(a) && AllColumns(b))
  {
    var ab := a + b;
    assert forall i :: 0 <= i < |a| ==> ab[i] == a[i];
    assert forall i :: 0 <= i < |b| ==> ab[|a| + i] == b[i];
  }

  /** The binders of two lists of operands bound by one statement: the second list counts on. */
  lemma BindersBoth(a: seq<FieldDef>, b: seq<FieldDef>, stmt: string, more: seq<Binder>)
    requires |more| == |b|
    requires forall i :: 0 <= i < |b| ==> more[i] == BinderFor(b[i], stmt, |a| + 1 + i)
    ensures Binders(a + b, stmt) == Binders(a, stmt) + more
  {
    hide BinderFor;
    forall k | 0 <= k < |a| + |b|
      ensures Binders(a + b, stmt)[k] == (Binders(a, stmt) + more)[k]
    {
      if k >= |a| { assert more[k - |a|] == BinderFor(b[k - |a|], stmt, k + 1); }
    }
  }

  lemma RowidBinds(b: Binder, stmt: string, index: nat)
    requires b == Binder(stmt, Pod, "sqlite3_bind_int64", Dec(index), "rowid")
    ensures b == BinderFor(ROWID, stmt, index) && AllColumns([ROWID])
  {
    hide Dec;
    assert "sqlite3_bind_" + "int64" == "sqlite3_bind_int64";
  }

  /** The first i words of a custom update are columns and stand in its list with their marks and binders. */
  ghost predicate CustomPrinted(
      fields: seq<FieldDef>, c: CustomUpdate, i: nat, fieldlist: string, marks: string, binders: seq<Binder>)
    requires forall w :: w in c.words ==> FindField(fields, w).Some?
  {
    && i <= |c.words|
    && fieldlist == Listed(c.words, i, ", ") && marks == Listed(Marks(|c.words|), i, ",")
    && Printed(Resolve(fields, c.words), i, CustomStmt(c), binders)
  }

  lemma CustomPrintedNone(fields: seq<FieldDef>, c: CustomUpdate)
    requires forall w :: w in c.words ==> FindField(fields, w).Some?
    ensures CustomPrinted(fields, c, 0, "", "", [])
  {
    PrintedNone(Resolve(fields, c.words), CustomStmt(c));
  }

  lemma CustomPrintedAll(fields: seq<FieldDef>, c: CustomUpdate, fieldlist: string, marks: string, binders: seq<Binder>)
    requires forall w :: w in c.words ==> FindField(fields, w).Some?
    requires CustomPrinted(fields, c, |c.words|, fieldlist, marks, binders)
    ensures fieldlist == Join(c.words, ", ") && marks == Join(Marks(|c.words|), ",")
    ensures AllColumns(Resolve(fields, c.words)) && binders == Binders(Resolve(fields, c.words), CustomStmt(c))
  {
    hide Listed, Printed, Join;
    ListedAll(c.words, ", ");
    ListedAll(Marks(|c.words|), ",");
    PrintedAll(Resolve(fields, c.words), CustomStmt(c), binders);
  }

  lemma BindableIs(fields: seq<FieldDef>, c: CustomUpdate)
    requires forall w :: w in c.words ==> FindField(fields, w).Some?
    ensures Bindable(fields, c) == (AllColumns(Resolve(fields, c.words)) && AllColumns(CustomWheres(c)))
  {
    AllColumnsBoth(Resolve(fields, c.words), CustomWheres(c));
  }

  /** The binders of the WHERE clause count on after those of the columns. */
  lemma CustomOfIs(fields: seq<FieldDef>, c: CustomUpdate, more: seq<Binder>)
    requires forall w :: w in c.words ==> FindField(fields, w).Some?
    requires |more| == |CustomWheres(c)|
    requires forall i :: 0 <= i < |more| ==> more[i] == BinderFor(CustomWheres(c)[i], CustomStmt(c), |c.words| + 1 + i)
    ensures CustomOf(fields, c)
         == CustomSource(CustomStmt(c), Join(c.words, ", "), Join(Marks(|c.words|), ","),
                         Binders(Resolve(fields, c.words), CustomStmt(c)) + more,
                         if c.Upd? then "rowid = ?" else c.query)
  {
    hide BinderFor, CustomWheres, CustomStmt, Binders, Join, Marks;
    BindersBoth(Resolve(fields, c.words), CustomWheres(c), CustomStmt(c), more);
  }

  class EmitSource {
    /** The one map every template reads, overwritten field by field and table by table. */
    var patterns: Patterns

    constructor ()
      ensures patterns == map[]
    {
      patterns := map[];
    }

    /** The first loop over the fields: the column lists. */
    method FieldNames(fields: seq<FieldDef>)
      modifies this
      ensures {AllFieldnames, UpdateFieldnames} <= patterns.Keys
      ensures patterns[AllFieldnames] == Join(ColumnNames(Stored(fields)), ", ")
      ensures patterns[UpdateFieldnames] == Join(ColumnNames(Bound(fields)), ", ")
    {
      var s := Lists("", "", true, true);
      assert s == ListsOf([]);
      for i := 0 to |fields|
        invariant s == ListsOf(fields[..i])
      {
        hide ListsOf;
        ListsStep(fields[..i], fields[i]);
        assert fields[..i + 1] == fields[..i] + [fields[i]];
        if fields[i].typ.TypeSubtable? { continue; }
        if !s.firstSelect { s := s.(all := s.all + ", "); }
        s := s.(firstSelect := false);
        s := s.(all := s.all + fields[i].name);
        if !fields[i].autoIncrement {
          if !s.firstUpdate { s := s.(update := s.update + ", "); }
          s := s.(firstUpdate := false);
          s := s.(update := s.update + fields[i].name);
        }
      }
      assert fields[..|fields|] == fields;
      patterns := patterns[UpdateFieldnames := s.update];
      patterns := patterns[AllFieldnames := s.all];
    }

    /** The patterns the templates of a column read, as the second loop sets them for field f. */
    ghost predicate FieldSet(f: FieldDef, selectColumn: nat, updateColumn: nat)
      reads this
    {
      && Fieldname in patterns && patterns[Fieldname] == f.name
      && Fieldtype in patterns && patterns[Fieldtype] == CType(f.typ)
      && SqliteBindFunc in patterns && patterns[SqliteBindFunc] == SqliteBind(f.typ)
      && SqliteColumnFunc in patterns && patterns[SqliteColumnFunc] == SqliteColumn(f.typ)
      && SqliteMacroName in patterns && patterns[SqliteMacroName] == SqliteMacro(f.typ)
      && SelectColumnIndex in patterns && patterns[SelectColumnIndex] == Dec(selectColumn)
      && (!f.autoIncrement ==> UpdateColumnIndex in patterns && patterns[UpdateColumnIndex] == Dec(updateColumn))
    }

    /** The column lists are not touched. */
    twostate predicate ListsKept()
      reads this
    {
      forall k :: k in {AllFieldnames, UpdateFieldnames} && k in old(patterns) ==>
        k in patterns && patterns[k] == old(patterns[k])
    }

    /**
     The switch over the field's type. The binder templates know one index only, so the forced insert,
     which also counts the AUTOINCR columns, borrows it: the next bound field sets it again before using it.
     */
    method FieldBinders(f: FieldDef, ghost selectColumn: nat, ghost updateColumn: nat)
      returns (bound: seq<(Binder, Binder)>, force: Binder, reader: Reader)
      requires FieldSet(f, selectColumn, updateColumn)
      modifies this
      ensures f.autoIncrement ==> bound == []
      ensures !f.autoIncrement ==>
        bound == [(BinderFor(f, "insert", updateColumn), BinderFor(f, "update", updateColumn))]
      ensures force == BinderFor(f, "insert_force", selectColumn) && reader == ReaderFor(f, selectColumn)
      ensures ListsKept()
    {
      hide Dec, FormOf, CType, SqliteBind, SqliteColumn, SqliteMacro;
      var form := FormOf(f.typ);
      bound := [];
      if !f.autoIncrement {
        patterns := patterns[Stmt := "insert"];
        var insert := InsertBinder(patterns, form);
        patterns := patterns[Stmt := "update"];
        bound := [(insert, InsertBinder(patterns, form))];
      }
      patterns := patterns[UpdateColumnIndex := patterns[SelectColumnIndex]];
      patterns := patterns[Stmt := "insert_force"];
      force := InsertBinder(patterns, form);
      reader := GetColumn(patterns, form);
    }

    /** The patterns of one column: its select index always, its bind index only when it is bound. */
    method SetField(f: FieldDef, selectColumn: nat, updateColumn: nat)
      modifies this
      ensures FieldSet(f, selectColumn, updateColumn) && ListsKept()
    {
      hide Dec, CType, SqliteBind, SqliteColumn, SqliteMacro;
      var p := patterns + map[
        Fieldname := f.name, Fieldtype := CType(f.typ),
        SqliteColumnFunc := SqliteColumn(f.typ), SqliteBindFunc := SqliteBind(f.typ),
        SqliteMacroName := SqliteMacro(f.typ), SelectColumnIndex := Dec(selectColumn)];
      if !f.autoIncrement { p := p[UpdateColumnIndex := Dec(updateColumn)]; }
      patterns := p;
    }

    /** One turn of the second loop: marks, counters, binders and reader of one field. */
    method FieldSource(f: FieldDef, s: Streams) returns (r: Streams)
      modifies this
      ensures r == NextStreams(s, f)
      ensures ListsKept()
    {
      hide BinderFor, ReaderFor, SqliteCreateType, FieldSet;
      r := s;
      if f.typ.TypeSubtable? { return; }
      SetField(f, s.selectColumn, s.updateColumn);
      r := r.(selectColumn := s.selectColumn + 1);
      if !f.autoIncrement {
        r := r.(marks := (if s.firstUpdate then s.marks else s.marks + ",") + "?",
                updateColumn := s.updateColumn + 1, firstUpdate := false);
      } else {
        r := r.(fetched := s.fetched + [f.name]);
      }
      r := r.(created := s.created + [ColumnDecl(f.name, SqliteCreateType(f.typ), f.autoIncrement)]);
      r := r.(marksForce := (if s.firstSelect then s.marksForce else s.marksForce + ",") + "?", firstSelect := false);
      var bound, force, reader := FieldBinders(f, s.selectColumn, s.updateColumn);
      if bound != [] {
        r := r.(insertBinders := s.insertBinders + [bound[0].0], updateBinders := s.updateBinders + [bound[0].1]);
      }
      r := r.(forceBinders := s.forceBinders + [force], readers := s.readers + [reader]);
    }

    /** The second loop: marks, binders and readers, driven by the two counters. */
    method FieldSources(fields: seq<FieldDef>) returns (s: Streams)
      requires {AllFieldnames, UpdateFieldnames} <= patterns.Keys
      modifies this
      ensures s == StreamsOf(fields)
      ensures {AllFieldnames, UpdateFieldnames, UpdateColumnIndex} <= patterns.Keys
      ensures patterns[AllFieldnames] == old(patterns[AllFieldnames])
      ensures patterns[UpdateFieldnames] == old(patterns[UpdateFieldnames])
      ensures patterns[UpdateColumnIndex] == Dec(|Bound(fields)| + 1)
    {
      hide StreamsOf, NextStreams, Dec, Bound, Stored;
      s := Streams([], "", "", [], [], [], [], [], 1, 1, true, true);
      StreamsNone();
      for i := 0 to |fields|
        invariant ListsKept()
        invariant s == StreamsOf(fields[..i])
      {
        StreamsStep(fields[..i], fields[i]);
        assert fields[..i + 1] == fields[..i] + [fields[i]];
        s := FieldSource(fields[i], s);
      }
      assert fields[..|fields|] == fields;
      StreamsCount(fields);
      // For update() the last mark is the rowid's, one past the last bound column.
      patterns := patterns[UpdateColumnIndex := Dec(s.updateColumn)];
    }

    /** The keys TABLE_CLASS_IMPL reads at the very end, which no custom update may disturb. */
    twostate predicate TableKept()
      reads this
    {
      forall k :: k in {AllFieldnames, UpdateFieldnames, UpdateColumnIndex} && k in old(patterns) ==>
        k in patterns && patterns[k] == old(patterns[k])
    }

    method CustomColumn(f: FieldDef, c: CustomUpdate, counter: nat) returns (b: Binder)
      requires Customname in patterns && patterns[Customname] == c.name
      modifies this
      ensures b == BinderFor(f, CustomStmt(c), counter)
      ensures Customname in patterns && patterns[Customname] == c.name
      ensures TableKept()
    {
      hide Dec, FormOf, SqliteBind;
      patterns := patterns[Fieldindex := Dec(counter)];
      patterns := patterns[Fieldname := f.name];
      patterns := patterns[SqliteBindFunc := SqliteBind(f.typ)];
      patterns := patterns[By := if c.UpdBy? then "update_by" else "update"];
      b := CustomBinder(patterns, FormOf(f.typ));
    }

    method CustomArgument(t: TypeDef, c: CustomUpdate, counter: nat, fieldnumber: nat) returns (b: Binder)
      requires Customname in patterns && patterns[Customname] == c.name && c.UpdBy?
      modifies this
      ensures b == BinderFor(FieldDef("v" + Dec(fieldnumber), t, false), CustomStmt(c), counter)
      ensures Customname in patterns && patterns[Customname] == c.name
      ensures TableKept()
    {
      hide Dec, FormOf, SqliteBind;
      patterns := patterns[ArgIndex := Dec(counter)];
      patterns := patterns[Fieldindex := Dec(fieldnumber)];
      patterns := patterns[SqliteBindFunc := SqliteBind(t)];
      b := CustomArgBinder(patterns, FormOf(t));
    }

    /** One more word and its mark, with a comma when another follows. */
    static method CustomWord(words: seq<string>, i: nat, fieldlist: string, marks: string)
      returns (fieldlist': string, marks': string)
      requires i < |words|
      requires fieldlist == Listed(words, i, ", ") && marks == Listed(Marks(|words|), i, ",")
      ensures fieldlist' == Listed(words, i + 1, ", ") && marks' == Listed(Marks(|words|), i + 1, ",")
    {
      hide Listed;
      ListedStep(words, i, ", ");
      ListedStep(Marks(|words|), i, ",");
      fieldlist' := fieldlist + words[i];
      marks' := marks + "?";
      if i + 1 < |words| { fieldlist', marks' := fieldlist' + ", ", marks' + ","; }
    }

    /** One turn of the loop over the words; it stops on a SUBTABLE. */
    method CustomTurn(fields: seq<FieldDef>, c: CustomUpdate, i: nat, list: string, questions: string, bs: seq<Binder>)
      returns (ok: bool, fieldlist: string, marks: string, binders: seq<Binder>)
      requires i < |c.words| && forall w :: w in c.words ==> FindField(fields, w).Some?
      requires CustomPrinted(fields, c, i, list, questions, bs)
      requires Customname in patterns && patterns[Customname] == c.name
      modifies this
      ensures ok ==> CustomPrinted(fields, c, i + 1, fieldlist, marks, binders)
      ensures !ok ==> !AllColumns(Resolve(fields, c.words))
      ensures Customname in patterns && patterns[Customname] == c.name
      ensures TableKept()
    {
      hide Listed, Marks, Binders, BinderFor, CustomStmt, FindField, Printed, AllColumns;
      var f := FindField(fields, c.words[i]).value;
      fieldlist, marks := CustomWord(c.words, i, list, questions);
      if f.typ.TypeSubtable? {
        NotAllColumns(Resolve(fields, c.words), i);
        return false, fieldlist, marks, bs;
      }
      var b := CustomColumn(f, c, i + 1);
      PrintedStep(Resolve(fields, c.words), i, CustomStmt(c), bs, b);
      ok, binders := true, bs + [b];
    }

    /** The loop over the words: the column list, its marks, and binders 1 to m. */
    method CustomColumns(fields: seq<FieldDef>, c: CustomUpdate)
      returns (ok: bool, fieldlist: string, marks: string, binders: seq<Binder>)
      requires forall w :: w in c.words ==> FindField(fields, w).Some?
      requires Customname in patterns && patterns[Customname] == c.name
      modifies this
      ensures ok == AllColumns(Resolve(fields, c.words))
      ensures ok ==> fieldlist == Join(c.words, ", ") && marks == Join(Marks(|c.words|), ",")
      ensures ok ==> binders == Binders(Resolve(fields, c.words), CustomStmt(c))
      ensures Customname in patterns && patterns[Customname] == c.name
      ensures TableKept()
    {
      hide CustomPrinted, Marks, Resolve, Binders, CustomStmt, FindField, AllColumns, Join;
      fieldlist, marks, binders := "", "", [];
      CustomPrintedNone(fields, c);
      for i := 0 to |c.words|
        invariant CustomPrinted(fields, c, i, fieldlist, marks, binders)
        invariant Customname in patterns && patterns[Customname] == c.name
        invariant TableKept()
      {
        ok, fieldlist, marks, binders := CustomTurn(fields, c, i, fieldlist, marks, binders);
        if !ok { return; }
      }
      CustomPrintedAll(fields, c, fieldlist, marks, binders);
      ok := true;
    }

    /** The loop over the arguments of a CUSTOM-UPDBY: the counter goes on from m + 1, the names from v1. */
    method CustomArguments(c: CustomUpdate, counter: nat) returns (ok: bool, binders: seq<Binder>)
      requires Customname in patterns && patterns[Customname] == c.name && c.UpdBy?
      modifies this
      ensures ok == AllColumns(Arguments(c.args))
      ensures ok ==> |binders| == |c.args| && forall i :: 0 <= i < |c.args| ==>
        binders[i] == BinderFor(Arguments(c.args)[i], CustomStmt(c), counter + i)
      ensures Customname in patterns && patterns[Customname] == c.name
      ensures TableKept()
    {
      hide BinderFor, CustomStmt, Dec, Arguments;
      binders := [];
      ghost var arguments := Arguments(c.args);
      for i := 0 to |c.args|
        invariant forall j :: 0 <= j < i ==> !arguments[j].typ.TypeSubtable?
        invariant |binders| == i
        invariant forall j :: 0 <= j < i ==> binders[j] == BinderFor(arguments[j], CustomStmt(c), counter + j)
        invariant Customname in patterns && patterns[Customname] == c.name
        invariant TableKept()
      {
        if c.args[i].TypeSubtable? {
          assert arguments[i] in arguments;
          return false, binders;
        }
        var b := CustomArgument(c.args[i], c, counter + i, i + 1);
        binders := binders + [b];
      }
      ok := true;
    }

    /** The operands of the WHERE clause: the rowid, or the arguments. */
    method CustomWhere(c: CustomUpdate, counter: nat) returns (ok: bool, binders: seq<Binder>)
      requires Customname in patterns && patterns[Customname] == c.name
      modifies this
      ensures ok == AllColumns(CustomWheres(c))
      ensures ok ==> |binders| == |CustomWheres(c)| && forall i :: 0 <= i < |binders| ==>
        binders[i] == BinderFor(CustomWheres(c)[i], CustomStmt(c), counter + i)
      ensures TableKept()
    {
      hide BinderFor, AllColumns, Dec, Arguments;
      patterns := patterns[Fieldindex := Dec(counter)];
      if c.UpdBy? {
        patterns := patterns[Querystring := c.query];
        ok, binders := CustomArguments(c, counter);
      } else {
        ok, binders := true, [CustomRowidBinder(patterns)];
        assert binders[0].stmt == CustomStmt(c);
        RowidBinds(binders[0], CustomStmt(c), counter);
      }
    }

    method Custom(fields: seq<FieldDef>, c: CustomUpdate) returns (r: Option<CustomSource>)
      requires forall w :: w in c.words ==> FindField(fields, w).Some?
      modifies this
      ensures r == if Bindable(fields, c) then Some(CustomOf(fields, c)) else None
      ensures TableKept()
    {
      hide CustomOf, Bindable, CustomWheres, CustomStmt, Join, Marks, Binders, BinderFor, Resolve, AllColumns,
           FindField;
      BindableIs(fields, c);
      patterns := patterns[Customname := c.name];
      var ok, fieldlist, marks, binders := CustomColumns(fields, c);
      if !ok { return None; }
      patterns := patterns[CustomFieldlist := fieldlist];
      patterns := patterns[CustomQuestionmarks := marks];
      var more;
      ok, more := CustomWhere(c, |c.words| + 1);
      if !ok { return None; }
      CustomOfIs(fields, c, more);
      r := Some(CustomSource(CustomStmt(c), fieldlist, marks, binders + more, if c.Upd? then "rowid = ?" else c.query));
    }

    /** The custom updates of a table, one after the other. */
    method Customs(td: TableDef) returns (r: Option<seq<CustomSource>>)
      requires forall c, w :: c in td.customs && w in c.words ==> FindField(td.fields, w).Some?
      modifies this
      ensures r.Some? == forall c :: c in td.customs ==> Bindable(td.fields, c)
      ensures r.Some? ==> r.value == CustomsOf(td.fields, td.customs)
      ensures TableKept()
    {
      hide CustomOf, Bindable;
      var sources := [];
      for i := 0 to |td.customs|
        invariant forall j :: 0 <= j < i ==> Bindable(td.fields, td.customs[j])
        invariant |sources| == i && forall j :: 0 <= j < i ==> sources[j] == CustomOf(td.fields, td.customs[j])
        invariant TableKept()
      {
        var source := Custom(td.fields, td.customs[i]);
        if source.None? { return None; }
        sources := sources + [source.value];
      }
      r := Some(sources);
    }

    /** One table: every index in its source is in step, whatever earlier tables left in the pattern map. */
    method Table(td: TableDef) returns (r: Option<TableSource>)
      requires ValidTable(td)
      modifies this
      ensures r.Some? == forall c :: c in td.customs ==> Bindable(td.fields, c)
      ensures r.Some? ==> r.value == SourceOf(td)
    {
      hide Join, Marks, Binders, Readers, Declared, Stored, Bound, Autos, CustomsOf, Bindable, ValidFields, Dec;
      hide BinderFor;
      FieldNames(td.fields);
      var s := FieldSources(td.fields);
      var customs := Customs(td);
      if customs.None? { return None; }
      patterns := patterns[Questionmarks := s.marks];
      patterns := patterns[QuestionmarksForce := s.marksForce];
      RowidBinds(UpdateRowidBinder(patterns), "update", |Bound(td.fields)| + 1);
      BindersBoth(Bound(td.fields), [ROWID], "update", [UpdateRowidBinder(patterns)]);
      r := Some(TableSource(
        s.created, patterns[AllFieldnames], patterns[UpdateFieldnames], patterns[Questionmarks],
        patterns[QuestionmarksForce],
        s.insertBinders, s.updateBinders + [UpdateRowidBinder(patterns)], s.forceBinders, s.readers, s.fetched,
        customs.value));
    }
  }
}
