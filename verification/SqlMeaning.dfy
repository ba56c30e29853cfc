/** What the emitted SQL and its binders and readers do to a row, and that they agree with one another. */
module SqlMeaning {
  import opened Schemas
  import opened Options
  import opened EmitSources

  // ----- program values and database cells -----

  datatype Value = IntValue(n: int) | RealValue(x: real) | TextValue(s: string) | BoolValue(b: bool) | EnumValue(e: int)

  datatype Cell = Integer(i: int) | Float(f: real) | Chars(t: string) | Blob(t: string)

  /** The variables an emitted function sees: the fields of its object, rowid, and its own parameters. */
  type Scope = map<string, Value>

  /** The cells of a row by column, the names in lower case. */
  type Row = map<string, Cell>

  type Rows = map<int, Row>

  /** The valid numbers of each C++ enum. */
  type Enums = map<string, set<int>>

  function ToInt32(n: int): (r: int) {
    (n + 0x8000_0000) % 0x1_0000_0000 - 0x8000_0000
  }

  /** A value a C++ variable of this column type can hold. */
  predicate WellTyped(t: TypeDef, v: Value, enums: Enums) {
    match t
    case TypeInt => v.IntValue? && -0x8000_0000 <= v.n < 0x8000_0000
    case TypeInt64 => v.IntValue? && -0x8000_0000_0000_0000 <= v.n < 0x8000_0000_0000_0000
    case TypeText | TypeBlob => v.TextValue?
    case TypeDouble => v.RealValue?
    case TypeBool => v.BoolValue?
    case TypeEnum(_) =>
      v.EnumValue? && -0x8000_0000 <= v.e < 0x8000_0000 && CType(t) in enums && v.e in enums[CType(t)]
    case TypeSubtable => false
  }

  /** The cell a value should become. */
  function StoredAs(t: TypeDef, v: Value): (c: Cell) {
    match v
    case IntValue(n) => Integer(n)
    case RealValue(x) => Float(x)
    case TextValue(s) => if t.TypeBlob? then Blob(s) else Chars(s)
    case BoolValue(b) => Integer(if b then 1 else 0)
    case EnumValue(e) => Integer(e)
  }

  /** A C++ number as an integer: bools and enums convert, a double is cut off. */
  function IntOf(v: Value): (n: int)
    requires !v.TextValue?
  {
    match v
    case IntValue(n) => n
    case BoolValue(b) => if b then 1 else 0
    case EnumValue(e) => e
    case RealValue(x) => if x >= 0.0 then x.Floor else -(-x).Floor
  }

  function RealOf(v: Value): (x: real)
    requires !v.TextValue?
  {
    if v.RealValue? then v.x else IntOf(v) as real
  }

  /**
   What a binder template's call passes on: numbers convert to the function's parameter as in C++, a string
   suits the string template alone, and anything else does not compile.
   */
  function BindCell(form: Form, func: string, v: Value): (c: Option<Cell>) {
    match form
    case Pod =>
      if v.TextValue? then None
      else if func == "sqlite3_bind_" + "int" then Some(Integer(ToInt32(IntOf(v))))
      else if func == "sqlite3_bind_" + "int64" then Some(Integer(IntOf(v)))
      else if func == "sqlite3_bind_" + "double" then Some(Float(RealOf(v)))
      else None
    case Flag =>
      if v.TextValue? || func != "sqlite3_bind_" + "int" then None
      else Some(Integer(if RealOf(v) != 0.0 then 1 else 0))
    case Member =>
      if !v.TextValue? && func == "sqlite3_bind_" + "int" then Some(Integer(ToInt32(IntOf(v)))) else None
    case Bytes =>
      if v.TextValue? && func == "sqlite3_bind_" + "text" then Some(Chars(v.s))
      else if v.TextValue? && func == "sqlite3_bind_" + "blob" then Some(Blob(v.s))
      else None
  }

  /** What a reader template assigns: pods, flags and members insist on the cell's type. */
  function ReadCell(r: Reader, c: Cell, enums: Enums): (v: Option<Value>) {
    match r.form
    case Pod =>
      if c.Integer? && r.sqliteType == "INTEGER" && r.func == "sqlite3_column_" + "int" then
        Some(IntValue(ToInt32(c.i)))
      else if c.Integer? && r.sqliteType == "INTEGER" && r.func == "sqlite3_column_" + "int64" then
        Some(IntValue(c.i))
      else if c.Float? && r.sqliteType == "FLOAT" && r.func == "sqlite3_column_" + "double" then
        Some(RealValue(c.f))
      else None
    case Flag =>
      if c.Integer? && r.sqliteType == "INTEGER" && r.func == "sqlite3_column_" + "int" then
        Some(BoolValue(ToInt32(c.i) != 0))
      else None
    case Member =>
      if c.Integer? && r.sqliteType == "INTEGER" && r.func == "sqlite3_column_" + "int"
         && r.fieldType in enums && ToInt32(c.i) in enums[r.fieldType] then
        Some(EnumValue(ToInt32(c.i)))
      else None
    case Bytes =>
      if c.Chars? && r.func == "sqlite3_column_" + "text" then Some(TextValue(c.t))
      else if c.Blob? && r.func == "sqlite3_column_" + "blob" then Some(TextValue(c.t))
      else None
  }

  /** For every column type, binding and then reading gives the value back. */
  lemma CellRoundTrip(f: FieldDef, v: Value, enums: Enums, index: nat)
    requires WellTyped(f.typ, v, enums)
    ensures BindCell(FormOf(f.typ), SqliteBind(f.typ), v) == Some(StoredAs(f.typ, v))
    ensures ReadCell(ReaderFor(f, index), StoredAs(f.typ, v), enums) == Some(v)
  {
    hide CType, Dec;
    if f.typ.TypeBlob? {
      assert ("sqlite3_bind_" + "blob")[13] == 'b' && ("sqlite3_bind_" + "text")[13] == 't';
    }
  }

  // ----- the declared type of a column -----

  /** The affinity of a column, as section 3 of "Datatypes In SQLite" defines it. */
  datatype Affinity = ToText | ToNumeric | ToInteger | ToReal | ToBlob

  predicate Within(part: string, s: string) {
    exists i :: 0 <= i <= |s| && StartsAt(part, s, i)
  }

  predicate StartsAt(part: string, s: string, i: nat) {
    i + |part| <= |s| && s[i..i + |part|] == part
  }

  /** Section 3.1: the affinity that a declared type, in lower case, gives. */
  function AffinityOf(sqlType: string): (a: Affinity) {
    if Within("int", sqlType) then ToInteger
    else if Within("char", sqlType) || Within("clob", sqlType) || Within("text", sqlType) then ToText
    else if Within("blob", sqlType) || sqlType == "" then ToBlob
    else if Within("real", sqlType) || Within("floa", sqlType) || Within("doub", sqlType) then ToReal
    else ToNumeric
  }

  /** What is stored for a cell: `number` reads a text that looks like a number, `digits` prints a number. */
  function Kept(a: Affinity, c: Cell, number: string -> Option<Cell>, digits: Cell -> string): (r: Cell) {
    match c
    case Integer(i) => if a.ToText? then Chars(digits(c)) else if a.ToReal? then Float(i as real) else c
    case Float(f) =>
      if a.ToText? then Chars(digits(c))
      else if (a.ToInteger? || a.ToNumeric?) && f == f.Floor as real then Integer(f.Floor)
      else c
    case Chars(t) => if !a.ToText? && !a.ToBlob? && number(t).Some? then number(t).value else c
    case Blob(_) => c
  }

  /** The type that CREATE TABLE declares for a column leaves every value of the column as it was bound. */
  lemma DeclaredTypeKeeps(f: FieldDef, v: Value, enums: Enums, number: string -> Option<Cell>, digits: Cell -> string)
    requires WellTyped(f.typ, v, enums)
    ensures Kept(AffinityOf(DeclFor(f).sqlType), StoredAs(f.typ, v), number, digits) == StoredAs(f.typ, v)
  {
    hide CType, Within;
    TypesWithin();
  }

  lemma NotWithin(part: string, s: string)
    requires part != "" && forall i :: 0 <= i <= |s| - |part| ==> s[i] != part[0]
    ensures !Within(part, s)
  {
    forall i | 0 <= i <= |s| ensures !StartsAt(part, s, i) {
      if i + |part| <= |s| { assert s[i..i + |part|][0] == s[i]; }
    }
  }

  lemma TypesWithin()
    ensures Within("int", "integer") && Within("int", "int64")
    ensures Within("text", "text") && !Within("int", "text")
    ensures Within("doub", "double")
    ensures !Within("int", "double") && !Within("char", "double") && !Within("clob", "double")
    ensures !Within("text", "double") && !Within("blob", "double")
  {
    assert StartsAt("int", "integer", 0) && StartsAt("int", "int64", 0);
    assert StartsAt("text", "text", 0) && StartsAt("doub", "double", 0);
    NotWithin("int", "text");
    NotWithin("int", "double");
    NotWithin("char", "double");
    NotWithin("clob", "double");
    NotWithin("text", "double");
    NotWithin("blob", "double");
  }

  // ----- binding -----

  /** sqlite3_bind_* called for each binder in turn; an index outside the statement's marks is refused. */
  function BindAll(bs: seq<Binder>, stmt: string, marks: nat, scope: Scope): (r: Option<map<nat, Cell>>) {
    if bs == [] then Some(map[])
    else
      var b := bs[|bs| - 1];
      var before, k := BindAll(bs[..|bs| - 1], stmt, marks, scope), Num(b.index);
      if before.None? || b.stmt != stmt || k.None? || !(1 <= k.value <= marks) || b.operand !in scope then None
      else
        var cell := BindCell(b.form, b.func, scope[b.operand]);
        if cell.None? then None else Some(before.value[k.value := cell.value])
  }

  ghost predicate Typed(fields: seq<FieldDef>, scope: Scope, enums: Enums) {
    forall i :: 0 <= i < |fields| ==>
      fields[i].name in scope && WellTyped(fields[i].typ, scope[fields[i].name], enums)
  }

  function CellOf(f: FieldDef, scope: Scope): (c: Cell) {
    if f.name in scope then StoredAs(f.typ, scope[f.name]) else Integer(0)
  }

  /** The k-th mark holds the k-th operand. */
  function Numbered(fields: seq<FieldDef>, scope: Scope): (r: map<nat, Cell>) {
    if fields == [] then map[]
    else
      var n := |fields|;
      Numbered(fields[..n - 1], scope)[n := CellOf(fields[n - 1], scope)]
  }

  lemma {:induction false} NumberedAt(fields: seq<FieldDef>, scope: Scope, k: nat)
    ensures k in Numbered(fields, scope) <==> 1 <= k <= |fields|
    ensures 1 <= k <= |fields| ==> Numbered(fields, scope)[k] == CellOf(fields[k - 1], scope)
  {
    if fields != [] { NumberedAt(fields[..|fields| - 1], scope, k); }
  }

  /** One more binder for a mark of its own. */
  lemma BindOneMore(bs: seq<Binder>, b: Binder, stmt: string, marks: nat, scope: Scope, k: nat, cell: Cell)
    requires BindAll(bs, stmt, marks, scope).Some? && b.stmt == stmt && Num(b.index) == Some(k) && 1 <= k <= marks
    requires b.operand in scope && BindCell(b.form, b.func, scope[b.operand]) == Some(cell)
    ensures BindAll(bs + [b], stmt, marks, scope) == Some(BindAll(bs, stmt, marks, scope).value[k := cell])
  {
    hide BindCell, Num;
    assert (bs + [b])[..|bs|] == bs;
  }

  lemma TypedFront(fields: seq<FieldDef>, n: nat, scope: Scope, enums: Enums)
    requires Typed(fields, scope, enums) && n < |fields|
    ensures Typed(fields[..n], scope, enums)
    ensures fields[n].name in scope && WellTyped(fields[n].typ, scope[fields[n].name], enums)
  {
    hide WellTyped;
  }

  lemma {:induction false} BindersMean(fields: seq<FieldDef>, stmt: string, marks: nat, scope: Scope, enums: Enums)
    requires Typed(fields, scope, enums) && |fields| <= marks
    ensures BindAll(Binders(fields, stmt), stmt, marks, scope) == Some(Numbered(fields, scope))
  {
    if fields == [] {
      assert Binders(fields, stmt) == [];
    } else {
      hide *;
      var n := |fields| - 1;
      TypedFront(fields, n, scope, enums);
      BindersMean(fields[..n], stmt, marks, scope, enums);
      BindersMore(fields, stmt);
      BindField(fields[n], n + 1, scope, enums, stmt);
      BindOneMore(Binders(fields[..n], stmt), BinderFor(fields[n], stmt, n + 1), stmt, marks, scope, n + 1,
                  CellOf(fields[n], scope));
      NumberedMore(fields, scope);
    }
  }

  lemma BindField(f: FieldDef, k: nat, scope: Scope, enums: Enums, stmt: string)
    requires f.name in scope && WellTyped(f.typ, scope[f.name], enums)
    ensures var b := BinderFor(f, stmt, k);
      && b.stmt == stmt && Num(b.index) == Some(k) && b.operand == f.name
      && BindCell(b.form, b.func, scope[b.operand]) == Some(CellOf(f, scope))
  {
    hide BindCell, FormOf, SqliteBind, StoredAs, WellTyped, Num, Dec;
    NumOfDec(k);
    CellRoundTrip(f, scope[f.name], enums, k);
  }

  /** The binders of one more field. */
  lemma BindersMore(fields: seq<FieldDef>, stmt: string)
    requires fields != []
    ensures var n := |fields| - 1;
      Binders(fields, stmt) == Binders(fields[..n], stmt) + [BinderFor(fields[n], stmt, n + 1)]
  {
    hide BinderFor;
  }

  lemma NumberedMore(fields: seq<FieldDef>, scope: Scope)
    requires fields != []
    ensures var n := |fields| - 1;
      Numbered(fields, scope) == Numbered(fields[..n], scope)[n + 1 := CellOf(fields[n], scope)]
  {
    hide CellOf;
  }

  // ----- lists in a statement -----

  function Trim(s: string): (r: string) {
    if s != "" && s[0] == ' ' then Trim(s[1..]) else s
  }

  function Split(text: string): (r: seq<string>)
    ensures r != []
  {
    if text == "" then [""]
    else
      var n := |text| - 1;
      Grow(Split(text[..n]), text[n])
  }

  /** One more character: a comma opens a new part, anything else joins the last one. */
  function Grow(parts: seq<string>, c: char): (r: seq<string>)
    requires parts != []
    ensures r != []
  {
    var n := |parts| - 1;
    if c == ',' then parts + [""] else parts[..n] + [parts[n] + [c]]
  }

  lemma GrowAfter(word: string, parts: seq<string>, c: char)
    requires parts != []
    ensures Grow([word] + parts, c) == [word] + Grow(parts, c)
  {
    assert ([word] + parts)[..|parts|] == [word] + parts[..|parts| - 1];
  }

  /** The items of a comma-separated list, as the SQL parser sees them. */
  function Items(text: string): (r: seq<string>) {
    var parts := Split(text);
    seq(|parts|, i requires 0 <= i < |parts| => Trim(parts[i]))
  }

  lemma {:induction false} SplitMore(text: string, more: string)
    requires ',' !in more
    ensures Split(text + "," + more) == Split(text) + [more]
  {
    var all := text + "," + more;
    if more == "" {
      assert all[..|all| - 1] == text;
    } else {
      var m := |more| - 1;
      assert more[m] in more;
      SplitMore(text, more[..m]);
      assert all[..|all| - 1] == text + "," + more[..m];
      assert more[..m] + [more[m]] == more;
    }
  }

  lemma {:induction false} SplitOne(s: string)
    requires ',' !in s
    ensures Split(s) == [s]
  {
    if s != "" {
      assert s[|s| - 1] in s;
      SplitOne(s[..|s| - 1]);
      assert s[..|s| - 1] + [s[|s| - 1]] == s;
    }
  }

  lemma ItemsMore(text: string, more: string)
    requires ',' !in more
    ensures Items(text + "," + more) == Items(text) + [Trim(more)]
  {
    hide Split, Trim;
    SplitMore(text, more);
  }

  lemma {:induction false} SplitAfter(word: string, text: string)
    requires ',' !in word
    ensures Split(word + "," + text) == [word] + Split(text)
  {
    hide Grow;
    var all := word + "," + text;
    if text == "" {
      assert all == word + "," + "";
      SplitMore(word, "");
      SplitOne(word);
    } else {
      var n := |text| - 1;
      SplitAfter(word, text[..n]);
      GrowAfter(word, Split(text[..n]), text[n]);
      assert all[..|all| - 1] == word + "," + text[..n];
    }
  }

  lemma ItemsAfter(word: string, text: string)
    requires ',' !in word
    ensures Items(word + "," + text) == [Trim(word)] + Items(text)
  {
    hide Split, Trim;
    SplitAfter(word, text);
  }

  /** What a comma-separated list can hold. */
  predicate Listable(s: string) {
    s != "" && ',' !in s && ' ' !in s
  }

  lemma WordListable(s: string)
    requires Word(s)
    ensures Listable(s)
  {
  }

  lemma TrimWord(s: string)
    requires Listable(s)
    ensures Trim(s) == s && Trim(" " + s) == s && ',' !in " " + s
  {
    assert s[0] in s;
    assert (" " + s)[1..] == s;
  }

  /** The emitted lists are read back item by item. */
  lemma {:induction false} ItemsOfJoin(items: seq<string>, comma: string)
    requires items != [] && comma in {",", ", "}
    requires forall s :: s in items ==> Listable(s)
    ensures Items(Join(items, comma)) == items
  {
    var n := |items| - 1;
    var s, front := items[n], items[..n];
    assert s in items;
    TrimWord(s);
    if n == 0 {
      SplitOne(s);
    } else {
      hide Items, Trim, Listable;
      ItemsOfJoin(front, comma);
      if comma == "," {
        ItemsMore(Join(front, comma), s);
      } else {
        ItemsMore(Join(front, comma), " " + s);
        assert Join(front, comma) + comma + s == Join(front, comma) + "," + (" " + s);
      }
      assert items == front + [s];
    }
  }

  // ----- the table in the database -----

  /**
   What SQLite's grammar makes of single words, in lower case; it differs between versions. `reserved` words are no
   names at all. A `computed` word is a name, but in an expression it stands for something else, such as the current
   time, or for nothing that can be prepared. `convert` is how sqlite3_column_int64 reads a cell of another type.
   */
  datatype Grammar = Grammar(reserved: set<string>, computed: map<string, Option<Cell>>, convert: Cell -> int)

  type Sqlite = g: Grammar | "rowid" !in g.reserved && "rowid" !in g.computed
    witness Grammar({}, map[], (c: Cell) => 0)

  /** A created table: its columns as SQL compares them, and the AUTOINCR column, if any, which is the rowid. */
  datatype Table = Table(columns: seq<string>, alias: seq<string>)

  /** `tables` is the table of versions that init_all makes in every database, and `sqlite_` is kept by SQLite. */
  predicate TableNamed(sql: Sqlite, name: string) {
    Fold(name) !in sql.reserved && Fold(name) != "tables" && !("sqlite_" <= Fold(name))
  }

  function DeclKeys(decls: seq<ColumnDecl>): (r: seq<string>)
    ensures |r| == |decls| && forall i :: 0 <= i < |r| ==> r[i] == Fold(decls[i].name)
  {
    seq(|decls|, i requires 0 <= i < |decls| => Fold(decls[i].name))
  }

  function AutoKeys(decls: seq<ColumnDecl>): (r: seq<string>) {
    if decls == [] then []
    else
      var n := |decls| - 1;
      AutoKeys(decls[..n]) + if decls[n].autoIncrement then [Fold(decls[n].name)] else []
  }

  /** CREATE TABLE: AUTOINCREMENT is for one column, of the type `integer`. */
  predicate Accepted(sql: Sqlite, name: string, decls: seq<ColumnDecl>) {
    && decls != [] && TableNamed(sql, name)
    && (forall i :: 0 <= i < |decls| ==> Fold(decls[i].name) !in sql.reserved)
    && (forall i, j :: 0 <= i < j < |decls| ==> Fold(decls[i].name) != Fold(decls[j].name))
    && (forall i :: 0 <= i < |decls| && decls[i].autoIncrement ==> decls[i].sqlType == "integer")
    && |AutoKeys(decls)| <= 1
  }

  function CreateTable(sql: Sqlite, name: string, decls: seq<ColumnDecl>): (r: Option<Table>) {
    if Accepted(sql, name, decls) then Some(Table(DeclKeys(decls), AutoKeys(decls))) else None
  }

  // ----- preparing a statement -----

  function FoldAll(names: seq<string>): (r: seq<string>)
    ensures |r| == |names| && forall i :: 0 <= i < |r| ==> r[i] == Fold(names[i])
  {
    seq(|names|, i requires 0 <= i < |names| => Fold(names[i]))
  }

  /** A statement `(columns) ... (marks)` can be prepared when every name is a column and has its own mark. */
  function Prepared(t: Table, columns: string, marks: string): (r: Option<seq<string>>) {
    var names := Items(columns);
    if "" in names || Items(marks) != Marks(|names|) || exists i :: 0 <= i < |names| && Fold(names[i]) !in t.columns
    then None
    else Some(FoldAll(names))
  }

  lemma ListsParse(fields: seq<FieldDef>)
    requires fields != [] && forall f :: f in fields ==> Word(f.name)
    ensures Items(Join(ColumnNames(fields), ", ")) == ColumnNames(fields)
    ensures Items(Join(Marks(|fields|), ",")) == Marks(|fields|)
  {
    var names := ColumnNames(fields);
    forall s | s in names ensures Listable(s) { WordListable(s); }
    ItemsOfJoin(names, ", ");
    assert forall s :: s in Marks(|fields|) ==> s == "?";
    ItemsOfJoin(Marks(|fields|), ",");
  }

  ghost predicate Columns(t: Table, fields: seq<FieldDef>) {
    forall f :: f in fields ==> Fold(f.name) in t.columns
  }

  lemma NoEmptyName(fields: seq<FieldDef>)
    requires forall f :: f in fields ==> Word(f.name)
    ensures "" !in ColumnNames(fields)
  {
    forall s | s in ColumnNames(fields) ensures s != "" { WordListable(s); }
  }

  lemma PreparedExactly(t: Table, fields: seq<FieldDef>)
    requires forall f :: f in fields ==> Word(f.name)
    ensures Prepared(t, Join(ColumnNames(fields), ", "), Join(Marks(|fields|), ","))
         == if fields == [] || !Columns(t, fields) then None else Some(ColumnKeys(fields))
  {
    var names := ColumnNames(fields);
    if fields == [] {
      assert Items("") == [""];
    } else {
      hide Items, Join, Marks, Word, Fold;
      ListsParse(fields);
      NoEmptyName(fields);
      assert FoldAll(names) == ColumnKeys(fields);
      if Columns(t, fields) {
        forall i | 0 <= i < |names| ensures Fold(names[i]) in t.columns { assert fields[i] in fields; }
      } else {
        var f :| f in fields && Fold(f.name) !in t.columns;
        var i :| 0 <= i < |fields| && fields[i] == f;
        assert Fold(names[i]) !in t.columns;
      }
    }
  }

  // ----- rows -----

  /** Column i takes the parameter at mark i + 1. */
  function Assign(names: seq<string>, params: map<nat, Cell>): (r: Option<Row>) {
    if names == [] then Some(map[])
    else
      var n := |names|;
      var before := Assign(names[..n - 1], params);
      if before.None? || n !in params then None else Some(before.value[names[n - 1] := params[n]])
  }

  /** The cells the fields of an object should become. */
  function RowOf(fields: seq<FieldDef>, scope: Scope): (r: Row) {
    if fields == [] then map[]
    else
      var n := |fields| - 1;
      RowOf(fields[..n], scope)[Fold(fields[n].name) := CellOf(fields[n], scope)]
  }

  lemma {:induction false} RowOfAt(fields: seq<FieldDef>, scope: Scope, f: FieldDef)
    requires DistinctKeys(fields) && f in fields
    ensures Fold(f.name) in RowOf(fields, scope) && RowOf(fields, scope)[Fold(f.name)] == CellOf(f, scope)
  {
    hide Fold, CellOf;
    var n := |fields| - 1;
    assert fields == fields[..n] + [fields[n]];
    if f != fields[n] { RowOfAt(fields[..n], scope, f); }
  }

  lemma {:induction false} RowOfKeys(fields: seq<FieldDef>, scope: Scope, key: string)
    ensures key in RowOf(fields, scope) <==> key in ColumnKeys(fields)
  {
    hide Fold, CellOf;
    if fields != [] {
      var n := |fields| - 1;
      RowOfKeys(fields[..n], scope, key);
      assert ColumnKeys(fields) == ColumnKeys(fields[..n]) + [Fold(fields[n].name)];
    }
  }

  /** Parameters that hold the fields in order become the fields' row. */
  lemma {:induction false} AssignMeans(fields: seq<FieldDef>, scope: Scope, params: map<nat, Cell>)
    requires forall k :: 1 <= k <= |fields| ==> k in params && params[k] == CellOf(fields[k - 1], scope)
    ensures Assign(ColumnKeys(fields), params) == Some(RowOf(fields, scope))
  {
    hide CellOf, Fold;
    if fields != [] {
      var n := |fields| - 1;
      forall k | 1 <= k <= n ensures k in params && params[k] == CellOf(fields[..n][k - 1], scope) {
        assert fields[..n][k - 1] == fields[k - 1];
      }
      AssignMeans(fields[..n], scope, params);
      assert ColumnKeys(fields)[..n] == ColumnKeys(fields[..n]);
      assert n + 1 in params;
    }
  }

  // ----- statements -----

  datatype Inserted = Inserted(rowid: int, row: Row)

  /**
   INSERT: SQLite keeps the AUTOINCR column equal to the rowid. A statement that does not name it lets SQLite choose
   the rowid, here `next`.
   */
  function ExecInsert(t: Table, columns: string, marks: string, params: map<nat, Cell>, next: int)
    : (r: Option<Inserted>)
  {
    var names := Prepared(t, columns, marks);
    if names.None? then None
    else
      var row := Assign(names.value, params);
      if row.None? then None
      else if t.alias == [] then Some(Inserted(next, row.value))
      else if t.alias[0] !in row.value then Some(Inserted(next, row.value[t.alias[0] := Integer(next)]))
      else if row.value[t.alias[0]].Integer? then Some(Inserted(row.value[t.alias[0]].i, row.value))
      else None
  }

  /** The local variables of insert(), insert_force() and update(), which hide fields of the same name. */
  const FUNCTION_LOCALS: Scope := map["r" := IntValue(0)]

  /** insert() */
  function InsertObject(t: Table, src: TableSource, self: Scope, next: int): (r: Option<Inserted>) {
    var params := BindAll(src.insertBinders, "insert", |Items(src.marks)|, self + FUNCTION_LOCALS);
    if params.None? then None else ExecInsert(t, src.updateColumns, src.marks, params.value, next)
  }

  /** insert_force() */
  function ForceObject(t: Table, src: TableSource, self: Scope, next: int): (r: Option<Inserted>) {
    var params := BindAll(src.forceBinders, "insert_force", |Items(src.marksForce)|, self + FUNCTION_LOCALS);
    if params.None? then None else ExecInsert(t, src.columns, src.marksForce, params.value, next)
  }

  /** The object after a successful insert(): rowid and the AUTOINCR field hold the new rowid. */
  function AfterInsert(fetched: seq<string>, self: Scope, rowid: int): (r: Scope) {
    if fetched == [] then self["rowid" := IntValue(rowid)]
    else
      var n := |fetched| - 1;
      AfterInsert(fetched[..n], self, rowid)[fetched[n] := IntValue(rowid)]
  }

  /** A declared column of that name hides the rowid, unless it is the AUTOINCR column, which is the rowid. */
  function RowidCell(t: Table, id: int, row: Row): (c: Cell) {
    if "rowid" in t.columns && t.alias != ["rowid"] && "rowid" in row then row["rowid"] else Integer(id)
  }

  /** What one item of the SELECT list delivers. */
  function SelectedCell(sql: Sqlite, t: Table, name: string, found: Inserted): (c: Option<Cell>) {
    var key := Fold(name);
    if key in sql.computed then sql.computed[key]
    else if key == "rowid" then Some(RowidCell(t, found.rowid, found.row))
    else if key in t.columns && key in found.row then Some(found.row[key])
    else None
  }

  /** The cells of the selected columns, in order. */
  function Selected(sql: Sqlite, t: Table, names: seq<string>, found: Inserted): (r: Option<seq<Cell>>)
    ensures r.Some? ==> |r.value| == |names|
  {
    if names == [] then Some([])
    else
      var n := |names| - 1;
      var before, cell := Selected(sql, t, names[..n], found), SelectedCell(sql, t, names[n], found);
      if before.None? || cell.None? then None else Some(before.value + [cell.value])
  }

  /**
   Names a reader template finds before the fields of the object: the locals of get_columns, its parameter,
   and the locals of the template's own block.
   */
  predicate ReaderHides(form: Form, name: string) {
    || name == "got" || name == "pStmt"
    || (form.Bytes? && (name == "ptr" || name == "len"))
    || (form.Member? && name == "v")
  }

  /** An assignment to a hidden name leaves the object alone, if it compiles: a string or a pointer it is not. */
  predicate ReaderCompiles(form: Form, name: string) {
    ReaderHides(form, name) ==> !form.Bytes? && name != "pStmt"
  }

  function Assigned(r: Reader, v: Value, self: Scope): (s: Option<Scope>) {
    if !ReaderCompiles(r.form, r.field) then None
    else if ReaderHides(r.form, r.field) then Some(self)
    else Some(self[r.field := v])
  }

  /** The readers of get_columns, in turn. */
  function ReadAll(readers: seq<Reader>, cells: seq<Cell>, enums: Enums, self: Scope): (r: Option<Scope>) {
    if readers == [] then Some(self)
    else
      var n := |readers| - 1;
      var before, k := ReadAll(readers[..n], cells, enums, self), Num(readers[n].index);
      if before.None? || k.None? || k.value >= |cells| then None
      else
        var v := ReadCell(readers[n], cells[k.value], enums);
        if v.None? then None else Assigned(readers[n], v.value, before.value)
  }

  function RowidRead(sql: Sqlite, c: Cell): (n: int) {
    if c.Integer? then c.i else sql.convert(c)
  }

  /** SELECT rowid and all the columns of the row found, then get_columns into an object. */
  function LoadObject(sql: Sqlite, t: Table, src: TableSource, found: Inserted, enums: Enums, self: Scope)
    : (r: Option<Scope>)
  {
    var cells := Selected(sql, t, Items("rowid," + src.columns), found);
    if cells.None? || cells.value == [] then None
    else ReadAll(src.readers, cells.value, enums, self["rowid" := IntValue(RowidRead(sql, cells.value[0]))])
  }

  /** `cell = ?` for an integer parameter: TEXT columns compare as text, a blob is never a number. */
  predicate CellEquals(c: Cell, n: int) {
    match c
    case Integer(i) => i == n
    case Float(f) => f == n as real
    case Chars(text) => text == if n < 0 then "-" + Dec(-n) else Dec(n)
    case Blob(_) => false
  }

  /** The emitted `WHERE rowid = ?`. */
  ghost function WhereRowid(t: Table): (w: (seq<Cell>, int, Row) -> bool) {
    (ws: seq<Cell>, id: int, row: Row) => |ws| == 1 && ws[0].Integer? && CellEquals(RowidCell(t, id, row), ws[0].i)
  }

  /** UPDATE: the marks of the WHERE clause come after those of the columns. */
  ghost function ExecUpdate(t: Table, columns: string, marks: string, params: map<nat, Cell>,
                            where: (seq<Cell>, int, Row) -> bool, n: nat, rows: Rows): (r: Option<Rows>)
  {
    var names := Prepared(t, columns, marks);
    if names.None? then None
    else
      var m, row := |names.value|, Assign(names.value, params);
      if row.None? || exists k :: m < k <= m + n && k !in params then None
      else
        var ws := seq(n, i requires 0 <= i < n => params[m + 1 + i]);
        Rewrite(rows, ws, where, row.value, t.alias)
  }

  /**
   The rows picked get the new cells. When the rowid's alias is among them the one row picked moves to the new
   rowid, which no other row may have.
   */
  ghost function Rewrite(rows: Rows, ws: seq<Cell>, where: (seq<Cell>, int, Row) -> bool, row: Row, alias: seq<string>)
    : (r: Option<Rows>)
  {
    var picked := Picked(rows, ws, where);
    if alias == [] || alias[0] !in row then Some(Extend(rows, picked, row))
    else if picked == {} then Some(rows)
    else if !row[alias[0]].Integer? then None
    else Move(rows, picked, row, row[alias[0]].i)
  }

  ghost function Picked(rows: Rows, ws: seq<Cell>, where: (seq<Cell>, int, Row) -> bool): (r: set<int>) {
    set id | id in rows && where(ws, id, rows[id])
  }

  ghost function Extend(rows: Rows, picked: set<int>, row: Row): (r: Rows) {
    map id | id in rows :: if id in picked then rows[id] + row else rows[id]
  }

  ghost function Move(rows: Rows, picked: set<int>, row: Row, n: int): (r: Option<Rows>) {
    if exists id :: id in rows && picked == {id} && (n == id || n !in rows) then
      var id :| id in rows && picked == {id} && (n == id || n !in rows);
      Some((rows - {id})[n := rows[id] + row])
    else None
  }

  /** In every row the rowid's alias holds the rowid. */
  ghost predicate AliasHolds(rows: Rows, alias: seq<string>) {
    alias != [] ==> forall id :: id in rows ==> alias[0] in rows[id] && rows[id][alias[0]] == Integer(id)
  }

  /** No update breaks that, one that sets the alias itself included. */
  lemma RewriteKeepsAlias(rows: Rows, ws: seq<Cell>, where: (seq<Cell>, int, Row) -> bool, row: Row, alias: seq<string>)
    requires AliasHolds(rows, alias)
    ensures var r := Rewrite(rows, ws, where, row, alias);
      r.Some? ==> AliasHolds(r.value, alias)
  {
  }
}
