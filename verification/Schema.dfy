/** What the schema parser hands to the emitter: tables, their fields, and the custom updates on them. */
module Schemas {
  import opened Sequences
  import opened Options

  datatype TypeDef =
    | TypeInt | TypeInt64 | TypeText | TypeBlob | TypeDouble | TypeBool
    | TypeEnum(enumName: string) | TypeSubtable

  datatype FieldDef = FieldDef(name: string, typ: TypeDef, autoIncrement: bool)

  datatype CustomUpdate =
    | Upd(name: string, words: seq<string>)
    | UpdBy(name: string, words: seq<string>, args: seq<TypeDef>, query: string)

  datatype TableDef = TableDef(name: string, fields: seq<FieldDef>, customs: seq<CustomUpdate>)

  /** The fields that are columns: a SUBTABLE field lives in another table. */
  function Stored(fields: seq<FieldDef>): (r: seq<FieldDef>) {
    if fields == [] then []
    else
      var n := |fields| - 1;
      Stored(fields[..n]) + if fields[n].typ.TypeSubtable? then [] else [fields[n]]
  }

  /** The columns the program supplies a value for: SQLite chooses the AUTOINCR one. */
  function Bound(fields: seq<FieldDef>): (r: seq<FieldDef>) {
    if fields == [] then []
    else
      var n := |fields| - 1;
      Bound(fields[..n]) + if fields[n].typ.TypeSubtable? || fields[n].autoIncrement then [] else [fields[n]]
  }

  /** No SUBTABLE among them. */
  predicate AllColumns(fields: seq<FieldDef>) {
    forall i :: 0 <= i < |fields| ==> !fields[i].typ.TypeSubtable?
  }

  lemma {:induction false} StoredExactly(fields: seq<FieldDef>, f: FieldDef)
    ensures f in Stored(fields) <==> f in fields && !f.typ.TypeSubtable?
    ensures f in Bound(fields) <==> f in Stored(fields) && !f.autoIncrement
  {
    if fields != [] {
      var n := |fields| - 1;
      assert fields == fields[..n] + [fields[n]];
      StoredExactly(fields[..n], f);
    }
  }

  function ColumnNames(fields: seq<FieldDef>): (r: seq<string>)
    ensures |r| == |fields|
    ensures forall i :: 0 <= i < |fields| ==> r[i] == fields[i].name
  {
    seq(|fields|, i requires 0 <= i < |fields| => fields[i].name)
  }

  // ----- names as SQL compares them -----

  function Lower(c: char): (l: char) {
    if 'A' <= c <= 'Z' then (c as int + 32) as char else c
  }

  /** SQL takes two names that differ only in case for the same one; this is the one in lower case. */
  function Fold(s: string): (r: string)
    ensures |r| == |s|
  {
    seq(|s|, i requires 0 <= i < |s| => Lower(s[i]))
  }

  function ColumnKeys(fields: seq<FieldDef>): (r: seq<string>)
    ensures |r| == |fields|
    ensures forall i :: 0 <= i < |fields| ==> r[i] == Fold(fields[i].name)
  {
    seq(|fields|, i requires 0 <= i < |fields| => Fold(fields[i].name))
  }

  ghost predicate DistinctNames(fields: seq<FieldDef>) {
    forall f, g :: f in fields && g in fields && f.name == g.name ==> f == g
  }

  /** No two of the fields are the same column. */
  ghost predicate DistinctKeys(fields: seq<FieldDef>) {
    forall f, g :: f in fields && g in fields && Fold(f.name) == Fold(g.name) ==> f == g
  }

  function FindField(fields: seq<FieldDef>, name: string): (r: Option<FieldDef>)
    ensures r.Some? ==> r.value in fields && r.value.name == name
    ensures r.None? ==> name !in ColumnNames(fields)
  {
    if fields == [] then None
    else if fields[0].name == name then Some(fields[0])
    else
      assert fields == [fields[0]] + fields[1..];
      FindField(fields[1..], name)
  }

  /** The fields a CUSTOM-UPD names, when each of its words is a field of the table. */
  function Resolve(fields: seq<FieldDef>, words: seq<string>): (r: seq<FieldDef>)
    requires forall w :: w in words ==> FindField(fields, w).Some?
    ensures |r| == |words|
    ensures forall i :: 0 <= i < |words| ==> FindField(fields, words[i]) == Some(r[i])
  {
    seq(|words|, i requires 0 <= i < |words| => FindField(fields, words[i]).value)
  }

  predicate WordStart(c: char) {
    'a' <= c <= 'z' || 'A' <= c <= 'Z' || c == '_'
  }

  /** A name as the tokenizer reads it: two or more letters, digits, dots and underscores, no digit or dot first. */
  predicate Word(s: string) {
    |s| >= 2 && WordStart(s[0]) && forall i :: 0 <= i < |s| ==> WordStart(s[i]) || '0' <= s[i] <= '9' || s[i] == '.'
  }

  /** What the parser and the C++ compiler check of a table's fields. */
  ghost predicate ValidFields(fields: seq<FieldDef>) {
    && NoDup(ColumnNames(fields))
    && (forall f :: f in fields ==> Word(f.name) && f.name != "rowid")
    && (forall f :: f in fields && f.autoIncrement ==> f.typ.TypeInt? || f.typ.TypeInt64?)
    && (forall f, g :: f in fields && g in fields && f.autoIncrement && g.autoIncrement ==> f == g)
  }

  /** The parser checks that the words of every custom update are fields of the table. */
  ghost predicate ValidTable(td: TableDef) {
    && ValidFields(td.fields)
    && forall c, w :: c in td.customs && w in c.words ==> FindField(td.fields, w).Some?
  }

  // ----- decimal text, as an ostringstream prints a counter -----

  function Digit(d: nat): (c: char)
    requires d < 10
  {
    ('0' as int + d) as char
  }

  function Dec(n: nat): (s: string)
    ensures s != ""
  {
    if n < 10 then [Digit(n)] else Dec(n / 10) + [Digit(n % 10)]
  }

  function Num(s: string): (r: Option<nat>) {
    if s == "" then None
    else
      var c := s[|s| - 1];
      if !('0' <= c <= '9') then None
      else
        var d := c as int - '0' as int;
        if |s| == 1 then Some(d)
        else
          var high := Num(s[..|s| - 1]);
          if high.None? then None else Some(10 * high.value + d)
  }

  lemma {:induction false} NumOfDec(n: nat)
    ensures Num(Dec(n)) == Some(n)
  {
    if n >= 10 {
      NumOfDec(n / 10);
      assert Dec(n)[..|Dec(n)| - 1] == Dec(n / 10);
    }
  }

  // ----- comma-separated lists -----

  function Join(items: seq<string>, comma: string): (s: string) {
    if items == [] then ""
    else if |items| == 1 then items[0]
    else Join(items[..|items| - 1], comma) + comma + items[|items| - 1]
  }

  lemma JoinMore(items: seq<string>, item: string, comma: string)
    ensures Join(items + [item], comma)
         == (if items == [] then Join(items, comma) else Join(items, comma) + comma) + item
  {
    assert (items + [item])[..|items|] == items;
  }

  function Marks(n: nat): (r: seq<string>)
    ensures |r| == n && forall i :: 0 <= i < n ==> r[i] == "?"
  {
    seq(n, _ => "?")
  }
}
