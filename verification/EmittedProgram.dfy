/**
 What a whole printed file means: the functions it defines, found by reading their names from the text, and what
 calling one of them does.
 */
module EmittedPrograms {
  import opened Options
  import opened TemplateText
  import opened EmittedCode

  // ----- reading function definitions -----

  predicate NameChar(c: char) {
    'a' <= c <= 'z' || 'A' <= c <= 'Z' || '0' <= c <= '9' || c == '_'
  }

  predicate NameText(s: string) {
    forall i :: 0 <= i < |s| ==> NameChar(s[i])
  }

  /** How many characters of an identifier the text starts with. */
  function NameLength(s: string): (n: nat)
    ensures n <= |s|
  {
    if s != "" && NameChar(s[0]) then 1 + NameLength(s[1..]) else 0
  }

  /** The text after its first line. */
  function SkipLine(s: string): (r: string)
    ensures s != "" ==> |r| < |s|
  {
    if s == "" then "" else if s[0] == '\n' then s[1..] else SkipLine(s[1..])
  }

  /** The text after the brace that closes a function body; a brace inside a literal does not. */
  function SkipBody(s: string): (r: Option<string>)
    ensures r.Some? ==> |r.value| < |s|
    decreases |s|
  {
    if s == "" || s[0] == '{' then None
    else if s[0] == '}' then Some(s[1..])
    else if s[0] == '"' then
      match Literal(s[1..])
      case None => None
      case Some((_, rest)) => SkipBody(rest)
    else SkipBody(s[1..])
  }

  /** A function: its name, and the text from its opening brace on. */
  datatype Definition = Definition(name: string, body: string)

  const PARAMETERS := "std::ostream &out, const pattern_value_map &pattern_values)"

  /** The function definition that the text starts with, and the text after it. */
  function Define(s: string): (r: Option<(Definition, string)>)
    ensures r.Some? ==> |r.value.1| < |s|
  {
    if !("void " <= s) then None
    else
      var n := NameLength(s[5..]);
      if n == 0 || '0' <= s[5] <= '9' then None
      else ParametersAndBody(s[5..5 + n], s[5 + n..])
  }

  function ParametersAndBody(name: string, s: string): (r: Option<(Definition, string)>)
    ensures r.Some? ==> |r.value.1| < |s|
  {
    if !("(" <= s && PARAMETERS <= s[1..]) then None
    else
      var open := SkipSpace(s[1 + |PARAMETERS|..]);
      if !("{" <= open) then None
      else
        match SkipBody(open[1..])
        case None => None
        case Some(rest) => Some((Definition(name, open[1..]), rest))
  }

  /** The functions of a file, in order; `#` lines aside, nothing else may stand in it. */
  function Definitions(s: string): (r: Option<seq<Definition>>)
    decreases |s|
  {
    var s1 := SkipSpace(s);
    if s1 == "" then Some([])
    else if s1[0] == '#' then Definitions(SkipLine(s1))
    else
      match Define(s1)
      case None => None
      case Some((d, rest)) => PrependTo(d, Definitions(rest))
  }

  function PrependTo(d: Definition, r: Option<seq<Definition>>): (r': Option<seq<Definition>>) {
    if r.None? then None else Some([d] + r.value)
  }

  /** The functions of that name. */
  function Named(ds: seq<Definition>, name: string): (r: seq<Definition>) {
    if ds == [] then [] else (if ds[0].name == name then [ds[0]] else []) + Named(ds[1..], name)
  }

  /** Calling the one function of that name that the file defines. */
  function CallFunction(code: string, name: string, values: Values): (r: Outcome) {
    match Definitions(code)
    case None => Malformed
    case Some(ds) =>
      if |Named(ds, name)| != 1 then Malformed
      else match Execute(Named(ds, name)[0].body, values)
        case Ran(text, _) => Ran(text, "")
        case other => other
  }

  // ----- skipping what was printed -----

  lemma {:induction false} NameLengthOf(name: string, rest: string)
    requires NameText(name) && rest != "" && !NameChar(rest[0])
    ensures NameLength(name + rest) == |name|
  {
    if name == "" {
      assert name + rest == rest;
    } else {
      assert (name + rest)[1..] == name[1..] + rest;
      NameLengthOf(name[1..], rest);
    }
  }

  /** Text with nothing in it that matters to finding the end of a body. */
  predicate Inert(s: string) {
    forall i :: 0 <= i < |s| ==> s[i] != '"' && s[i] != '{' && s[i] != '}'
  }

  lemma {:induction false} SkipInert(s: string, rest: string)
    requires Inert(s)
    ensures SkipBody(s + rest) == SkipBody(rest)
  {
    if s == "" {
      assert s + rest == rest;
    } else {
      assert (s + rest)[1..] == s[1..] + rest;
      SkipInert(s[1..], rest);
    }
  }

  /** The text of a literal that is open. */
  function SkipLiteral(s: string): (r: Option<string>) {
    if Literal(s).None? then None else SkipBody(Literal(s).value.1)
  }

  lemma SkipQuote(s: string)
    ensures SkipBody("\"" + s) == SkipLiteral(s)
  {
    assert ("\"" + s)[1..] == s;
  }

  lemma SkipPrepended(c: char, s: string, t: string)
    requires Literal(s) == Prepend(c, Literal(t))
    ensures SkipLiteral(s) == SkipLiteral(t)
  {
    hide SkipBody, Literal;
  }

  lemma SkipNewline(s: string)
    ensures SkipLiteral(EscapeChar('\n') + s) == SkipLiteral(s)
  {
    hide SkipBody;
    var e := EscapeChar('\n') + s;
    var between := "\n" + INDENT + "<< ";
    var rest := between + ("\"" + s);
    assert e == "\\n" + ("\"" + rest) && e[2..] == "\"" + rest && ("\"" + rest)[1..] == rest;
    assert Literal("\"" + rest) == Some(("", rest));
    assert Literal(e) == Prepend('\n', Literal("\"" + rest));
    SkipInert(between, "\"" + s);
    SkipQuote(s);
  }

  lemma SkipEscapeChar(c: char, s: string)
    ensures SkipLiteral(EscapeChar(c) + s) == SkipLiteral(s)
  {
    hide SkipLiteral;
    var e := EscapeChar(c) + s;
    if c == '\n' {
      SkipNewline(s);
    } else {
      assert if c == '"' || c == '\\' then e[2..] == s else e[1..] == s;
      SkipPrepended(c, e, s);
    }
  }

  lemma {:induction false} SkipEscaped(text: string, rest: string)
    ensures SkipLiteral(Escaped(text) + "\"" + rest) == SkipBody(rest)
  {
    if text == "" {
      assert Escaped(text) + "\"" + rest == "\"" + rest && ("\"" + rest)[1..] == rest;
    } else {
      hide SkipLiteral, EscapeChar, SkipBody;
      assert Escaped(text) + "\"" + rest == EscapeChar(text[0]) + (Escaped(text[1..]) + "\"" + rest);
      SkipEscapeChar(text[0], Escaped(text[1..]) + "\"" + rest);
      SkipEscaped(text[1..], rest);
    }
  }

  lemma SkipTextStatement(text: string, rest: string)
    ensures SkipBody(TextStatement(text) + rest) == SkipBody(rest)
  {
    hide SkipBody, SkipLiteral, Escaped;
    var out, end := "    out << ", ";\n";
    assert OUT_LITERAL == out + "\"" && END_LITERAL == "\"" + end;
    RegroupStatement(out, "\"", Escaped(text), "\"", end, rest);
    SkipInert(out, "\"" + (Escaped(text) + "\"" + (end + rest)));
    SkipQuote(Escaped(text) + "\"" + (end + rest));
    SkipEscaped(text, end + rest);
    SkipInert(end, rest);
  }

  lemma RegroupStatement(o: string, p: string, t: string, q: string, e: string, r: string)
    ensures (o + p) + t + (q + e) + r == o + (p + (t + q + (e + r)))
  {
  }

  lemma SkipPlain(s: string, rest: string)
    requires Plain(s)
    ensures SkipBody("\"" + (s + "\"" + rest)) == SkipBody(rest)
  {
    SkipQuote(s + "\"" + rest);
    LiteralOfPlain(s, rest);
  }

  lemma SkipPatternStatement(name: string, template: string, rest: string)
    requires Plain(name) && Plain(template)
    ensures SkipBody(PatternStatement(name, template) + rest) == SkipBody(rest)
  {
    hide SkipBody, PatternStatement, Call;
    PatternStatementIs(name, template, rest);
    SkipInert("    out", " << " + Call(name, template, rest));
    SkipInert(" << ", Call(name, template, rest));
    SkipCall(name, template, rest);
  }

  lemma SkipCall(name: string, template: string, rest: string)
    requires Plain(name) && Plain(template)
    ensures SkipBody(Call(name, template, rest)) == SkipBody(rest)
  {
    hide SkipBody;
    var find, end := "find_pattern(pattern_values, ", ");\n" + rest;
    var second := template + "\"" + end;
    var first := name + "\"" + (ARGUMENT + second);
    assert CALL == find + "\"" && ARGUMENT == ", " + "\"";
    Reassociated(find, "\"", first);
    SkipInert(find, "\"" + first);
    SkipPlain(name, ARGUMENT + second);
    Reassociated(", ", "\"", second);
    SkipInert(", ", "\"" + second);
    SkipPlain(template, end);
    SkipInert(");\n", rest);
  }

  lemma Reassociated(a: string, b: string, c: string)
    ensures (a + b) + c == a + (b + c)
  {
  }

  /** The brace that closes a printed body is the one printed last. */
  lemma {:induction false} SkipStatements(b: string, template: string, more: string)
    requires Paired(b) && Plain(template) && forall name :: name in Names(b) ==> Plain(name)
    ensures SkipBody(Statements(b, template) + more) == Some("\n" + more)
    decreases |b|
  {
    hide SkipBody, TextStatement, PatternStatement, Parse;
    var p := Parse(b);
    if p.Text? {
      assert Statements(b, template) + more == TextStatement(p.text) + ("}\n" + more);
      SkipTextStatement(p.text, "}\n" + more);
      SkipClose(more);
    } else {
      var rest := Statements(p.rest, template) + more;
      assert p.name in Names(b);
      forall name | name in Names(p.rest) ensures Plain(name) { assert name in Names(b); }
      assert Statements(b, template) + more == TextStatement(p.text) + (PatternStatement(p.name, template) + rest);
      SkipTextStatement(p.text, PatternStatement(p.name, template) + rest);
      SkipPatternStatement(p.name, template, rest);
      SkipStatements(p.rest, template, more);
    }
  }

  lemma SkipClose(more: string)
    ensures SkipBody("}\n" + more) == Some("\n" + more)
  {
    assert ("}\n" + more)[1..] == "\n" + more;
  }

  // ----- reading back what was printed -----

  lemma NameIsPlain(template: string)
    requires NameText(template)
    ensures Plain(template) && NameText("output_" + template)
  {
    var name := "output_" + template;
    forall i | 0 <= i < |name| ensures NameChar(name[i]) {
      if i >= 7 { assert name[i] == template[i - 7]; }
    }
  }

  lemma DefineNamed(name: string, rest: string)
    requires NameText(name) && name != "" && !('0' <= name[0] <= '9') && rest != "" && !NameChar(rest[0])
    ensures Define("void " + (name + rest)) == ParametersAndBody(name, rest)
  {
    hide NameLength, ParametersAndBody;
    var s := "void " + (name + rest);
    assert s[5..] == name + rest && s[5] == name[0];
    NameLengthOf(name, rest);
    assert s[5..5 + |name|] == name && s[5 + |name|..] == rest;
  }

  lemma BodyOpened(name: string, body: string)
    ensures ParametersAndBody(name, "(" + (PARAMETERS + ("\n{" + body)))
         == if SkipBody(body).None? then None else Some((Definition(name, body), SkipBody(body).value))
  {
    hide SkipBody;
    var s := "(" + (PARAMETERS + ("\n{" + body));
    assert s[1..] == PARAMETERS + ("\n{" + body) && s[1 + |PARAMETERS|..] == "\n{" + body;
    assert ("\n{" + body)[1..] == "{" + body && ("{" + body)[1..] == body;
    assert SkipSpace("\n{" + body) == "{" + body;
  }

  lemma HeaderText(template: string)
    ensures Header(template)
         == "\n" + ("void " + (("output_" + template) + ("(" + (PARAMETERS + ("\n{" + "\n")))))
  {
    assert "\nvoid output_" == "\n" + "void " + "output_" && "\n{\n" == "\n{" + "\n";
    RegroupHeader("\n", "void ", "output_", template, "(", PARAMETERS, "\n{\n");
  }

  lemma RegroupHeader(l: string, v: string, o: string, n: string, a: string, p: string, e: string)
    ensures (l + v + o) + n + a + p + e == l + (v + ((o + n) + (a + (p + e))))
  {
  }

  lemma CompiledText(template: string, b: string, more: string)
    requires Paired(b)
    ensures Compiled(template, b) + more
         == "\n" + ("void " + (("output_" + template)
                  + ("(" + (PARAMETERS + ("\n{" + ("\n" + (Statements(b, template) + more)))))))
  {
    hide Statements, Header;
    HeaderText(template);
    RegroupFunction("\n", "void ", "output_" + template, "(", PARAMETERS, "\n{", "\n", Statements(b, template), more);
  }

  lemma RegroupFunction(l: string, v: string, n: string, a: string, p: string, o: string, e: string,
                        b: string, r: string)
    ensures (l + (v + (n + (a + (p + (o + e)))))) + b + r == l + (v + (n + (a + (p + (o + (e + (b + r)))))))
  {
  }

  /** The function printed for a template, read back: its name, and the statements as its body. */
  lemma DefinitionsCompiled(template: string, b: string, more: string)
    requires Paired(b) && NameText(template) && forall name :: name in Names(b) ==> Plain(name)
    ensures Definitions(Compiled(template, b) + more)
         == PrependTo(Definition("output_" + template, "\n" + (Statements(b, template) + more)), Definitions(more))
  {
    hide SkipBody, Statements, NameText, NameChar, Define, ParametersAndBody, Compiled;
    var name, body := "output_" + template, "\n" + (Statements(b, template) + more);
    var rest := "(" + (PARAMETERS + ("\n{" + body));
    var definition := "void " + (name + rest);
    NameIsPlain(template);
    CompiledText(template, b, more);
    assert rest[0] == '(' && !NameChar('(') by { NotInName(); }
    DefineNamed(name, rest);
    BodyOpened(name, body);
    SkipInert("\n", Statements(b, template) + more);
    SkipStatements(b, template, more);
    DefinitionsFrom(definition, Definition(name, body), "\n" + more);
    DefinitionsLine(definition);
    DefinitionsLine(more);
  }

  lemma NotInName()
    ensures !NameChar('(')
  {
  }

  lemma DefinitionsFrom(s: string, d: Definition, rest: string)
    requires "void " <= s && Define(s) == Some((d, rest))
    ensures Definitions(s) == PrependTo(d, Definitions(rest))
  {
    hide Define;
    assert s[0] == 'v' && SkipSpace(s) == s;
  }

  lemma DefinitionsLine(s: string)
    ensures Definitions("\n" + s) == Definitions(s)
  {
    hide Define;
    SkipBlank(s);
  }

  // ----- the lines before the functions -----

  /** What main prints first; `header` is the name of the header file. */
  function Prelude(header: string): (r: string) {
    "\n" + "#include <iostream>\n" + "#include \"" + header + "\"\n" + "\n"
  }

  predicate OneLine(s: string) {
    forall i :: 0 <= i < |s| ==> s[i] != '\n'
  }

  lemma {:induction false} SkipLineOf(line: string, rest: string)
    requires OneLine(line)
    ensures SkipLine(line + "\n" + rest) == rest
  {
    if line == "" {
      assert line + "\n" + rest == "\n" + rest && ("\n" + rest)[1..] == rest;
    } else {
      assert (line + "\n" + rest)[1..] == line[1..] + "\n" + rest;
      SkipLineOf(line[1..], rest);
    }
  }

  lemma DefinitionsHash(line: string, rest: string)
    requires OneLine(line) && line != "" && line[0] == '#'
    ensures Definitions(line + "\n" + rest) == Definitions(rest)
  {
    hide Define, SkipLine;
    var s := line + "\n" + rest;
    assert s[0] == '#' && SkipSpace(s) == s;
    SkipLineOf(line, rest);
  }

  lemma DefinitionsAfterPrelude(header: string, s: string)
    requires OneLine(header)
    ensures Definitions(Prelude(header) + s) == Definitions(s)
  {
    hide Definitions;
    var first, second := "#include <iostream>", "#include \"" + header + "\"";
    var rest := second + "\n" + ("\n" + s);
    assert Prelude(header) + s == "\n" + (first + "\n" + rest);
    DefinitionsLine(first + "\n" + rest);
    DefinitionsHash(first, rest);
    DefinitionsHash(second, "\n" + s);
    DefinitionsLine(s);
  }

  // ----- calling -----

  lemma {:induction false} NamedNone(ds: seq<Definition>, name: string)
    requires forall i :: 0 <= i < |ds| ==> ds[i].name != name
    ensures Named(ds, name) == []
  {
    if ds != [] { NamedNone(ds[1..], name); }
  }

  lemma {:induction false} NamedOnce(ds: seq<Definition>, i: nat)
    requires i < |ds| && forall j, k :: 0 <= j < k < |ds| ==> ds[j].name != ds[k].name
    ensures Named(ds, ds[i].name) == [ds[i]]
  {
    if i == 0 {
      NamedNone(ds[1..], ds[0].name);
    } else {
      NamedOnce(ds[1..], i - 1);
    }
  }

  /** The function printed for one template, called by its name in a file of its own. */
  lemma OneFunctionRuns(template: string, b: string, values: Values)
    requires Paired(b) && NameText(template) && forall name :: name in Names(b) ==> Plain(name)
    ensures CallFunction(Compiled(template, b), "output_" + template, values)
         == match FirstMissing(b, values)
            case None => Ran(PrintedUpTo(b, values), "")
            case Some(name) => Exits(PrintedUpTo(b, values), name, template)
  {
    hide Execute, Definitions, Compiled, Statements, NameText;
    var d := Definition("output_" + template, "\n" + (Statements(b, template) + ""));
    NameIsPlain(template);
    DefinitionsCompiled(template, b, "");
    NothingDefined();
    assert Compiled(template, b) + "" == Compiled(template, b);
    NamedOnce([d], 0);
    ExecuteLine(Statements(b, template) + "", values);
    StatementsMean(b, template, "", values);
  }

  lemma NothingDefined()
    ensures Definitions("") == Some([])
  {
  }
}
