/**
 The C++ text that template_to_c prints, and a small meaning for such text: a function body is a
 chain of `out << ... ;` statements over string literals and find_pattern calls.
 */
module EmittedCode {
  import opened Options
  import opened TemplateText

  // ----- what is printed -----

  const INDENT := "        "

  function EscapeChar(c: char): (r: string) {
    if c == '"' then "\\\""
    else if c == '\n' then "\\n\"\n" + INDENT + "<< \""
    else if c == '\\' then "\\\\"
    else [c]
  }

  function Escaped(s: string): (r: string) {
    if s == "" then "" else EscapeChar(s[0]) + Escaped(s[1..])
  }

  const OUT_LITERAL := "    out << \""
  const END_LITERAL := "\";\n"
  const CALL := "find_pattern(pattern_values, \""
  const ARGUMENT := ", \""
  const OUT_PATTERN := "    out" + (" << " + CALL)

  function TextStatement(text: string): (r: string) {
    OUT_LITERAL + Escaped(text) + END_LITERAL
  }

  function PatternStatement(name: string, template: string): (r: string) {
    OUT_PATTERN + name + "\", \"" + template + "\");\n"
  }

  /** The statements for a body, up to and including the closing brace. */
  function Statements(b: string, template: string): (r: string)
    requires Paired(b)
    decreases |b|
  {
    match Parse(b)
    case Text(text) => TextStatement(text) + "}\n"
    case Pattern(text, name, rest) =>
      TextStatement(text) + PatternStatement(name, template) + Statements(rest, template)
  }

  function Header(template: string): (r: string) {
    "\nvoid output_" + template + "(" + "std::ostream &out, const pattern_value_map &pattern_values)" + "\n{\n"
  }

  function Compiled(template: string, b: string): (r: string)
    requires Paired(b)
  {
    Header(template) + Statements(b, template)
  }

  // ----- what it means -----

  function SkipSpace(s: string): (r: string)
    ensures |r| <= |s|
  {
    if s != "" && (s[0] == ' ' || s[0] == '\n') then SkipSpace(s[1..]) else s
  }

  /** A string literal, from after its opening quote: its value and the text after its closing quote. */
  function Literal(s: string): (r: Option<(string, string)>)
    ensures r.Some? ==> |r.value.0| + |r.value.1| < |s|
  {
    if s == "" || s[0] == '\n' then None
    else if s[0] == '"' then Some(("", s[1..]))
    else if s[0] == '\\' then
      if |s| < 2 then None
      else if s[1] == 'n' then Prepend('\n', Literal(s[2..]))
      else if s[1] == '"' || s[1] == '\\' then Prepend(s[1], Literal(s[2..]))
      else None
    else Prepend(s[0], Literal(s[1..]))
  }

  function Prepend(c: char, r: Option<(string, string)>): (r': Option<(string, string)>) {
    if r.None? then None else Some(([c] + r.value.0, r.value.1))
  }

  /** `Exits` is find_pattern's exit, which reports a name without a value; `text` was printed before it. */
  datatype Outcome =
    | Ran(text: string, rest: string)
    | Exits(text: string, name: string, template: string)
    | Malformed

  function After(text: string, r: Outcome): (r': Outcome) {
    match r
    case Ran(more, rest) => Ran(text + more, rest)
    case Exits(more, name, template) => Exits(text + more, name, template)
    case Malformed => Malformed
  }

  /** The rest of a statement after `out`: `<< operand` any number of times, then `;`. */
  function Chain(s: string, values: Values): (r: Outcome)
    ensures r.Ran? ==> |r.rest| < |s|
    decreases |s|
  {
    var s1 := SkipSpace(s);
    if ";" <= s1 then Ran("", s1[1..])
    else if "<<" <= s1 then Operand(SkipSpace(s1[2..]), values)
    else Malformed
  }

  function Operand(s: string, values: Values): (r: Outcome)
    ensures r.Ran? ==> |r.rest| < |s|
    decreases |s|
  {
    if "\"" <= s then
      match Literal(s[1..])
      case None => Malformed
      case Some((value, rest)) => After(value, Chain(rest, values))
    else if "find_pattern(pattern_values, \"" <= s then
      match Literal(s[30..])
      case None => Malformed
      case Some((name, rest)) =>
        if !(", \"" <= rest) then Malformed
        else match Literal(rest[3..])
          case None => Malformed
          case Some((template, last)) =>
            if !(")" <= last) then Malformed
            else if name !in values then Exits("", name, template)
            else After(values[name], Chain(last[1..], values))
    else Malformed
  }

  /** The statements of a function body up to its closing brace. */
  function Execute(s: string, values: Values): (r: Outcome)
    decreases |s|
  {
    var s1 := SkipSpace(s);
    if "}" <= s1 then Ran("", s1[1..])
    else if "out" <= s1 then
      var r := Chain(s1[3..], values);
      if r.Ran? then After(r.text, Execute(r.rest, values)) else r
    else Malformed
  }

  // ----- printing and meaning agree -----

  /** Text that needs no escaping inside a literal. */
  predicate Plain(s: string) {
    forall i :: 0 <= i < |s| ==> s[i] != '"' && s[i] != '\\' && s[i] != '\n'
  }

  lemma {:induction false} LiteralOfPlain(s: string, rest: string)
    requires Plain(s)
    ensures Literal(s + "\"" + rest) == Some((s, rest))
  {
    if s == "" {
      assert s + "\"" + rest == "\"" + rest;
    } else {
      LiteralOfPlain(s[1..], rest);
      assert (s + "\"" + rest)[1..] == s[1..] + "\"" + rest;
      assert [s[0]] + s[1..] == s;
    }
  }

  /** A literal's value is as long as its source text only when nothing in it was escaped. */
  lemma {:induction false} LiteralVerbatim(s: string)
    requires Literal(s).Some?
    ensures |Literal(s).value.0| + 1 + |Literal(s).value.1| <= |s|
    ensures |Literal(s).value.0| + 1 + |Literal(s).value.1| == |s| ==>
      s == Literal(s).value.0 + "\"" + Literal(s).value.1 && Plain(Literal(s).value.0)
    decreases |s|
  {
    if s[0] == '"' {
      assert s == "" + "\"" + s[1..];
    } else if s[0] == '\\' {
      LiteralVerbatim(s[2..]);
    } else {
      LiteralVerbatim(s[1..]);
      var value, rest := Literal(s[1..]).value.0, Literal(s[1..]).value.1;
      assert ([s[0]] + value) + "\"" + rest == [s[0]] + (value + "\"" + rest);
    }
  }

  /** A name printed between quotes, as add_template prints it, reads back exactly when it is plain. */
  lemma PrintedNameExactly(name: string, rest: string)
    ensures Literal(name + "\"" + rest) == Some((name, rest)) <==> Plain(name)
  {
    if Plain(name) {
      LiteralOfPlain(name, rest);
    } else if Literal(name + "\"" + rest) == Some((name, rest)) {
      LiteralVerbatim(name + "\"" + rest);
    }
  }

  lemma AfterAfter(a: string, b: string, r: Outcome)
    ensures After(a, After(b, r)) == After(a + b, r)
  {
    if !r.Malformed? { assert a + (b + r.text) == (a + b) + r.text; }
  }

  /** A literal whose text goes on with a character. */
  function InLiteral(s: string, values: Values): (r: Outcome) {
    Operand("\"" + s, values)
  }

  function Continue(r: Option<(string, string)>, values: Values): (o: Outcome) {
    if r.None? then Malformed else After(r.value.0, Chain(r.value.1, values))
  }

  lemma InLiteralIs(s: string, values: Values)
    ensures InLiteral(s, values) == Continue(Literal(s), values)
  {
    assert ("\"" + s)[1..] == s;
  }

  lemma InLiteralPrepend(c: char, s: string, t: string, values: Values)
    requires Literal(s) == Prepend(c, Literal(t))
    ensures InLiteral(s, values) == After([c], InLiteral(t, values))
  {
    InLiteralIs(s, values);
    InLiteralIs(t, values);
    if Literal(t).Some? {
      AfterAfter([c], Literal(t).value.0, Chain(Literal(t).value.1, values));
    }
  }

  lemma SkipBlank(s: string)
    ensures SkipSpace(" " + s) == SkipSpace(s) && SkipSpace("\n" + s) == SkipSpace(s)
  {
    assert (" " + s)[1..] == s && ("\n" + s)[1..] == s;
  }

  lemma SkipFour(s: string)
    ensures SkipSpace("    " + s) == SkipSpace(s)
  {
    hide SkipSpace;
    var t1 := " " + s;
    var t2 := " " + t1;
    var t3 := " " + t2;
    SkipBlank(s);
    SkipBlank(t1);
    SkipBlank(t2);
    SkipBlank(t3);
    assert " " + t3 == "    " + s;
  }

  lemma SkipIndent(s: string)
    requires s != "" && s[0] != ' ' && s[0] != '\n'
    ensures SkipSpace("\n" + INDENT + s) == s
    ensures SkipSpace("    " + s) == s && SkipSpace(" " + s) == s
  {
    assert SkipSpace(s) == s;
    hide SkipSpace;
    SkipBlank(s);
    SkipFour(s);
    SkipFour("    " + s);
    SkipBlank("    " + ("    " + s));
    assert "\n" + INDENT + s == "\n" + ("    " + ("    " + s));
  }

  /** An escaped newline closes the literal, and the chain goes on with a new one. */
  lemma EscapedNewlineMeans(s: string, values: Values)
    ensures InLiteral(EscapeChar('\n') + s, values) == After(['\n'], InLiteral(s, values))
  {
    var e := EscapeChar('\n') + s;
    var next := "<< \"" + s;
    var line := "\n" + INDENT + next;
    assert e == "\\n" + ("\"" + line) && e[2..] == "\"" + line && ("\"" + line)[1..] == line;
    assert ['\n'] + "" == ['\n'];
    assert Literal("\"" + line) == Some(("", line));
    assert Literal(e) == Prepend('\n', Literal("\"" + line));
    InLiteralIs(e, values);
    ChainToLiteral(s, values);
  }

  lemma ChainGoesOn(s: string, t: string, values: Values)
    requires SkipSpace(s) == "<<" + t
    ensures Chain(s, values) == Operand(SkipSpace(t), values)
  {
    hide SkipSpace, Operand;
    var next := "<<" + t;
    assert next[0] == '<' && "<<" <= next && next[2..] == t;
  }

  lemma ChainToLiteral(s: string, values: Values)
    ensures Chain("\n" + INDENT + ("<< \"" + s), values) == InLiteral(s, values)
    ensures Chain(" << \"" + s, values) == InLiteral(s, values)
  {
    hide SkipSpace, Chain, Operand;
    var next := "<< \"" + s;
    assert next == "<<" + (" " + ("\"" + s)) && " " + next == " << \"" + s;
    SkipIndent(next);
    SkipIndent("\"" + s);
    ChainGoesOn("\n" + INDENT + next, " " + ("\"" + s), values);
    ChainGoesOn(" " + next, " " + ("\"" + s), values);
  }

  /** One escaped character inside a literal prints that character. */
  lemma EscapeCharMeans(c: char, s: string, values: Values)
    ensures InLiteral(EscapeChar(c) + s, values) == After([c], InLiteral(s, values))
  {
    var e := EscapeChar(c) + s;
    if c == '"' || c == '\\' {
      assert e[2..] == s;
      InLiteralPrepend(c, e, s, values);
    } else if c == '\n' {
      EscapedNewlineMeans(s, values);
    } else {
      assert e[1..] == s;
      InLiteralPrepend(c, e, s, values);
    }
  }

  /** An escaped text between quotes prints that text: newlines split the literal and lose nothing. */
  lemma {:induction false} EscapedMeans(text: string, rest: string, values: Values)
    ensures InLiteral(Escaped(text) + "\";" + rest, values) == Ran(text, rest)
  {
    if text == "" {
      var s := "\";" + rest;
      assert Escaped(text) + "\";" + rest == s && s[1..] == ";" + rest && (";" + rest)[1..] == rest;
      InLiteralIs(s, values);
      assert SkipSpace(";" + rest) == ";" + rest && ";" <= ";" + rest;
      assert Literal(s) == Some(("", ";" + rest)) && Chain(";" + rest, values) == Ran("", rest);
      assert "" + "" == "";
    } else {
      var tail := Escaped(text[1..]) + "\";" + rest;
      assert Escaped(text) + "\";" + rest == EscapeChar(text[0]) + tail;
      EscapeCharMeans(text[0], tail, values);
      EscapedMeans(text[1..], rest, values);
      assert [text[0]] + text[1..] == text;
    }
  }

  lemma ExecuteStatement(s: string, t: string, values: Values)
    requires SkipSpace(s) == "out" + t
    ensures Execute(s, values)
         == var r := Chain(t, values); if r.Ran? then After(r.text, Execute(r.rest, values)) else r
  {
    hide SkipSpace, Chain;
    var next := "out" + t;
    assert next[0] == 'o' && "out" <= next && next[3..] == t;
  }

  lemma ExecuteOut(s: string, values: Values)
    ensures Execute("    out" + s, values)
         == var r := Chain(s, values); if r.Ran? then After(r.text, Execute(r.rest, values)) else r
  {
    hide SkipSpace, Chain, Execute;
    var next := "out" + s;
    assert next[0] == 'o' && "    out" + s == "    " + next;
    SkipIndent(next);
    ExecuteStatement("    out" + s, s, values);
  }

  lemma ExecuteLine(s: string, values: Values)
    ensures Execute("\n" + s, values) == Execute(s, values)
  {
    SkipBlank(s);
  }

  lemma TextStatementIs(text: string, rest: string)
    ensures TextStatement(text) + rest == "    out" + (" << \"" + (Escaped(text) + "\";" + ("\n" + rest)))
  {
    hide Escaped;
    assert OUT_LITERAL == "    out" + " << \"" && END_LITERAL == "\";" + "\n";
    RegroupText("    out", " << \"", Escaped(text), "\";", "\n", rest);
  }

  lemma RegroupText(o: string, l: string, t: string, q: string, n: string, r: string)
    ensures (o + l) + t + (q + n) + r == o + (l + (t + q + (n + r)))
  {
  }

  /** A text statement prints its text. */
  lemma TextStatementMeans(text: string, rest: string, values: Values)
    ensures Execute(TextStatement(text) + rest, values) == After(text, Execute(rest, values))
  {
    hide Execute, Chain, InLiteral, Escaped;
    var body := Escaped(text) + "\";" + ("\n" + rest);
    TextStatementIs(text, rest);
    ExecuteOut(" << \"" + body, values);
    ChainToLiteral(body, values);
    EscapedMeans(text, "\n" + rest, values);
    ExecuteLine(rest, values);
  }

  lemma Cut(a: string, b: string)
    ensures a <= a + b && (a + b)[|a|..] == b
  {
  }

  lemma Regroup(o: string, l: string, c: string, n: string, q: string, a: string, t: string, e: string, r: string)
    ensures (o + (l + c)) + n + (q + a) + t + (q + e) + r == o + (l + (c + (n + q + (a + (t + q + (e + r))))))
  {
  }

  /** The text of a find_pattern call, from its name to the end of the program. */
  function Call(name: string, template: string, rest: string): (s: string) {
    CALL + (name + "\"" + (ARGUMENT + (template + "\"" + (");\n" + rest))))
  }

  lemma PatternStatementIs(name: string, template: string, rest: string)
    ensures PatternStatement(name, template) + rest == "    out" + (" << " + Call(name, template, rest))
  {
    assert "\", \"" == "\"" + ARGUMENT && "\");\n" == "\"" + ");\n";
    Regroup("    out", " << ", CALL, name, "\"", ARGUMENT, template, ");\n", rest);
  }

  lemma CallMeans(name: string, template: string, rest: string, values: Values)
    requires Plain(name) && Plain(template)
    ensures Operand(Call(name, template, rest), values)
         == if name in values then After(values[name], Ran("", "\n" + rest)) else Exits("", name, template)
  {
    var last := ");\n" + rest;
    var args := ARGUMENT + (template + "\"" + last);
    var call := Call(name, template, rest);
    Cut(CALL, name + "\"" + args);
    LiteralOfPlain(name, args);
    Cut(ARGUMENT, template + "\"" + last);
    LiteralOfPlain(template, last);
    CallEnds(rest, values);
    assert call[0] == 'f' && !("\"" <= call);
  }

  lemma CallEnds(rest: string, values: Values)
    ensures var last := ");\n" + rest;
      ")" <= last && Chain(last[1..], values) == Ran("", "\n" + rest)
  {
    var last := ");\n" + rest;
    var end := ";\n" + rest;
    assert last[1..] == end && end[1..] == "\n" + rest;
    assert SkipSpace(end) == end && ";" <= end;
  }

  /** A pattern statement looks its name up, and ends the program when there is no value. */
  lemma PatternStatementMeans(name: string, template: string, rest: string, values: Values)
    requires Plain(name) && Plain(template)
    ensures Execute(PatternStatement(name, template) + rest, values)
         == if name in values then After(values[name], Execute(rest, values)) else Exits("", name, template)
  {
    hide Literal, Operand, PatternStatement;
    var call := Call(name, template, rest);
    PatternStatementIs(name, template, rest);
    ExecuteOut(" << " + call, values);
    CallMeans(name, template, rest, values);
    ChainToCall(call, values);
    ExecuteLine(rest, values);
    if name in values {
      assert values[name] + "" == values[name];
    }
  }

  lemma ChainToCall(call: string, values: Values)
    requires CALL <= call
    ensures Chain(" << " + call, values) == Operand(call, values)
  {
    hide SkipSpace, Chain, Operand;
    assert CALL[0] == 'f' && call[0] == 'f';
    var next := "<< " + call;
    assert next == "<<" + (" " + call) && " << " + call == " " + next;
    SkipIndent(next);
    SkipIndent(call);
    ChainGoesOn(" " + next, " " + call, values);
  }

  lemma LastStatementMeans(text: string, more: string, values: Values)
    ensures Execute(TextStatement(text) + ("}\n" + more), values) == Ran(text, "\n" + more)
  {
    var last := "}\n" + more;
    TextStatementMeans(text, last, values);
    assert SkipSpace(last) == last && last[1..] == "\n" + more;
    assert Execute(last, values) == Ran("", "\n" + more);
    assert text + "" == text;
  }

  /**
   Compiler correctness: running the statements printed for a body substitutes directly, for every
   body whose markers pair up and whose names are plain; a name without a value is reported, with the
   template's name, and ends the program after everything before it was printed.
   */
  lemma {:induction false} StatementsMean(b: string, template: string, more: string, values: Values)
    requires Paired(b) && Plain(template) && forall name :: name in Names(b) ==> Plain(name)
    ensures Execute(Statements(b, template) + more, values)
         == match FirstMissing(b, values)
            case None => Ran(PrintedUpTo(b, values), "\n" + more)
            case Some(name) => Exits(PrintedUpTo(b, values), name, template)
    decreases |b|
  {
    hide Execute, TextStatement, PatternStatement, Parse;
    var p := Parse(b);
    if p.Text? {
      assert Statements(b, template) + more == TextStatement(p.text) + ("}\n" + more);
      LastStatementMeans(p.text, more, values);
    } else {
      var rest := Statements(p.rest, template) + more;
      assert p.name in Names(b);
      forall name | name in Names(p.rest) ensures Plain(name) { assert name in Names(b); }
      assert Statements(b, template) + more == TextStatement(p.text) + (PatternStatement(p.name, template) + rest);
      TextStatementMeans(p.text, PatternStatement(p.name, template) + rest, values);
      PatternStatementMeans(p.name, template, rest, values);
      StatementsMean(p.rest, template, more, values);
      if p.name !in values {
        assert p.text + "" == p.text;
      } else {
        AfterAfter(p.text, values[p.name], Execute(rest, values));
      }
    }
  }
}
