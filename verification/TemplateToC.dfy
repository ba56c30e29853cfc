/** The template compiler: finding the patterns of a body, printing its function, reading template files. */
module TemplateToC {
  import opened Sequences
  import opened Options
  import opened TemplateText
  import opened EmittedCode
  import opened EmittedPrograms

  const BOUNDARY := "________"
  const OPTION_LINE := "______OPTION"

  datatype PatternInfo = PatternInfo(start: nat, end: nat, pattern: string)

  // ----- the positions of the markers -----

  function Marks(b: string, k: nat): (ats: seq<nat>)
    decreases |b| - k
  {
    if k + 2 >= |b| then []
    else if b[k] == '@' && b[k + 1] == '@' then [k] + Marks(b, k + 2)
    else Marks(b, k + 1)
  }

  lemma {:induction false} MarksStep(b: string, k: nat)
    requires k <= |b|
    ensures var i := FindMarker(b[k..]);
      Marks(b, k) == if i == |b[k..]| then [] else [k + i] + Marks(b, k + i + 2)
    decreases |b| - k
  {
    if k + 2 < |b| && !(b[k] == '@' && b[k + 1] == '@') {
      assert b[k..][1..] == b[k + 1..];
      MarksStep(b, k + 1);
    }
  }

  /** The second loop: markers taken two by two. */
  function PairUp(b: string, ats: seq<nat>): (ps: seq<PatternInfo>)
    decreases |ats|
  {
    if |ats| < 2 then [] else [Info(b, ats[0], ats[1])] + PairUp(b, ats[2..])
  }

  function Info(b: string, start: nat, end: nat): (p: PatternInfo) {
    PatternInfo(start, end, if start + 2 <= end <= |b| then b[start + 2..end] else "")
  }

  /** The third loop: the statements for the patterns, and for the text around them from `last` on. */
  function Emit(b: string, ps: seq<PatternInfo>, last: nat, template: string): (r: string)
    decreases |ps|
  {
    if ps == [] then TextStatement(Slice(b, last, |b|)) + "}\n"
    else
      var before := TextStatement(Slice(b, last, ps[0].start)) + PatternStatement(ps[0].pattern, template);
      before + Emit(b, ps[1..], ps[0].end + 2, template)
  }

  function Slice(b: string, from: nat, to: nat): (r: string) {
    if from <= to <= |b| then b[from..to] else ""
  }

  /** The patterns follow one another inside the body. */
  ghost predicate Ordered(b: string, ps: seq<PatternInfo>, last: nat)
    decreases |ps|
  {
    if ps == [] then last <= |b|
    else
      && last <= ps[0].start && ps[0].start + 2 <= ps[0].end && ps[0].end + 2 <= |b|
      && Ordered(b, ps[1..], ps[0].end + 2)
  }

  /** Where the markers of the first pattern after k stand, and where the text after it starts. */
  lemma FirstPattern(b: string, k: nat) returns (start: nat, end: nat)
    requires k <= |b| && Parse(b[k..]).Pattern?
    ensures k <= start && start + 2 <= end && end + 2 <= |b|
    ensures Parse(b[k..]) == Pattern(b[k..start], b[start + 2..end], b[end + 2..])
    ensures Marks(b, k) == [start, end] + Marks(b, end + 2)
  {
    hide Marks, FindMarker, Parse;
    var i, j := PatternAt(b, k);
    start, end := k + i, k + i + 2 + j;
    MarksStep(b, k);
    MarksStep(b, start + 2);
    PrependTwo(start, end, Marks(b, end + 2));
  }

  lemma PatternAt(b: string, k: nat) returns (i: nat, j: nat)
    requires k <= |b| && Parse(b[k..]).Pattern?
    ensures i == FindMarker(b[k..]) < |b| - k && j == FindMarker(b[k + i + 2..]) < |b| - (k + i + 2)
    ensures k + i + 2 + j + 2 <= |b|
    ensures var start, end := k + i, k + i + 2 + j;
      Parse(b[k..]) == Pattern(b[k..start], b[start + 2..end], b[end + 2..])
  {
    hide FindMarker, Parse;
    ParseIs(b[k..]);
    i := FindMarker(b[k..]);
    DropDrop(b, k, i + 2);
    j := FindMarker(b[k + i + 2..]);
    CutTwice(b, k, i, j);
  }

  lemma CutTwice(b: string, k: nat, i: nat, j: nat)
    requires k + i + 2 + j + 2 <= |b|
    ensures var s, start := b[k..], k + i;
      var tail := s[i + 2..];
      s[..i] == b[k..start] && tail[..j] == b[start + 2..start + 2 + j] && tail[j + 2..] == b[start + 2 + j + 2..]
  {
    DropDrop(b, k, i);
    DropDrop(b, k, i + 2);
    DropDrop(b, k + i + 2, j);
    DropDrop(b, k + i + 2, j + 2);
  }

  lemma PrependTwo(x: nat, y: nat, s: seq<nat>)
    ensures [x] + ([y] + s) == [x, y] + s
  {
  }

  lemma NoFirstPattern(b: string, k: nat)
    requires k <= |b| && !Parse(b[k..]).Pattern?
    ensures Parse(b[k..]).Text? ==> Marks(b, k) == []
    ensures Parse(b[k..]).Unpaired? ==> |Marks(b, k)| == 1
  {
    hide Marks, FindMarker, Parse;
    MarksStep(b, k);
    ParseIs(b[k..]);
    var i := FindMarker(b[k..]);
    if i < |b[k..]| {
      DropDrop(b, k, i + 2);
      MarksStep(b, k + i + 2);
    }
  }

  lemma ParseIs(s: string)
    ensures var i := FindMarker(s);
      && (i == |s| ==> Parse(s).Text?)
      && (i < |s| ==> (Parse(s).Pattern? <==> FindMarker(s[i + 2..]) < |s[i + 2..]|) && !Parse(s).Text?)
    ensures Parse(s).Pattern? ==>
      var i := FindMarker(s);
      var j := FindMarker(s[i + 2..]);
      Parse(s) == Pattern(s[..i], s[i + 2..][..j], s[i + 2..][j + 2..])
  {
  }

  lemma DropDrop(b: string, k: nat, i: nat)
    requires k + i <= |b|
    ensures b[k..][i..] == b[k + i..] && b[k..][..i] == b[k..k + i]
  {
  }

  /** The scan sees an even number of markers exactly when they pair up. */
  lemma {:induction false} PairedExactly(b: string, k: nat)
    requires k <= |b|
    ensures Paired(b[k..]) <==> |Marks(b, k)| % 2 == 0
    decreases |b| - k
  {
    hide Parse;
    if Parse(b[k..]).Pattern? {
      var start, end := FirstPattern(b, k);
      PairedExactly(b, end + 2);
    } else {
      NoFirstPattern(b, k);
    }
  }

  /** Scanning by positions and parsing piece by piece print the same statements. */
  lemma {:induction false} EmitIsStatements(b: string, k: nat, template: string)
    requires k <= |b| && Paired(b[k..])
    ensures Ordered(b, PairUp(b, Marks(b, k)), k)
    ensures Emit(b, PairUp(b, Marks(b, k)), k, template) == Statements(b[k..], template)
    decreases |b| - k
  {
    hide Parse, TextStatement, PatternStatement, Marks, PairUp, Emit, Ordered;
    if Parse(b[k..]).Pattern? {
      var start, end := FirstPattern(b, k);
      EmitIsStatements(b, end + 2, template);
      var ats := Marks(b, end + 2);
      PairFront(b, start, end, ats);
      EmitFront(b, start, end, PairUp(b, ats), k, template);
    } else {
      NoFirstPattern(b, k);
      NothingToPair(b);
      EmitNone(b, k, template);
    }
  }

  lemma EmitNone(b: string, k: nat, template: string)
    requires k <= |b|
    ensures Ordered(b, [], k) && Emit(b, [], k, template) == TextStatement(b[k..]) + "}\n"
  {
    assert b[k..|b|] == b[k..];
  }

  lemma PairFront(b: string, start: nat, end: nat, ats: seq<nat>)
    ensures PairUp(b, [start, end] + ats) == [Info(b, start, end)] + PairUp(b, ats)
  {
    assert ([start, end] + ats)[2..] == ats;
  }

  lemma EmitFront(b: string, start: nat, end: nat, ps: seq<PatternInfo>, k: nat, template: string)
    requires k <= start && start + 2 <= end && end + 2 <= |b| && Ordered(b, ps, end + 2)
    ensures Ordered(b, [Info(b, start, end)] + ps, k)
    ensures Emit(b, [Info(b, start, end)] + ps, k, template)
         == TextStatement(b[k..start]) + PatternStatement(b[start + 2..end], template) + Emit(b, ps, end + 2, template)
  {
    assert ([Info(b, start, end)] + ps)[1..] == ps;
  }

  lemma PairStep(b: string, ats: seq<nat>, i: nat)
    requires i + 1 < |ats|
    ensures PairUp(b, ats[i..]) == [Info(b, ats[i], ats[i + 1])] + PairUp(b, ats[i + 2..])
  {
    assert ats[i..][0] == ats[i] && ats[i..][1] == ats[i + 1] && ats[i..][2..] == ats[i + 2..];
  }

  lemma NothingToPair(b: string)
    ensures PairUp(b, []) == []
  {
  }

  lemma InfoIs(b: string, start: nat, end: nat)
    ensures Info(b, start, end).start == start && Info(b, start, end).end == end
    ensures start + 2 <= end <= |b| ==> Info(b, start, end) == PatternInfo(start, end, b[start + 2..end])
  {
  }

  lemma OrderedStep(b: string, p: PatternInfo, ps: seq<PatternInfo>, last: nat)
    requires Ordered(b, [p] + ps, last)
    ensures last <= p.start && p.start + 2 <= p.end && p.end + 2 <= |b| && Ordered(b, ps, p.end + 2)
  {
    assert ([p] + ps)[1..] == ps;
  }

  lemma EmitStep(b: string, ps: seq<PatternInfo>, i: nat, last: nat, template: string)
    requires i < |ps| && Ordered(b, ps[i..], last)
    ensures last <= ps[i].start && ps[i].end + 2 <= |b| && ps[i].start <= |b| && Ordered(b, ps[i + 1..], ps[i].end + 2)
    ensures Emit(b, ps[i..], last, template)
         == TextStatement(b[last..ps[i].start]) + PatternStatement(ps[i].pattern, template)
          + Emit(b, ps[i + 1..], ps[i].end + 2, template)
  {
    assert ps[i..][0] == ps[i] && ps[i..][1..] == ps[i + 1..];
  }

  lemma EmitEnd(b: string, ps: seq<PatternInfo>, last: nat, template: string)
    requires Ordered(b, ps[|ps|..], last)
    ensures last <= |b| && Emit(b, ps[|ps|..], last, template) == TextStatement(b[last..]) + "}\n"
  {
    assert ps[|ps|..] == [] && b[last..|b|] == b[last..];
  }

  lemma EscapedStep(s: string, i: nat)
    requires i < |s|
    ensures Escaped(s[i..]) == EscapeChar(s[i]) + Escaped(s[i + 1..])
  {
    assert s[i..][0] == s[i] && s[i..][1..] == s[i + 1..];
  }

  lemma EscapedNewline(out: string)
    ensures out + "\\n\"\n" + (INDENT + "<< \"") == out + EscapeChar('\n')
  {
    Associate("\\n\"\n", INDENT, "<< \"");
    Associate(out, "\\n\"\n", INDENT + "<< \"");
  }

  lemma Associate(a: string, b: string, c: string)
    ensures (a + b) + c == a + (b + c)
  {
  }

  lemma EscapedEnd(s: string)
    ensures Escaped(s[|s|..]) == ""
  {
  }

  lemma OneFunctionCalled(name: string, b: string)
    requires Paired(b)
    ensures NameText(name) && (forall n :: n in Names(b) ==> Plain(n)) ==> forall values: Values ::
      CallFunction(Compiled(name, b), "output_" + name, values)
      == match FirstMissing(b, values)
         case None => Ran(PrintedUpTo(b, values), "")
         case Some(missing) => Exits(PrintedUpTo(b, values), missing, name)
  {
    hide CallFunction, Compiled, NameText, Plain, FirstMissing, PrintedUpTo;
    if NameText(name) && forall n :: n in Names(b) ==> Plain(n) {
      forall values: Values
        ensures CallFunction(Compiled(name, b), "output_" + name, values)
             == match FirstMissing(b, values)
                case None => Ran(PrintedUpTo(b, values), "")
                case Some(missing) => Exits(PrintedUpTo(b, values), missing, name)
      {
        OneFunctionRuns(name, b, values);
      }
    }
  }

  // ----- lines -----

  /** What process_line keeps between lines, and what it has printed. */
  datatype LineState = LineState(inTemplate: bool, name: string, body: string, out: string)

  predicate IsBoundary(line: string) {
    BOUNDARY <= line
  }

  /** What add_template is called with when a closing line ends the template. */
  function ClosedBody(body: string, line: string): (r: Option<string>) {
    if |line| < 9 || line[9..Min(12, |line|)] != "END" then None
    else if line[9..Min(14, |line|)] != "ENDNL" then Some(body)
    else if body == "" then None
    else Some(body[..|body| - 1])
  }

  /** One line; None is the program ending itself, or a body whose markers do not pair up. */
  function StepLine(s: LineState, line: string): (r: Option<LineState>) {
    if !s.inTemplate then
      if !IsBoundary(line) then Some(s)
      else if |line| < 9 then None
      else Some(s.(inTemplate := true, name := line[9..], body := ""))
    else if IsBoundary(line) then
      var b := ClosedBody(s.body, line);
      if b.None? || !Paired(b.value) then None
      else Some(LineState(false, s.name, b.value, s.out + Compiled(s.name, b.value)))
    else Some(s.(body := s.body + line + "\n"))
  }

  function FoldLines(s: LineState, lines: seq<string>): (r: Option<LineState>)
    decreases |lines|
  {
    if lines == [] then Some(s)
    else
      var t := StepLine(s, lines[0]);
      if t.None? then None else FoldLines(t.value, lines[1..])
  }

  /** The one option line there is, read outside templates only. */
  predicate DisablesLineNumbers(line: string) {
    |line| >= 13 && "______OPTION" <= line && "disable_lineno" <= line[13..]
  }

  class Compiler {
    var ccOut: string
    var ats: seq<nat>
    var patterns: seq<PatternInfo>
    var inTemplate: bool
    var templateName: string
    var templateBody: string
    var enableLineNumbers: bool

    ghost predicate Valid()
      reads this
    {
      ats == [] && patterns == []
    }

    ghost function Abs(): (s: LineState)
      reads this
    {
      LineState(inTemplate, templateName, templateBody, ccOut)
    }

    constructor (prelude: string)
      ensures Valid() && Abs() == LineState(false, "", "", prelude) && enableLineNumbers
    {
      ccOut, ats, patterns, inTemplate := prelude, [], [], false;
      templateName, templateBody, enableLineNumbers := "", "", true;
    }

    static method Escape(s: string) returns (out: string)
      ensures out == Escaped(s)
    {
      hide Escaped;
      out := "";
      assert s[0..] == s;
      for ind := 0 to |s|
        invariant out + Escaped(s[ind..]) == Escaped(s)
      {
        ghost var before := out;
        EscapedStep(s, ind);
        if s[ind] == '"' {
          out := out + "\\\"";
        } else if s[ind] == '\n' {
          out := out + "\\n\"\n";
          out := out + (INDENT + "<< \"");
          EscapedNewline(before);
        } else if s[ind] == '\\' {
          out := out + "\\\\";
        } else {
          out := out + [s[ind]];
        }
        assert out == before + EscapeChar(s[ind]);
        Associate(before, EscapeChar(s[ind]), Escaped(s[ind + 1..]));
      }
      EscapedEnd(s);
    }

    /** Finds the patterns of the body, prints its function, and leaves nothing behind for the next one. */
    method AddTemplate(name: string, body: string)
      requires Valid() && Paired(body)
      modifies this`ccOut, this`ats, this`patterns
      ensures Valid() && ccOut == old(ccOut) + Compiled(name, body)
      ensures NameText(name) && (forall n :: n in Names(body) ==> Plain(n)) ==> forall values: Values ::
        CallFunction(ccOut[|old(ccOut)|..], "output_" + name, values)
        == match FirstMissing(body, values)
           case None => Ran(PrintedUpTo(body, values), "")
           case Some(missing) => Exits(PrintedUpTo(body, values), missing, name)
    {
      hide Marks, PairUp, Emit, Statements, Ordered, Header, Paired, NameText, Plain, CallFunction, FirstMissing,
           PrintedUpTo;
      FindMarks(body);
      assert body[0..] == body;
      PairedExactly(body, 0);
      EmitIsStatements(body, 0, name);
      PairMarks(body);
      ccOut := ccOut + Header(name);
      EmitPieces(name, body);
      ats := [];
      patterns := [];
      assert ccOut[|old(ccOut)|..] == Compiled(name, body);
      OneFunctionCalled(name, body);
    }

    method FindMarks(body: string)
      requires ats == []
      modifies this`ats
      ensures ats == Marks(body, 0)
    {
      var ind := 0;
      while ind + 2 < |body|
        invariant 0 <= ind && ats + Marks(body, ind) == Marks(body, 0)
        decreases |body| - ind
      {
        if body[ind] == '@' && body[ind + 1] == '@' {
          ats := ats + [ind];
          ind := ind + 1;
        }
        ind := ind + 1;
      }
    }

    method PairMarks(body: string)
      requires patterns == [] && |ats| % 2 == 0 && Ordered(body, PairUp(body, ats), 0)
      modifies this`patterns
      ensures patterns == PairUp(body, ats)
    {
      hide PairUp, Ordered, Info;
      assert ats[0..] == ats;
      var ind := 0;
      ghost var last := 0;
      while ind < |ats|
        invariant 0 <= ind <= |ats| && ind % 2 == 0 && last >= 0
        invariant patterns + PairUp(body, ats[ind..]) == PairUp(body, ats)
        invariant Ordered(body, PairUp(body, ats[ind..]), last)
      {
        var start, end := ats[ind], ats[ind + 1];
        PairStep(body, ats, ind);
        InfoIs(body, start, end);
        OrderedStep(body, Info(body, start, end), PairUp(body, ats[ind + 2..]), last);
        patterns := patterns + [PatternInfo(start, end, body[start + 2..end])];
        last := end + 2;
        ind := ind + 2;
      }
      assert ats[ind..] == [];
      NothingToPair(body);
    }

    method EmitPieces(name: string, body: string)
      requires Ordered(body, patterns, 0)
      modifies this`ccOut
      ensures ccOut == old(ccOut) + Emit(body, patterns, 0, name)
    {
      hide Emit, Ordered, PatternStatement, Escaped;
      var lastPos := 0;
      assert patterns[0..] == patterns;
      ghost var total := ccOut + Emit(body, patterns, 0, name);
      for ind := 0 to |patterns|
        invariant lastPos >= 0 && Ordered(body, patterns[ind..], lastPos)
        invariant ccOut + Emit(body, patterns[ind..], lastPos, name) == total
      {
        var pi := patterns[ind];
        EmitStep(body, patterns, ind, lastPos, name);
        var piece := Escape(body[lastPos..pi.start]);
        ccOut := ccOut + (OUT_LITERAL + piece + END_LITERAL);
        ccOut := ccOut + PatternStatement(pi.pattern, name);
        lastPos := pi.end + 2;
      }
      EmitEnd(body, patterns, lastPos, name);
      var piece := Escape(body[lastPos..]);
      ccOut := ccOut + (OUT_LITERAL + piece + END_LITERAL + "}\n");
    }

    /** One line of a template file. `ok` is false when the program ends itself. */
    method ProcessLine(line: string) returns (ok: bool)
      requires Valid()
      requires var b := ClosedBody(templateBody, line);
        inTemplate && IsBoundary(line) && b.Some? ==> Paired(b.value)
      modifies this
      ensures Valid()
      ensures ok <==> StepLine(old(Abs()), line).Some?
      ensures ok ==> Abs() == StepLine(old(Abs()), line).value
      ensures enableLineNumbers == (old(enableLineNumbers) && !(!old(inTemplate) && DisablesLineNumbers(line)))
    {
      hide Compiled, Paired;
      if !inTemplate {
        if OPTION_LINE <= line {
          assert line[6] == 'O';
          if |line| >= 13 && "disable_lineno" <= line[13..] {
            enableLineNumbers := false;
          }
        } else if IsBoundary(line) {
          if |line| < 9 {
            return false;
          }
          inTemplate := true;
          templateBody := "";
          templateName := line[9..];
        }
        return true;
      }
      if IsBoundary(line) {
        inTemplate := false;
        if |line| < 9 || line[9..Min(12, |line|)] != "END" {
          return false;
        }
        if line[9..Min(14, |line|)] == "ENDNL" {
          if templateBody == "" {
            return false;
          }
          templateBody := templateBody[..|templateBody| - 1];
        }
        AddTemplate(templateName, templateBody);
        return true;
      }
      templateBody := templateBody + line;
      templateBody := templateBody + "\n";
      return true;
    }
  }

  /**
   A line makes the program end itself exactly when it is a boundary that names no template, or one inside a template
   that does not say END at its tenth character, or says ENDNL of an empty body, or closes a body whose markers do not
   pair up.
   */
  lemma LineFailsExactly(s: LineState, line: string)
    ensures StepLine(s, line).None? <==>
      && "________" <= line
      && (if s.inTemplate then
            || |line| < 12 || line[9..12] != "END"
            || ("NL" <= line[12..] && s.body == "")
            || !Paired(if "NL" <= line[12..] then s.body[..|s.body| - 1] else s.body)
          else |line| == 8)
  {
    hide Paired, Compiled;
    if s.inTemplate && IsBoundary(line) { CloseIs(s.body, line); }
  }

  /** How a closing line is read. */
  lemma CloseIs(body: string, line: string)
    ensures ClosedBody(body, line)
         == if |line| < 12 || line[9..12] != "END" then None
            else if !("NL" <= line[12..]) then Some(body)
            else if body == "" then None
            else Some(body[..|body| - 1])
  {
    if |line| >= 12 {
      if line[9..12] == "END" {
        assert line[9..Min(14, |line|)] == "END" + line[12..Min(14, |line|)];
        if |line| >= 14 { assert ("NL" <= line[12..]) == (line[12..14] == "NL"); }
        assert "ENDNL" == "END" + "NL";
      }
    } else if |line| >= 9 {
      assert |line[9..Min(12, |line|)]| < 3;
    }
  }

  // ----- whole files -----

  /**
   A template as written in a file: lines before it, its name after the boundary and one character, its body lines,
   and what follows END on the closing line; NL there drops the last newline of the body.
   */
  datatype Template =
    Template(before: seq<string>, space: char, name: string, lines: seq<string>, endSpace: char, tail: string)
  {
    predicate Trims() {
      "NL" <= tail
    }
  }

  function Join(lines: seq<string>): (b: string) {
    if lines == [] then "" else lines[0] + "\n" + Join(lines[1..])
  }

  function Body(t: Template): (b: string)
    requires t.Trims() ==> t.lines != []
  {
    if t.Trims() then Join(t.lines)[..|Join(t.lines)| - 1] else Join(t.lines)
  }

  function Rendered(t: Template): (lines: seq<string>) {
    t.before + ["________" + [t.space] + t.name] + t.lines + ["________" + [t.endSpace] + "END" + t.tail]
  }

  function RenderedAll(ts: seq<Template>): (lines: seq<string>) {
    if ts == [] then [] else Rendered(ts[0]) + RenderedAll(ts[1..])
  }

  /** Lines that neither open nor close a template. */
  predicate Filler(lines: seq<string>) {
    forall i :: 0 <= i < |lines| ==> !IsBoundary(lines[i])
  }

  ghost predicate WellFormed(t: Template) {
    Filler(t.before) && Filler(t.lines) && (t.Trims() ==> t.lines != []) && Paired(Body(t))
  }

  function CompiledAll(ts: seq<Template>): (out: string)
    requires forall i :: 0 <= i < |ts| ==> WellFormed(ts[i])
  {
    if ts == [] then ""
    else
      assert WellFormed(ts[0]);
      Compiled(ts[0].name, Body(ts[0])) + CompiledAll(ts[1..])
  }

  lemma {:induction false} FoldConcat(s: LineState, a: seq<string>, b: seq<string>)
    ensures FoldLines(s, a + b) == if FoldLines(s, a).None? then None else FoldLines(FoldLines(s, a).value, b)
    decreases |a|
  {
    hide StepLine;
    if a == [] {
      assert a + b == b;
    } else {
      assert (a + b)[1..] == a[1..] + b;
      if StepLine(s, a[0]).Some? { FoldConcat(StepLine(s, a[0]).value, a[1..], b); }
    }
  }

  lemma {:induction false} FoldFiller(s: LineState, lines: seq<string>)
    requires !s.inTemplate && Filler(lines)
    ensures FoldLines(s, lines) == Some(s)
    decreases |lines|
  {
    if lines != [] { FoldFiller(s, lines[1..]); }
  }

  lemma {:induction false} FoldBody(s: LineState, lines: seq<string>)
    requires s.inTemplate && Filler(lines)
    ensures FoldLines(s, lines) == Some(s.(body := s.body + Join(lines)))
    decreases |lines|
  {
    if lines == [] {
      assert s.body + "" == s.body;
    } else {
      FoldBody(s.(body := s.body + lines[0] + "\n"), lines[1..]);
      assert s.body + lines[0] + "\n" + Join(lines[1..]) == s.body + Join(lines);
    }
  }

  lemma StepOpen(s: LineState, space: char, name: string)
    requires !s.inTemplate
    ensures StepLine(s, "________" + [space] + name) == Some(s.(inTemplate := true, name := name, body := ""))
  {
    var line := "________" + [space] + name;
    assert line[9..] == name && line[..8] == "________";
  }

  lemma StepClose(s: LineState, space: char, tail: string)
    requires s.inTemplate && ("NL" <= tail ==> s.body != "")
    requires Paired(if "NL" <= tail then s.body[..|s.body| - 1] else s.body)
    ensures var b := if "NL" <= tail then s.body[..|s.body| - 1] else s.body;
      StepLine(s, "________" + [space] + "END" + tail) == Some(LineState(false, s.name, b, s.out + Compiled(s.name, b)))
  {
    hide Paired, Compiled, ClosedBody;
    var line := "________" + [space] + "END" + tail;
    assert line[..8] == "________" && line[9..12] == "END" && line[12..] == tail;
    CloseIs(s.body, line);
  }

  /** One template of a file compiles to its function and leaves the compiler as it was. */
  lemma FoldTemplate(s: LineState, t: Template)
    requires !s.inTemplate && WellFormed(t)
    ensures FoldLines(s, Rendered(t)) == Some(LineState(false, t.name, Body(t), s.out + Compiled(t.name, Body(t))))
  {
    hide StepLine, Paired, Compiled, IsBoundary;
    var open, close := ["________" + [t.space] + t.name], ["________" + [t.endSpace] + "END" + t.tail];
    var s1 := s.(inTemplate := true, name := t.name, body := "");
    FoldFiller(s, t.before);
    StepOpen(s, t.space, t.name);
    FoldOne(s, open[0]);
    FoldBody(s1, t.lines);
    assert "" + Join(t.lines) == Join(t.lines);
    var s2 := s1.(body := Join(t.lines));
    StepClose(s2, t.endSpace, t.tail);
    FoldOne(s2, close[0]);
    FoldConcat(s, t.before, open);
    FoldConcat(s, t.before + open, t.lines);
    FoldConcat(s, t.before + open + t.lines, close);
  }

  lemma FoldOne(s: LineState, line: string)
    ensures FoldLines(s, [line]) == StepLine(s, line)
  {
    hide StepLine;
    assert [line][1..] == [];
  }

  /**
   Reading a printed file compiles exactly its templates, in order, whatever lines stand between
   them; each comes out as it would alone.
   */
  lemma {:induction false} ReadsWhatWasPrinted(s: LineState, ts: seq<Template>)
    requires !s.inTemplate && forall i :: 0 <= i < |ts| ==> WellFormed(ts[i])
    ensures var r := FoldLines(s, RenderedAll(ts));
      r.Some? && !r.value.inTemplate && r.value.out == s.out + CompiledAll(ts)
    decreases |ts|
  {
    hide StepLine, Paired, Compiled, Rendered;
    if ts == [] {
      assert s.out + "" == s.out;
    } else {
      var t := ts[0];
      assert WellFormed(t);
      FoldTemplate(s, t);
      var s1 := FoldLines(s, Rendered(t)).value;
      FoldConcat(s, Rendered(t), RenderedAll(ts[1..]));
      ReadsWhatWasPrinted(s1, ts[1..]);
      Associate(s.out, Compiled(t.name, Body(t)), CompiledAll(ts[1..]));
    }
  }

  // ----- calling what a file compiles to -----

  /** The compiler accepts it, and its names can stand in C++ source as they are. */
  ghost predicate Compilable(t: Template) {
    WellFormed(t) && NameText(t.name) && forall name :: name in Names(Body(t)) ==> Plain(name)
  }

  /** Templates that can be compiled, no two of the same name. */
  ghost predicate CompilableAll(ts: seq<Template>) {
    && (forall i :: 0 <= i < |ts| ==> Compilable(ts[i]))
    && (forall i, j :: 0 <= i < j < |ts| ==> ts[i].name != ts[j].name)
  }

  /** What direct substitution in the template does. */
  ghost predicate Does(t: Template, values: Values, r: Outcome)
    requires WellFormed(t)
  {
    match FirstMissing(Body(t), values)
    case None => r.Ran? && r.text == PrintedUpTo(Body(t), values)
    case Some(name) => r == Exits(PrintedUpTo(Body(t), values), name, t.name)
  }

  /** These functions are those of the templates, in order. */
  ghost predicate Defined(ts: seq<Template>, ds: seq<Definition>, values: Values)
    requires forall i :: 0 <= i < |ts| ==> WellFormed(ts[i])
  {
    && |ds| == |ts|
    && forall i :: 0 <= i < |ts| ==>
      ds[i].name == "output_" + ts[i].name && Does(ts[i], values, Execute(ds[i].body, values))
  }

  lemma {:induction false} AllDefined(ts: seq<Template>, values: Values)
    requires forall i :: 0 <= i < |ts| ==> WellFormed(ts[i]) && Compilable(ts[i])
    ensures Definitions(CompiledAll(ts)).Some? && Defined(ts, Definitions(CompiledAll(ts)).value, values)
  {
    hide Definitions, Compiled, Statements, Execute, NameText, Plain, Paired, Body;
    if ts == [] {
      NothingDefined();
    } else {
      var t, more := ts[0], CompiledAll(ts[1..]);
      assert Compilable(t);
      AllDefined(ts[1..], values);
      DefinitionsCompiled(t.name, Body(t), more);
      NameIsPlain(t.name);
      ExecuteLine(Statements(Body(t), t.name) + more, values);
      StatementsMean(Body(t), t.name, more, values);
    }
  }

  lemma CalledByName(ts: seq<Template>, code: string, i: nat, values: Values)
    requires CompilableAll(ts) && i < |ts|
    requires Definitions(code).Some? && Defined(ts, Definitions(code).value, values)
    ensures CallFunction(code, "output_" + ts[i].name, values)
         == match FirstMissing(Body(ts[i]), values)
            case None => Ran(PrintedUpTo(Body(ts[i]), values), "")
            case Some(name) => Exits(PrintedUpTo(Body(ts[i]), values), name, ts[i].name)
  {
    hide Definitions, Compilable, Execute, FirstMissing, PrintedUpTo, Body;
    var ds := Definitions(code).value;
    forall j, k | 0 <= j < k < |ds| ensures ds[j].name != ds[k].name {
      assert ds[j].name[7..] == ts[j].name && ds[k].name[7..] == ts[k].name;
    }
    NamedOnce(ds, i);
  }

  lemma NotDefined(ts: seq<Template>, code: string, name: string, values: Values)
    requires CompilableAll(ts) && forall i :: 0 <= i < |ts| ==> name != "output_" + ts[i].name
    requires Definitions(code).Some? && Defined(ts, Definitions(code).value, values)
    ensures CallFunction(code, name, values) == Malformed
  {
    hide Definitions, Execute;
    NamedNone(Definitions(code).value, name);
  }

  /** The whole file that the compiler prints for a file of templates. */
  function Output(header: string, lines: seq<string>): (r: Option<string>) {
    match FoldLines(LineState(false, "", "", Prelude(header)), lines)
    case None => None
    case Some(s) => Some(s.out)
  }

  lemma OutputDefines(header: string, ts: seq<Template>, after: seq<string>, values: Values)
    requires OneLine(header) && CompilableAll(ts) && Filler(after)
    ensures var code := Output(header, RenderedAll(ts) + after);
      code.Some? && Definitions(code.value).Some? && Defined(ts, Definitions(code.value).value, values)
  {
    hide FoldLines, Definitions, Prelude, Defined;
    var s := LineState(false, "", "", Prelude(header));
    forall i | 0 <= i < |ts| ensures WellFormed(ts[i]) { assert Compilable(ts[i]); }
    ReadsWhatWasPrinted(s, ts);
    FoldConcat(s, RenderedAll(ts), after);
    FoldFiller(FoldLines(s, RenderedAll(ts)).value, after);
    DefinitionsAfterPrelude(header, CompiledAll(ts));
    AllDefined(ts, values);
  }

  /**
   From template file to running program: calling `output_` and the name of a template of the file substitutes
   directly in that template's body; a name without a value is reported and ends the program after everything before
   it was printed.
   */
  lemma TemplateFileRuns(header: string, ts: seq<Template>, after: seq<string>, i: nat, values: Values)
    requires OneLine(header) && CompilableAll(ts) && Filler(after) && i < |ts|
    ensures var code, b := Output(header, RenderedAll(ts) + after), Body(ts[i]);
      && code.Some?
      && (forall text :: Substitute(b, values) == Some(text) ==>
            CallFunction(code.value, "output_" + ts[i].name, values) == Ran(text, ""))
      && (forall name :: FirstMissing(b, values) == Some(name) ==>
            CallFunction(code.value, "output_" + ts[i].name, values) == Exits(PrintedUpTo(b, values), name, ts[i].name))
  {
    hide Output, CallFunction;
    assert Compilable(ts[i]);
    OutputDefines(header, ts, after, values);
    CalledByName(ts, Output(header, RenderedAll(ts) + after).value, i, values);
    PrintedAll(Body(ts[i]), values);
  }

  /** The file defines no other function. */
  lemma NoOtherFunction(header: string, ts: seq<Template>, after: seq<string>, name: string, values: Values)
    requires OneLine(header) && CompilableAll(ts) && Filler(after)
    requires forall i :: 0 <= i < |ts| ==> name != "output_" + ts[i].name
    ensures var code := Output(header, RenderedAll(ts) + after);
      code.Some? && CallFunction(code.value, name, values) == Malformed
  {
    hide Output, CallFunction, Defined, Definitions;
    OutputDefines(header, ts, after, values);
    NotDefined(ts, Output(header, RenderedAll(ts) + after).value, name, values);
  }
}
