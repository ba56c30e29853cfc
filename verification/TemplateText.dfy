/** What a template body means: each `@@name@@` stands for the value of the name. */
module TemplateText {
  import opened Options

  const MARKER := "@@"

  type Values = map<string, string>

  /**
   The position of the first marker, or the length of the text. The scan stops two characters before
   the end, so a marker is only seen when something follows it.
   */
  function FindMarker(b: string): (i: nat)
    ensures i <= |b|
    ensures i < |b| ==> i + 2 < |b|
  {
    if |b| <= 2 then |b|
    else if b[0] == '@' && b[1] == '@' then 0
    else 1 + FindMarker(b[1..])
  }

  /** It is a marker, and no marker stands before it. */
  lemma {:induction false} FindMarkerFirst(b: string, k: nat)
    requires k <= FindMarker(b) && k + 2 < |b|
    ensures k == FindMarker(b) <==> b[k] == '@' && b[k + 1] == '@'
  {
    if k > 0 { FindMarkerFirst(b[1..], k - 1); }
  }

  /** A body as text before a pattern, the pattern's name, and the rest of the body; or text alone. */
  datatype Parsed = Text(text: string) | Pattern(text: string, name: string, rest: string) | Unpaired

  function Parse(b: string): (r: Parsed)
    ensures r.Pattern? ==> |r.rest| < |b|
    ensures r.Text? ==> r.text == b
  {
    var i := FindMarker(b);
    if i == |b| then Text(b)
    else
      var tail := b[i + 2..];
      var j := FindMarker(tail);
      if j == |tail| then Unpaired else Pattern(b[..i], tail[..j], tail[j + 2..])
  }

  /** The pieces put together again are the body. */
  lemma ParseRebuilds(b: string)
    requires Parse(b).Pattern?
    ensures b == Parse(b).text + MARKER + Parse(b).name + MARKER + Parse(b).rest
  {
    hide FindMarker;
    var i := FindMarker(b);
    var tail := b[i + 2..];
    var j := FindMarker(tail);
    CutAtMarker(b, i);
    CutAtMarker(tail, j);
    Reassociate2(b[..i], tail[..j], tail[j + 2..]);
  }

  lemma CutAtMarker(b: string, i: nat)
    requires i == FindMarker(b) < |b|
    ensures b == b[..i] + MARKER + b[i + 2..]
  {
    hide FindMarker;
    FindMarkerFirst(b, i);
    assert b[i..i + 2] == MARKER;
  }

  lemma Reassociate2(text: string, name: string, rest: string)
    ensures text + MARKER + (name + MARKER + rest) == text + MARKER + name + MARKER + rest
  {
  }

  /** The markers pair up. */
  predicate Paired(b: string)
    decreases |b|
  {
    match Parse(b)
    case Text(_) => true
    case Pattern(_, _, rest) => Paired(rest)
    case Unpaired => false
  }

  /** The names a body uses. */
  function Names(b: string): (r: set<string>)
    decreases |b|
  {
    match Parse(b)
    case Pattern(_, name, rest) => {name} + Names(rest)
    case _ => {}
  }

  /** Direct substitution; a name without a value ends the program instead. */
  function Substitute(b: string, values: Values): (r: Option<string>)
    requires Paired(b)
    decreases |b|
  {
    match Parse(b)
    case Text(text) => Some(text)
    case Pattern(text, name, rest) =>
      if name !in values then None
      else
        match Substitute(rest, values)
        case None => None
        case Some(s) => Some(text + values[name] + s)
  }

  /** What has been printed when the first name without a value is reached, or all of it when there is none. */
  function PrintedUpTo(b: string, values: Values): (s: string)
    requires Paired(b)
    decreases |b|
  {
    match Parse(b)
    case Text(text) => text
    case Pattern(text, name, rest) =>
      if name !in values then text else text + values[name] + PrintedUpTo(rest, values)
  }

  /** The first name of the body that has no value. */
  function FirstMissing(b: string, values: Values): (r: Option<string>)
    decreases |b|
  {
    match Parse(b)
    case Pattern(_, name, rest) => if name !in values then Some(name) else FirstMissing(rest, values)
    case _ => None
  }

  /** Every marker from k on, up to the very end of the body. */
  function AllMarkers(b: string, k: nat): (ats: seq<nat>)
    decreases |b| - k
  {
    if k + 2 > |b| then []
    else if b[k] == '@' && b[k + 1] == '@' then [k] + AllMarkers(b, k + 2)
    else AllMarkers(b, k + 1)
  }

  predicate EndsInMarker(b: string, ats: seq<nat>) {
    ats != [] && ats[|ats| - 1] + 2 == |b|
  }

  /** An even number of markers of which none ends the body, or an odd number of which the last one does. */
  predicate ClosedBeforeEnd(b: string, ats: seq<nat>) {
    |ats| % 2 == 0 <==> !EndsInMarker(b, ats)
  }

  lemma TwoMoreMarkers(b: string, x: nat, y: nat, ats: seq<nat>)
    requires y + 2 < |b|
    ensures ClosedBeforeEnd(b, [x] + ([y] + ats)) <==> ClosedBeforeEnd(b, ats)
  {
  }

  lemma NoMarkerLeft(b: string, ats: seq<nat>)
    requires ats == [] || (|b| >= 2 && ats == [|b| - 2])
    ensures ClosedBeforeEnd(b, ats)
  {
  }

  lemma FewMarkers(b: string, x: nat, ats: seq<nat>)
    requires x + 2 < |b| && (ats == [] || ats == [|b| - 2])
    ensures !ClosedBeforeEnd(b, [x] + ats)
  {
  }

  lemma {:induction false} AllMarkersStep(b: string, k: nat)
    requires k <= |b|
    ensures var i := FindMarker(b[k..]);
      if i < |b[k..]| then AllMarkers(b, k) == [k + i] + AllMarkers(b, k + i + 2)
      else AllMarkers(b, k) == [] || (|b| >= 2 && AllMarkers(b, k) == [|b| - 2])
    decreases |b| - k
  {
    if k + 2 == |b| {
      assert AllMarkers(b, k + 1) == [] && AllMarkers(b, k + 2) == [];
    } else if k + 2 < |b| && !(b[k] == '@' && b[k + 1] == '@') {
      assert b[k..][1..] == b[k + 1..];
      AllMarkersStep(b, k + 1);
    }
  }

  /**
   For every body: its markers pair up exactly when their number is even and the last one does not end the
   body, or it is odd and the last one does. A marker that is the very end of a body is not seen.
   */
  lemma ClosingMarkerNeedsFollower(b: string)
    ensures Paired(b) <==> ClosedBeforeEnd(b, AllMarkers(b, 0))
  {
    PairedFrom(b, 0);
    assert b[0..] == b;
  }

  lemma PairedIs(s: string)
    ensures var i := FindMarker(s);
      if i == |s| then Paired(s)
      else
        var tail := s[i + 2..];
        var j := FindMarker(tail);
        if j == |tail| then !Paired(s) else Paired(s) == Paired(tail[j + 2..])
  {
    hide FindMarker;
  }

  lemma {:induction false} PairedFrom(b: string, k: nat)
    requires k <= |b|
    ensures Paired(b[k..]) <==> ClosedBeforeEnd(b, AllMarkers(b, k))
    decreases |b| - k
  {
    hide FindMarker, AllMarkers, ClosedBeforeEnd, Paired;
    var i := FindMarker(b[k..]);
    PairedIs(b[k..]);
    AllMarkersStep(b, k);
    if i == |b[k..]| {
      NoMarkerLeft(b, AllMarkers(b, k));
    } else {
      var tail := k + i + 2;
      assert b[k..][i + 2..] == b[tail..];
      var j := FindMarker(b[tail..]);
      AllMarkersStep(b, tail);
      if j == |b[tail..]| {
        FewMarkers(b, k + i, AllMarkers(b, tail));
      } else {
        assert b[tail..][j + 2..] == b[tail + j + 2..];
        PairedFrom(b, tail + j + 2);
        TwoMoreMarkers(b, k + i, tail + j, AllMarkers(b, tail + j + 2));
      }
    }
  }

  /** Substituting for each name the marked name itself gives back the body. */
  lemma {:induction false} SubstituteMarkedNames(b: string, values: Values)
    requires Paired(b)
    requires forall name :: name in Names(b) ==> name in values && values[name] == MARKER + name + MARKER
    ensures Substitute(b, values) == Some(b)
    decreases |b|
  {
    hide Parse;
    var p := Parse(b);
    if p.Pattern? {
      assert p.name in Names(b);
      forall name | name in Names(p.rest) ensures name in Names(b) {}
      SubstituteMarkedNames(p.rest, values);
      ParseRebuilds(b);
      Reassociate(p.text, p.name, p.rest);
    }
  }

  lemma Reassociate(text: string, name: string, rest: string)
    ensures text + (MARKER + name + MARKER) + rest == text + MARKER + name + MARKER + rest
  {
  }

  /** When every name has a value, all of the body is printed. */
  lemma {:induction false} PrintedAll(b: string, values: Values)
    requires Paired(b)
    ensures FirstMissing(b, values).None? <==> Substitute(b, values).Some?
    ensures FirstMissing(b, values).None? ==> Substitute(b, values) == Some(PrintedUpTo(b, values))
    decreases |b|
  {
    hide Parse;
    var p := Parse(b);
    if p.Pattern? { PrintedAll(p.rest, values); }
  }

  /**
   When a name has no value, it is a name of the body, and exactly the text before it is printed: whatever value it
   is given, and the names after it, the whole substitution begins with that text and then that value.
   */
  lemma {:induction false} PrintedBeforeMissing(b: string, values: Values, more: Values)
    requires Paired(b) && FirstMissing(b, values).Some? && Names(b) <= more.Keys
    requires forall name :: name in values && name in more ==> more[name] == values[name]
    ensures var name := FirstMissing(b, values).value;
      && name in Names(b) && name !in values && Substitute(b, more).Some?
      && PrintedUpTo(b, values) + more[name] <= Substitute(b, more).value
    decreases |b|
  {
    hide Parse;
    var p, name := Parse(b), FirstMissing(b, values).value;
    SubstituteDefined(b, more);
    assert p.name in Names(b);
    var s := Substitute(p.rest, more).value;
    if p.name in values {
      PrintedBeforeMissing(p.rest, values, more);
      PrefixAfter(p.text + values[p.name], PrintedUpTo(p.rest, values) + more[name], s);
      assert p.text + values[p.name] + (PrintedUpTo(p.rest, values) + more[name])
          == PrintedUpTo(b, values) + more[name];
    }
  }

  lemma PrefixAfter(a: string, b: string, s: string)
    requires b <= s
    ensures a + b <= a + s
  {
  }

  /** Substitution succeeds exactly when every name of the body has a value. */
  lemma {:induction false} SubstituteDefined(b: string, values: Values)
    requires Paired(b)
    ensures Substitute(b, values).Some? <==> Names(b) <= values.Keys
    decreases |b|
  {
    var p := Parse(b);
    if p.Pattern? {
      SubstituteDefined(p.rest, values);
    }
  }
}
