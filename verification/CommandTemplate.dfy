/**
 * Command templates: `{{name}}` placeholders filled by one text replacement per allowed parameter.
 *
 * A template is read as a list of pieces, plain text and holes; the results below compare the
 * replacement loop with filling all the holes at once.
 */
module CommandTemplate {
  import opened Common

  datatype Value = Str(text: string) | Num(text: string) | Boolean(value: bool) | NotScalar

  datatype RenderError = UnknownParam(name: string) | MissingValue(name: string) | InvalidValue(name: string)

  type Params = map<string, Value>

  function TextOf(v: Value): string
    requires !v.NotScalar?
  {
    match v
    case Str(t) => t
    case Num(t) => t
    case Boolean(b) => if b then "true" else "false"
  }

  // ---------------------------------------------------------------- text search and replacement

  predicate Contains(s: string, p: string) {
    p <= s || (s != [] && Contains(s[1..], p))
  }

  /** Replaces the occurrences of `p` from left to right, without overlap. */
  function ReplaceAll(s: string, p: string, r: string): string
    requires p != []
  {
    if s == [] then []
    else if p <= s then r + ReplaceAll(s[|p|..], p, r)
    else [s[0]] + ReplaceAll(s[1..], p, r)
  }

  function Placeholder(name: string): (p: string)
    ensures |p| == |name| + 4 && p[0] == '{' && p[1] == '{'
  {
    "{{" + name + "}}"
  }

  // ---------------------------------------------------------------- rendering

  /** The replacement loop over the allowed names, in their order. */
  function RenderFrom(rendered: string, allowed: seq<string>, params: Params): Result<string, RenderError>
    decreases |allowed|
  {
    if allowed == [] then Ok(rendered)
    else
      var key := allowed[0];
      if !Contains(rendered, Placeholder(key)) then RenderFrom(rendered, allowed[1..], params)
      else if key !in params then Err(MissingValue(key))
      else if params[key].NotScalar? then Err(InvalidValue(key))
      else RenderFrom(ReplaceAll(rendered, Placeholder(key), TextOf(params[key])), allowed[1..], params)
  }

  predicate KeysAllowed(allowed: seq<string>, params: Params) {
    forall k :: k in params ==> k in allowed
  }

  /** `render_command` */
  method RenderCommand(template: string, allowed: seq<string>, params: Params) returns (result: Result<string, RenderError>)
    ensures (result.Err? && result.error.UnknownParam?) <==> !KeysAllowed(allowed, params)
    ensures result.Err? && result.error.UnknownParam? ==> result.error.name in params && result.error.name !in allowed
    ensures KeysAllowed(allowed, params) ==> result == RenderFrom(template, allowed, params)
  {
    NoUnknownFromLoop(template, allowed, params);
    var keys := params.Keys;
    while keys != {}
      invariant keys <= params.Keys
      invariant forall k :: k in params.Keys - keys ==> k in allowed
    {
      var key :| key in keys;
      if key !in allowed {
        return Err(UnknownParam(key));
      }
      keys := keys - {key};
    }
    assert KeysAllowed(allowed, params);
    var rendered := template;
    for i := 0 to |allowed|
      invariant RenderFrom(template, allowed, params) == RenderFrom(rendered, allowed[i..], params)
    {
      var key := allowed[i];
      var placeholder := Placeholder(key);
      assert allowed[i..][1..] == allowed[i + 1..];
      if Contains(rendered, placeholder) {
        if key !in params {
          return Err(MissingValue(key));
        }
        if params[key].NotScalar? {
          return Err(InvalidValue(key));
        }
        rendered := ReplaceAll(rendered, placeholder, TextOf(params[key]));
      }
    }
    return Ok(rendered);
  }

  lemma {:induction false} NoUnknownFromLoop(rendered: string, allowed: seq<string>, params: Params)
    ensures RenderFrom(rendered, allowed, params).Err? ==> !RenderFrom(rendered, allowed, params).error.UnknownParam?
    decreases |allowed|
  {
    if allowed != [] {
      var key := allowed[0];
      NoUnknownFromLoop(rendered, allowed[1..], params);
      if key in params && !params[key].NotScalar? {
        NoUnknownFromLoop(ReplaceAll(rendered, Placeholder(key), TextOf(params[key])), allowed[1..], params);
      }
    }
  }

  // ---------------------------------------------------------------- templates as pieces

  datatype Piece = Lit(text: string) | Hole(name: string)

  function PieceText(p: Piece): string {
    match p
    case Lit(t) => t
    case Hole(n) => Placeholder(n)
  }

  function Flatten(ps: seq<Piece>): string {
    if ps == [] then [] else PieceText(ps[0]) + Flatten(ps[1..])
  }

  predicate BraceFree(s: string) {
    forall i :: 0 <= i < |s| ==> s[i] != '{' && s[i] != '}'
  }

  predicate NoOpen(s: string) {
    forall i :: 0 <= i < |s| ==> s[i] != '{'
  }

  /** Text may hold closing braces: without an opening one no placeholder starts in it. */
  predicate CleanPiece(p: Piece) {
    match p
    case Lit(t) => NoOpen(t)
    case Hole(n) => BraceFree(n)
  }

  predicate Clean(ps: seq<Piece>) {
    forall i :: 0 <= i < |ps| ==> CleanPiece(ps[i])
  }

  /** One hole filled everywhere. */
  function FillPiece(p: Piece, name: string, value: string): Piece {
    if p == Hole(name) then Lit(value) else p
  }

  function FillOne(ps: seq<Piece>, name: string, value: string): seq<Piece> {
    seq(|ps|, i requires 0 <= i < |ps| => FillPiece(ps[i], name, value))
  }

  /** Text without an opening brace holds no part of a placeholder's start. */
  lemma {:induction false} SkipText(t: string, s: string, p: string, r: string)
    requires NoOpen(t) && p != [] && p[0] == '{'
    ensures ReplaceAll(t + s, p, r) == t + ReplaceAll(s, p, r)
    ensures Contains(t + s, p) <==> Contains(s, p)
  {
    if t == [] {
      assert t + s == s;
    } else {
      SkipText(t[1..], s, p, r);
      assert (t + s)[1..] == t[1..] + s;
      assert (t + s)[0] == t[0];
    }
  }

  /** At a hole's own start only its own placeholder matches. */
  lemma PlaceholderMatches(k: string, n: string, s: string)
    requires BraceFree(k) && BraceFree(n)
    ensures Placeholder(k) <= Placeholder(n) + s <==> k == n
  {
    var p, t := Placeholder(k), Placeholder(n) + s;
    assert forall i :: 0 <= i < |k| ==> p[2 + i] == k[i];
    assert forall i :: 0 <= i < |n| ==> t[2 + i] == n[i];
    assert p[2 + |k|] == '}' && t[2 + |n|] == '}';
    if p <= t {
      assert forall i :: 0 <= i < |p| ==> p[i] == t[i];
      forall i | 0 <= i < |k| && i < |n| ensures k[i] == n[i] {
        assert p[2 + i] == t[2 + i];
      }
      assert p[2 + |k|] == t[2 + |k|];
    }
  }

  /** Replacing steps over a hole with another name. */
  lemma SkipHole(k: string, n: string, s: string, r: string)
    requires BraceFree(k) && BraceFree(n) && k != n
    ensures ReplaceAll(Placeholder(n) + s, Placeholder(k), r) == Placeholder(n) + ReplaceAll(s, Placeholder(k), r)
    ensures Contains(Placeholder(n) + s, Placeholder(k)) <==> Contains(s, Placeholder(k))
  {
    var p := Placeholder(k);
    var tail := n + "}}";
    var one := "{" + tail + s;
    var two := Placeholder(n) + s;
    PlaceholderMatches(k, n, s);
    assert two[1..] == one && one[1..] == tail + s;
    assert one[1] != '{' && !(p <= one) && one[0] == '{' && two[0] == '{';
    SkipText(tail, s, p, r);
    var rest := ReplaceAll(s, p, r);
    assert ['{'] + (['{'] + (tail + rest)) == Placeholder(n) + rest;
  }

  lemma {:induction false} ReplaceFillsHole(ps: seq<Piece>, k: string, value: string)
    requires Clean(ps) && BraceFree(k)
    ensures ReplaceAll(Flatten(ps), Placeholder(k), value) == Flatten(FillOne(ps, k, value))
    ensures Contains(Flatten(ps), Placeholder(k)) <==> Hole(k) in ps
  {
    if ps != [] {
      var s, p := Flatten(ps[1..]), Placeholder(k);
      ReplaceFillsHole(ps[1..], k, value);
      assert FillOne(ps, k, value)[1..] == FillOne(ps[1..], k, value);
      assert CleanPiece(ps[0]);
      match ps[0] {
        case Lit(t) => SkipText(t, s, p, value);
        case Hole(n) =>
          PlaceholderMatches(k, n, s);
          if n == k {
            assert (p + s)[|p|..] == s;
          } else {
            SkipHole(k, n, s, value);
          }
      }
    }
  }

  // ---------------------------------------------------------------- all holes at once

  /** The value of an allowed hole, if it has one that can be written. */
  predicate Fillable(name: string, params: Params) {
    name in params && !params[name].NotScalar?
  }

  predicate CleanValues(params: Params) {
    forall k :: k in params && !params[k].NotScalar? ==> NoOpen(TextOf(params[k]))
  }

  predicate CleanNames(names: seq<string>) {
    forall i :: 0 <= i < |names| ==> BraceFree(names[i])
  }

  /** Every allowed hole of the template has a value. */
  predicate AllFillable(ps: seq<Piece>, allowed: seq<string>, params: Params) {
    forall k :: k in allowed && Hole(k) in ps ==> Fillable(k, params)
  }

  /** One pass: allowed holes become their values, everything else is copied. */
  function SubstitutePiece(p: Piece, allowed: seq<string>, params: Params): string {
    if p.Hole? && p.name in allowed && Fillable(p.name, params) then TextOf(params[p.name]) else PieceText(p)
  }

  function Substitute(ps: seq<Piece>, allowed: seq<string>, params: Params): string {
    if ps == [] then [] else SubstitutePiece(ps[0], allowed, params) + Substitute(ps[1..], allowed, params)
  }

  lemma {:induction false} SubstituteNothing(ps: seq<Piece>, params: Params)
    ensures Substitute(ps, [], params) == Flatten(ps)
  {
    if ps != [] {
      SubstituteNothing(ps[1..], params);
    }
  }

  /** Filling the first name and then the others is filling all of them. */
  lemma {:induction false} SubstituteSplits(ps: seq<Piece>, allowed: seq<string>, params: Params)
    requires allowed != [] && Fillable(allowed[0], params)
    ensures Substitute(FillOne(ps, allowed[0], TextOf(params[allowed[0]])), allowed[1..], params) == Substitute(ps, allowed, params)
  {
    if ps != [] {
      var k, v := allowed[0], TextOf(params[allowed[0]]);
      SubstituteSplits(ps[1..], allowed, params);
      PieceSplits(ps[0], allowed, params);
      assert FillOne(ps, k, v)[1..] == FillOne(ps[1..], k, v) && FillOne(ps, k, v)[0] == FillPiece(ps[0], k, v);
    }
  }

  lemma PieceSplits(p: Piece, allowed: seq<string>, params: Params)
    requires allowed != [] && Fillable(allowed[0], params)
    ensures SubstitutePiece(FillPiece(p, allowed[0], TextOf(params[allowed[0]])), allowed[1..], params) == SubstitutePiece(p, allowed, params)
  {
    assert allowed == [allowed[0]] + allowed[1..];
  }

  /** A name without a hole plays no part. */
  lemma {:induction false} SubstituteSkips(ps: seq<Piece>, allowed: seq<string>, params: Params)
    requires allowed != [] && Hole(allowed[0]) !in ps
    ensures Substitute(ps, allowed[1..], params) == Substitute(ps, allowed, params)
  {
    if ps != [] {
      assert ps[0] in ps && forall p :: p in ps[1..] ==> p in ps;
      SubstituteSkips(ps[1..], allowed, params);
      assert allowed == [allowed[0]] + allowed[1..];
    }
  }

  lemma FillKeepsClean(ps: seq<Piece>, k: string, value: string)
    requires Clean(ps) && NoOpen(value)
    ensures Clean(FillOne(ps, k, value))
    ensures forall n :: Hole(n) in FillOne(ps, k, value) <==> Hole(n) in ps && n != k
  {
    var qs := FillOne(ps, k, value);
    forall i | 0 <= i < |ps| ensures CleanPiece(qs[i]) {
      assert CleanPiece(ps[i]);
    }
    forall n | Hole(n) in ps && n != k ensures Hole(n) in qs {
      var i :| 0 <= i < |ps| && ps[i] == Hole(n);
      assert qs[i] == Hole(n);
    }
  }

  /**
   * With brace-free names, and no opening brace in values and text, the replacement loop is
   * simultaneous substitution: it succeeds exactly when every allowed hole has a value, and then fills all of them in one pass.
   */
  lemma {:induction false} LoopIsSubstitution(ps: seq<Piece>, allowed: seq<string>, params: Params)
    requires Clean(ps) && CleanNames(allowed) && CleanValues(params)
    ensures RenderFrom(Flatten(ps), allowed, params).Ok? <==> AllFillable(ps, allowed, params)
    ensures AllFillable(ps, allowed, params) ==> RenderFrom(Flatten(ps), allowed, params) == Ok(Substitute(ps, allowed, params))
    decreases |allowed|
  {
    if allowed == [] {
      SubstituteNothing(ps, params);
      return;
    }
    var k := allowed[0];
    ReplaceFillsHole(ps, k, "");
    assert allowed == [k] + allowed[1..];
    if Hole(k) !in ps {
      SubstituteSkips(ps, allowed, params);
      LoopIsSubstitution(ps, allowed[1..], params);
    } else if Fillable(k, params) {
      var value := TextOf(params[k]);
      var qs := FillOne(ps, k, value);
      ReplaceFillsHole(ps, k, value);
      FillKeepsClean(ps, k, value);
      SubstituteSplits(ps, allowed, params);
      LoopIsSubstitution(qs, allowed[1..], params);
      assert AllFillable(ps, allowed, params) <==> AllFillable(qs, allowed[1..], params);
    }
  }

  lemma {:induction false} SubstituteByMembers(ps: seq<Piece>, a: seq<string>, b: seq<string>, params: Params)
    requires forall k :: k in a <==> k in b
    ensures Substitute(ps, a, params) == Substitute(ps, b, params)
  {
    if ps != [] {
      SubstituteByMembers(ps[1..], a, b, params);
    }
  }

  /** The order of the allowed names, and repetitions among them, do not matter. */
  lemma OrderIrrelevant(ps: seq<Piece>, a: seq<string>, b: seq<string>, params: Params)
    requires Clean(ps) && CleanNames(a) && CleanNames(b) && CleanValues(params)
    requires forall k :: k in a <==> k in b
    ensures RenderFrom(Flatten(ps), a, params).Ok? <==> RenderFrom(Flatten(ps), b, params).Ok?
    ensures RenderFrom(Flatten(ps), a, params).Ok? ==> RenderFrom(Flatten(ps), a, params) == RenderFrom(Flatten(ps), b, params)
  {
    LoopIsSubstitution(ps, a, params);
    LoopIsSubstitution(ps, b, params);
    SubstituteByMembers(ps, a, b, params);
  }

  /** All holes filled, as pieces. */
  function FilledPiece(p: Piece, allowed: seq<string>, params: Params): Piece {
    if p.Hole? && p.name in allowed && Fillable(p.name, params) then Lit(TextOf(params[p.name])) else p
  }

  function Filled(ps: seq<Piece>, allowed: seq<string>, params: Params): seq<Piece> {
    seq(|ps|, i requires 0 <= i < |ps| => FilledPiece(ps[i], allowed, params))
  }

  lemma {:induction false} SubstituteFlattens(ps: seq<Piece>, allowed: seq<string>, params: Params)
    ensures Substitute(ps, allowed, params) == Flatten(Filled(ps, allowed, params))
  {
    if ps != [] {
      SubstituteFlattens(ps[1..], allowed, params);
      assert Filled(ps, allowed, params)[1..] == Filled(ps[1..], allowed, params);
    }
  }

  /** A rendered command holds no placeholder of an allowed name. */
  lemma NoAllowedPlaceholderLeft(ps: seq<Piece>, allowed: seq<string>, params: Params, k: string)
    requires Clean(ps) && CleanNames(allowed) && CleanValues(params) && k in allowed
    requires RenderFrom(Flatten(ps), allowed, params).Ok?
    ensures !Contains(RenderFrom(Flatten(ps), allowed, params).value, Placeholder(k))
  {
    LoopIsSubstitution(ps, allowed, params);
    SubstituteFlattens(ps, allowed, params);
    var qs := Filled(ps, allowed, params);
    forall i | 0 <= i < |ps| ensures CleanPiece(qs[i]) && qs[i] != Hole(k) {
      assert CleanPiece(ps[i]) && ps[i] in ps;
    }
    ReplaceFillsHole(qs, k, "");
  }

  /** A value with braces is read again as a placeholder, so the order of the names shows. */
  lemma BracesInValuesBreakOrder()
    ensures var params := map["a" := Str("{{b}}"), "b" := Str("x")];
      && RenderFrom("{{a}}", ["a", "b"], params) == Ok("x")
      && RenderFrom("{{a}}", ["b", "a"], params) == Ok("{{b}}")
      && Substitute([Hole("a")], ["a", "b"], params) == "{{b}}"
  {
    var params := map["a" := Str("{{b}}"), "b" := Str("x")];
    var pa, pb := "{{a}}", "{{b}}";
    assert Placeholder("a") == pa && Placeholder("b") == pb;
    WholeReplaced(pa, pb);
    WholeReplaced(pb, "x");
    assert pa[1..] == "{a}}" && "{a}}"[1..] == "a}}" && "a}}"[1..] == "}}" && "}}"[1..] == "}" && "}"[1..] == "";
    assert !Contains("", pb) && !Contains("}", pb) && !Contains("}}", pb) && !Contains("a}}", pb) && !Contains("{a}}", pb);
    assert !(pb <= pa) by { assert pb[2] != pa[2]; }
    assert !Contains(pa, pb);
    var ab, ba := ["a", "b"], ["b", "a"];
    assert ab[1..] == ["b"] && ["b"][1..] == [] && ba[1..] == ["a"] && ["a"][1..] == [];
    assert RenderFrom(pa, ab, params) == RenderFrom(pb, ["b"], params) == RenderFrom("x", [], params);
    assert RenderFrom(pa, ba, params) == RenderFrom(pa, ["a"], params) == RenderFrom(pb, [], params);
    assert [Hole("a")][1..] == [];
  }

  lemma WholeReplaced(p: string, r: string)
    requires p != []
    ensures Contains(p, p) && ReplaceAll(p, p, r) == r
  {
    assert p[|p|..] == [];
  }

  /** How values are written. */
  lemma ValueTexts(t: string)
    ensures TextOf(Str(t)) == t && TextOf(Num(t)) == t && TextOf(Boolean(true)) == "true" && TextOf(Boolean(false)) == "false"
  {
  }

  /** One turn of the loop on clean pieces: skip a name without a hole, fill a hole, or report. */
  lemma RenderTurn(ps: seq<Piece>, allowed: seq<string>, params: Params)
    requires Clean(ps) && CleanNames(allowed) && CleanValues(params) && allowed != []
    ensures var k, r := allowed[0], RenderFrom(Flatten(ps), allowed, params);
      && (Hole(k) !in ps ==> r == RenderFrom(Flatten(ps), allowed[1..], params))
      && (Hole(k) in ps && Fillable(k, params) ==> r == RenderFrom(Flatten(FillOne(ps, k, TextOf(params[k]))), allowed[1..], params))
      && (Hole(k) in ps && k !in params ==> r == Err(MissingValue(k)))
      && (Hole(k) in ps && k in params && params[k].NotScalar? ==> r == Err(InvalidValue(k)))
  {
    var k := allowed[0];
    ReplaceFillsHole(ps, k, if Fillable(k, params) then TextOf(params[k]) else "");
  }

  /** The first allowed name that has a hole and no value, or a value that cannot be written, as an error. */
  function FirstError(ps: seq<Piece>, allowed: seq<string>, params: Params): Option<RenderError> {
    if allowed == [] then None
    else if Hole(allowed[0]) !in ps || Fillable(allowed[0], params) then FirstError(ps, allowed[1..], params)
    else if allowed[0] !in params then Some(MissingValue(allowed[0]))
    else Some(InvalidValue(allowed[0]))
  }

  lemma {:induction false} FirstErrorIs(ps: seq<Piece>, allowed: seq<string>, params: Params) returns (i: nat)
    requires FirstError(ps, allowed, params).Some?
    ensures i < |allowed| && Hole(allowed[i]) in ps && !Fillable(allowed[i], params)
    ensures forall j :: 0 <= j < i && Hole(allowed[j]) in ps ==> Fillable(allowed[j], params)
    ensures FirstError(ps, allowed, params).value == if allowed[i] !in params then MissingValue(allowed[i]) else InvalidValue(allowed[i])
  {
    i := 0;
    if Hole(allowed[0]) !in ps || Fillable(allowed[0], params) {
      var n := FirstErrorIs(ps, allowed[1..], params);
      i := n + 1;
    }
  }

  /** Filling the holes of a name that has a value changes no error. */
  lemma {:induction false} FirstErrorAfterFilling(ps: seq<Piece>, qs: seq<Piece>, k: string, allowed: seq<string>, params: Params)
    requires Fillable(k, params) && forall n :: n != k ==> (Hole(n) in qs <==> Hole(n) in ps)
    ensures FirstError(qs, allowed, params) == FirstError(ps, allowed, params)
  {
    if allowed != [] {
      FirstErrorAfterFilling(ps, qs, k, allowed[1..], params);
    }
  }

  function ErrorOf(r: Result<string, RenderError>): Option<RenderError> {
    if r.Err? then Some(r.error) else None
  }

  /** A failing rendering reports the first bad name, as missing or as invalid. */
  lemma {:induction false} ReportsFirstError(ps: seq<Piece>, allowed: seq<string>, params: Params)
    requires Clean(ps) && CleanNames(allowed) && CleanValues(params)
    ensures ErrorOf(RenderFrom(Flatten(ps), allowed, params)) == FirstError(ps, allowed, params)
    decreases |allowed|
  {
    if allowed != [] {
      var k := allowed[0];
      RenderTurn(ps, allowed, params);
      if Hole(k) !in ps {
        ReportsFirstError(ps, allowed[1..], params);
      } else if Fillable(k, params) {
        var qs := FillOne(ps, k, TextOf(params[k]));
        FillKeepsClean(ps, k, TextOf(params[k]));
        ReportsFirstError(qs, allowed[1..], params);
        FirstErrorAfterFilling(ps, qs, k, allowed[1..], params);
      }
    }
  }
}
