/**
  The attribute, DOM-property, class and style generators of the SSR
  optimizing compiler, and its `v-model` fix-up. Each generator classifies
  what it is given as static text, written out as it is (a RAW segment), or
  as a dynamic expression evaluated at render time (an EXPRESSION segment).
  The attribute tables and JSON helpers they call are parameters.
 */
module SsrModules {
  import opened Wrappers
  import opened JsString

  datatype SegmentType = Raw | Expression

  /** A piece of generated output: static text, or the source of an expression. */
  datatype Segment = Segment(kind: SegmentType, value: string)

  /** An attribute or property of the template AST: a name and the source text of its value. */
  datatype Attr = Attr(name: string, value: string)

  /**
    What the generators call but is defined elsewhere: the attribute tables
    `isBooleanAttr`, `isEnumeratedAttr`, `isRenderableAttr` and
    `propsToAttrMap` (`None` for a name the map lacks), and `JSON.parse`
    (`None` when it throws) and `JSON.stringify` on strings.
   */
  datatype Env = Env(
    isBooleanAttr: string -> bool,
    isEnumeratedAttr: string -> bool,
    isRenderableAttr: string -> bool,
    propsToAttrMap: string -> Option<string>,
    jsonParse: string -> Option<string>,
    jsonStringify: string -> string)

  /* ------------------------------------------------------------------ */
  /* Quoted literals                                                     */
  /* ------------------------------------------------------------------ */

  /** `(?:[^q\\]|\\.)*` matches all of `s`: plain characters other than the quote and `\`, or `\` and a character `.` accepts. */
  predicate LiteralBody(s: string, q: char)
    decreases |s|
  {
    || s == []
    || (s[0] != q && s[0] != '\\' && LiteralBody(s[1..], q))
    || (|s| >= 2 && s[0] == '\\' && !IsLineTerminator(s[1]) && LiteralBody(s[2..], q))
  }

  /** `n` is a literal quoted with `q` from end to end. */
  predicate QuotedWith(n: string, q: char) {
    |n| >= 2 && n[0] == q && n[|n| - 1] == q && LiteralBody(n[1..|n| - 1], q)
  }

  /** The test `/^"(?:[^"\\]|\\.)*"$|^'(?:[^'\\]|\\.)*'$/.test(n)`. */
  predicate IsStringLiteral(n: string) {
    QuotedWith(n, '"') || QuotedWith(n, '\'')
  }

  /** A literal body never holds its own quote unescaped: every quote in it follows a `\`. */
  lemma {:induction false} LiteralBodyEscapesQuotes(s: string, q: char, k: nat)
    requires q == '"' || q == '\''
    requires LiteralBody(s, q) && k < |s| && s[k] == q
    ensures k > 0 && s[k - 1] == '\\'
    decreases |s|
  {
    if s[0] != q && s[0] != '\\' && LiteralBody(s[1..], q) {
      LiteralBodyEscapesQuotes(s[1..], q, k - 1);
      if k > 1 {
        assert s[k - 1] == s[1..][k - 2];
      }
    } else {
      if k > 1 {
        LiteralBodyEscapesQuotes(s[2..], q, k - 2);
        if k > 2 {
          assert s[k - 1] == s[2..][k - 3];
        }
      }
    }
  }

  /** `n.replace(/^'|'$/g, '"')`: a `'` at either end becomes `"`. */
  function ReplaceEdgeQuotes(n: string): (r: string)
    ensures |r| == |n|
  {
    if |n| == 0 then n
    else if |n| == 1 then (if n[0] == '\'' then "\"" else n)
    else
      (if n[0] == '\'' then "\"" else [n[0]]) + n[1..|n| - 1] + (if n[|n| - 1] == '\'' then "\"" else [n[|n| - 1]])
  }

  /** Either kind of literal comes out double-quoted around the same body. */
  lemma ReplaceEdgeQuotesKeepsBody(n: string)
    requires IsStringLiteral(n)
    ensures var r := ReplaceEdgeQuotes(n);
            && r == "\"" + n[1..|n| - 1] + "\""
            && (QuotedWith(n, '"') ==> r == n)
  {
    if QuotedWith(n, '"') {
      assert n == [n[0]] + n[1..|n| - 1] + [n[|n| - 1]];
    }
  }

  /* ------------------------------------------------------------------ */
  /* `c`: one attribute                                                  */
  /* ------------------------------------------------------------------ */

  /** ` m="text"`. */
  function Assign(m: string, text: string): string {
    " " + m + "=\"" + text + "\""
  }

  /** The literal value `n` of attribute `m` after quote normalisation and enumerated-attribute coercion. */
  function CoercedLiteral(env: Env, m: string, n: string): string {
    var n1 := ReplaceEdgeQuotes(n);
    if env.isEnumeratedAttr(m) && n1 != "\"false\"" then "\"true\"" else n1
  }

  /**
    `c(m, n)`: a quoted literal becomes static text — ` m="m"` for a boolean
    attribute, a bare ` m` for an empty value, else the parsed value in
    double quotes — and anything else the call `_ssrAttr("m",n)`.
    `Failure` carries the text `JSON.parse` rejected.
   */
  function GenAttrSegment(env: Env, m: string, n: string): (r: Result<Segment, string>)
    ensures r.Failure? ==> IsStringLiteral(n) && !env.isBooleanAttr(m)
  {
    if IsStringLiteral(n) then
      var v := CoercedLiteral(env, m, n);
      if env.isBooleanAttr(m) then Success(Segment(Raw, Assign(m, m)))
      else if v == "\"\"" then Success(Segment(Raw, " " + m))
      else match env.jsonParse(v)
        case None => Failure(v)
        case Some(text) => Success(Segment(Raw, Assign(m, text)))
    else
      Success(Segment(Expression, "_ssrAttr(" + env.jsonStringify(m) + "," + n + ")"))
  }

  /**
    A non-empty literal of a non-boolean attribute fails exactly when
    `JSON.parse` rejects the coerced text, and otherwise renders the parsed
    value in double quotes.
   */
  lemma LiteralAttrRendersParse(env: Env, m: string, n: string)
    requires IsStringLiteral(n) && !env.isBooleanAttr(m) && CoercedLiteral(env, m, n) != "\"\""
    ensures GenAttrSegment(env, m, n).Failure? <==> env.jsonParse(CoercedLiteral(env, m, n)).None?
    ensures GenAttrSegment(env, m, n).Success? ==>
              GenAttrSegment(env, m, n).value == Segment(Raw, Assign(m, env.jsonParse(CoercedLiteral(env, m, n)).value))
  {
  }

  /** The segment is an expression exactly when the value is not a quoted literal, and only a literal can fail. */
  lemma AttrSegmentKind(env: Env, m: string, n: string)
    ensures !IsStringLiteral(n) ==> GenAttrSegment(env, m, n).Success?
    ensures GenAttrSegment(env, m, n).Success? ==>
              (GenAttrSegment(env, m, n).value.kind == Expression <==> !IsStringLiteral(n))
  {
  }

  /** A dynamic value is handed to `_ssrAttr` unchanged, after the name as a JSON string. */
  lemma DynamicValuePassedThrough(env: Env, m: string, n: string)
    requires !IsStringLiteral(n)
    ensures var s := GenAttrSegment(env, m, n).value.value;
            && s[..9] == "_ssrAttr("
            && s[|s| - |n| - 1..] == n + ")"
  {
    var s := "_ssrAttr(" + env.jsonStringify(m) + "," + n + ")";
    assert s == "_ssrAttr(" + (env.jsonStringify(m) + "," + n + ")");
    assert s == ("_ssrAttr(" + env.jsonStringify(m) + ",") + (n + ")");
  }

  /** A boolean attribute with a literal value always renders as ` m="m"`, whatever the value. */
  lemma BooleanAttrRendersOwnName(env: Env, m: string, n: string)
    requires IsStringLiteral(n) && env.isBooleanAttr(m)
    ensures GenAttrSegment(env, m, n) == Success(Segment(Raw, " " + m + "=\"" + m + "\""))
  {
  }

  /** An enumerated attribute renders `"true"` for every literal except `"false"` and `'false'`. */
  lemma EnumeratedAttrForcedTrue(env: Env, m: string, n: string)
    requires IsStringLiteral(n) && env.isEnumeratedAttr(m) && !env.isBooleanAttr(m)
    requires n != "\"false\"" && n != "'false'"
    ensures CoercedLiteral(env, m, n) == "\"true\""
    ensures GenAttrSegment(env, m, n).Success? ==> GenAttrSegment(env, m, n).value == Segment(Raw, Assign(m, env.jsonParse("\"true\"").value))
  {
    ReplaceEdgeQuotesKeepsBody(n);
    LiteralOfBody(n, "false");
    var d := "\"" + n[1..|n| - 1] + "\"";
    assert d[1..|d| - 1] == n[1..|n| - 1];
    assert "\"false\""[1..6] == "false";
  }

  /** A literal is determined by its quote and its body. */
  lemma LiteralOfBody(n: string, body: string)
    requires IsStringLiteral(n)
    ensures n[1..|n| - 1] == body ==> n == "\"" + body + "\"" || n == "'" + body + "'"
  {
    if n[1..|n| - 1] == body {
      assert n == [n[0]] + body + [n[|n| - 1]];
    }
  }

  /** An empty literal, `""` or `''`, of an attribute neither boolean nor enumerated renders as the bare name. */
  lemma EmptyLiteralRendersBareName(env: Env, m: string, n: string)
    requires n == "\"\"" || n == "''"
    requires !env.isBooleanAttr(m) && !env.isEnumeratedAttr(m)
    ensures GenAttrSegment(env, m, n) == Success(Segment(Raw, " " + m))
  {
    assert n[1..|n| - 1] == [];
    assert IsStringLiteral(n);
  }

  /** A body valid under both quotes gives the same segment single- or double-quoted. */
  lemma QuoteStyleIrrelevant(env: Env, m: string, body: string)
    requires LiteralBody(body, '"') && LiteralBody(body, '\'')
    ensures GenAttrSegment(env, m, "'" + body + "'") == GenAttrSegment(env, m, "\"" + body + "\"")
  {
    var s := "'" + body + "'";
    var d := "\"" + body + "\"";
    assert s[1..|s| - 1] == body && d[1..|d| - 1] == body;
    assert QuotedWith(s, '\'') && QuotedWith(d, '"');
    ReplaceEdgeQuotesKeepsBody(s);
    ReplaceEdgeQuotesKeepsBody(d);
  }

  /* ------------------------------------------------------------------ */
  /* `a` and `b`: lists of attributes                                     */
  /* ------------------------------------------------------------------ */

  /** `c` applied to each attribute in order; the first failure stops the list. */
  function AttrSegments(env: Env, z: seq<Attr>): (r: Result<seq<Segment>, string>)
    decreases |z|
  {
    if z == [] then Success([])
    else
      var s :- GenAttrSegment(env, z[0].name, z[0].value);
      var rest :- AttrSegments(env, z[1..]);
      Success([s] + rest)
  }

  /** `a` succeeds exactly when each attribute does, and then gives one segment per attribute, in order. */
  lemma {:induction false} AttrSegmentsOnePerAttr(env: Env, z: seq<Attr>)
    ensures AttrSegments(env, z).Success? <==> forall i :: 0 <= i < |z| ==> GenAttrSegment(env, z[i].name, z[i].value).Success?
    ensures AttrSegments(env, z).Success? ==>
              && |AttrSegments(env, z).value| == |z|
              && forall i :: 0 <= i < |z| ==> AttrSegments(env, z).value[i] == GenAttrSegment(env, z[i].name, z[i].value).value
    decreases |z|
  {
    if z != [] {
      AttrSegmentsOnePerAttr(env, z[1..]);
      var r := AttrSegments(env, z);
      if r.Success? {
        var rest := AttrSegments(env, z[1..]).value;
        forall i | 1 <= i < |z|
          ensures r.value[i] == GenAttrSegment(env, z[i].name, z[i].value).value
        {
          assert z[i] == z[1..][i - 1] && r.value[i] == rest[i - 1];
        }
      } else if GenAttrSegment(env, z[0].name, z[0].value).Success? {
        var i :| 0 <= i < |z[1..]| && GenAttrSegment(env, z[1..][i].name, z[1..][i].value).Failure?;
        assert z[i + 1] == z[1..][i];
      }
    }
  }

  /** `a` fails with the error of the first attribute that fails. */
  lemma {:induction false} AttrSegmentsFirstFailure(env: Env, z: seq<Attr>, k: nat)
    requires k < |z| && GenAttrSegment(env, z[k].name, z[k].value).Failure?
    requires forall i :: 0 <= i < k ==> GenAttrSegment(env, z[i].name, z[i].value).Success?
    ensures AttrSegments(env, z) == Failure(GenAttrSegment(env, z[k].name, z[k].value).error)
    decreases k
  {
    if k > 0 {
      forall i | 0 <= i < k - 1
        ensures GenAttrSegment(env, z[1..][i].name, z[1..][i].value).Success?
      {
        assert z[1..][i] == z[i + 1];
      }
      AttrSegmentsFirstFailure(env, z[1..], k - 1);
    }
  }

  /** Appending an attribute to a list that succeeds appends its segment, or fails with its error. */
  lemma {:induction false} AttrSegmentsAppend(env: Env, z: seq<Attr>, x: Attr)
    requires AttrSegments(env, z).Success?
    ensures AttrSegments(env, z + [x]) ==
              match GenAttrSegment(env, x.name, x.value)
              case Failure(e) => Failure(e)
              case Success(s) => Success(AttrSegments(env, z).value + [s])
    decreases |z|
  {
    if z == [] {
      assert z + [x] == [x] && [x][1..] == [];
      if GenAttrSegment(env, x.name, x.value).Success? {
        assert [] + [GenAttrSegment(env, x.name, x.value).value] == [GenAttrSegment(env, x.name, x.value).value] + [];
      }
    } else {
      assert (z + [x])[0] == z[0] && (z + [x])[1..] == z[1..] + [x];
      AttrSegmentsAppend(env, z[1..], x);
      var s := GenAttrSegment(env, z[0].name, z[0].value).value;
      if GenAttrSegment(env, x.name, x.value).Success? {
        assert [s] + (AttrSegments(env, z[1..]).value + [GenAttrSegment(env, x.name, x.value).value])
            == ([s] + AttrSegments(env, z[1..]).value) + [GenAttrSegment(env, x.name, x.value).value];
      }
    }
  }

  /** `a(z)`: the loop pushing `c(z[i].name, z[i].value)` for each attribute. */
  method GenAttrSegments(env: Env, z: seq<Attr>) returns (r: Result<seq<Segment>, string>)
    ensures r == AttrSegments(env, z)
  {
    var out: seq<Segment> := [];
    var i := 0;
    while i < |z|
      invariant i <= |z|
      invariant AttrSegments(env, z[..i]) == Success(out)
    {
      var s := GenAttrSegment(env, z[i].name, z[i].value);
      AttrSegmentsStep(env, z, i);
      if s.Failure? {
        AttrSegmentsPrefixFails(env, z, i + 1);
        return Failure(s.error);
      }
      out := out + [s.value];
      i := i + 1;
    }
    assert z[..i] == z;
    r := Success(out);
  }

  /** One more attribute either fails the prefix or appends its segment. */
  lemma AttrSegmentsStep(env: Env, z: seq<Attr>, i: nat)
    requires i < |z| && AttrSegments(env, z[..i]).Success?
    ensures AttrSegments(env, z[..i + 1]) ==
              match GenAttrSegment(env, z[i].name, z[i].value)
              case Failure(e) => Failure(e)
              case Success(s) => Success(AttrSegments(env, z[..i]).value + [s])
  {
    assert z[..i + 1] == z[..i] + [z[i]];
    AttrSegmentsAppend(env, z[..i], z[i]);
  }

  /** Once a prefix fails, the whole list fails the same way. */
  lemma {:induction false} AttrSegmentsPrefixFails(env: Env, z: seq<Attr>, k: nat)
    requires k <= |z| && AttrSegments(env, z[..k]).Failure?
    ensures AttrSegments(env, z) == AttrSegments(env, z[..k])
    decreases k
  {
    assert k > 0;
    assert z[..k][0] == z[0] && z[..k][1..] == z[1..][..k - 1];
    if GenAttrSegment(env, z[0].name, z[0].value).Success? {
      AttrSegmentsPrefixFails(env, z[1..], k - 1);
    }
  }

  /** `P[name] || name.toLowerCase()`: the attribute a property renders as. */
  function AttrNameOf(env: Env, name: string): string {
    match env.propsToAttrMap(name)
    case Some(mapped) => if mapped != "" then mapped else ToLowerCase(name)
    case None => ToLowerCase(name)
  }

  /** An attribute named `x` is present (`g` is `None` when there are no attributes at all). */
  predicate Shadowed(g: Option<seq<Attr>>, x: string) {
    g.Some? && exists j :: 0 <= j < |g.value| && g.value[j].name == x
  }

  /** The properties `b` renders, renamed to their attributes, in order. */
  function KeptProps(env: Env, f: seq<Attr>, g: Option<seq<Attr>>): (r: seq<Attr>)
    ensures |r| <= |f|
    decreases |f|
  {
    if f == [] then [] else KeptOne(env, f[0], g) + KeptProps(env, f[1..], g)
  }

  /** What one property contributes to `b`: its renamed attribute when that is renderable and not shadowed. */
  function KeptOne(env: Env, p: Attr, g: Option<seq<Attr>>): seq<Attr> {
    var x := AttrNameOf(env, p.name);
    if env.isRenderableAttr(x) && !Shadowed(g, x) then [Attr(x, p.value)] else []
  }

  /** Keeping properties commutes with splitting the list: order is preserved. */
  lemma {:induction false} KeptPropsAppend(env: Env, f1: seq<Attr>, f2: seq<Attr>, g: Option<seq<Attr>>)
    ensures KeptProps(env, f1 + f2, g) == KeptProps(env, f1, g) + KeptProps(env, f2, g)
    decreases |f1|
  {
    if f1 == [] {
      assert f1 + f2 == f2;
    } else {
      var head := KeptOne(env, f1[0], g);
      assert (f1 + f2)[0] == f1[0] && (f1 + f2)[1..] == f1[1..] + f2;
      KeptPropsAppend(env, f1[1..], f2, g);
      calc {
        KeptProps(env, f1 + f2, g);
        head + KeptProps(env, f1[1..] + f2, g);
        head + (KeptProps(env, f1[1..], g) + KeptProps(env, f2, g));
        (head + KeptProps(env, f1[1..], g)) + KeptProps(env, f2, g);
        KeptProps(env, f1, g) + KeptProps(env, f2, g);
      }
    }
  }

  /** A property is kept exactly when its attribute name is renderable and not already an attribute. */
  lemma {:induction false} KeptPropsMembers(env: Env, f: seq<Attr>, g: Option<seq<Attr>>, a: Attr)
    ensures a in KeptProps(env, f, g) <==>
              exists i :: 0 <= i < |f| && a == Attr(AttrNameOf(env, f[i].name), f[i].value)
                          && env.isRenderableAttr(a.name) && !Shadowed(g, a.name)
    decreases |f|
  {
    if f != [] {
      KeptPropsMembers(env, f[1..], g, a);
      if a in KeptProps(env, f[1..], g) {
        var i :| 0 <= i < |f[1..]| && a == Attr(AttrNameOf(env, f[1..][i].name), f[1..][i].value)
                 && env.isRenderableAttr(a.name) && !Shadowed(g, a.name);
        assert f[i + 1] == f[1..][i];
      }
      if exists i :: 0 <= i < |f| && a == Attr(AttrNameOf(env, f[i].name), f[i].value)
                     && env.isRenderableAttr(a.name) && !Shadowed(g, a.name) {
        var i :| 0 <= i < |f| && a == Attr(AttrNameOf(env, f[i].name), f[i].value)
                 && env.isRenderableAttr(a.name) && !Shadowed(g, a.name);
        if i > 0 {
          assert f[1..][i - 1] == f[i];
        }
      }
    }
  }

  /** The inner loop of `b`: whether an attribute in `g` is named `x`. */
  method FindShadow(g: Option<seq<Attr>>, x: string) returns (skip: bool)
    ensures skip <==> Shadowed(g, x)
  {
    skip := false;
    if g.Some? {
      var j := 0;
      while j < |g.value|
        invariant j <= |g.value|
        invariant forall k :: 0 <= k < j ==> g.value[k].name != x
      {
        if g.value[j].name == x {
          skip := true;
          break;
        }
        j := j + 1;
      }
    }
  }

  /** `b(f, g)`: `c` over the renderable properties not overridden by an attribute, renamed to their attributes. */
  method GenDomPropSegments(env: Env, f: seq<Attr>, g: Option<seq<Attr>>) returns (r: Result<seq<Segment>, string>)
    ensures r == AttrSegments(env, KeptProps(env, f, g))
  {
    var h: seq<Segment> := [];
    var i := 0;
    while i < |f|
      invariant i <= |f|
      invariant AttrSegments(env, KeptProps(env, f[..i], g)) == Success(h)
    {
      var x := AttrNameOf(env, f[i].name);
      var v := f[i].value;
      var skip := false;
      if env.isRenderableAttr(x) {
        skip := FindShadow(g, x);
      }
      KeptPropsStep(env, f, g, i);
      if env.isRenderableAttr(x) && !skip {
        var s := GenAttrSegment(env, x, v);
        AttrSegmentsAppend(env, KeptProps(env, f[..i], g), Attr(x, v));
        if s.Failure? {
          KeptPropsPrefixFails(env, f, g, i + 1);
          return Failure(s.error);
        }
        h := h + [s.value];
      }
      i := i + 1;
    }
    assert f[..i] == f;
    r := Success(h);
  }

  /** One more property adds its renamed attribute to the kept list, or nothing. */
  lemma KeptPropsStep(env: Env, f: seq<Attr>, g: Option<seq<Attr>>, i: nat)
    requires i < |f|
    ensures var x := AttrNameOf(env, f[i].name);
            && (env.isRenderableAttr(x) && !Shadowed(g, x) ==> KeptProps(env, f[..i + 1], g) == KeptProps(env, f[..i], g) + [Attr(x, f[i].value)])
            && (!(env.isRenderableAttr(x) && !Shadowed(g, x)) ==> KeptProps(env, f[..i + 1], g) == KeptProps(env, f[..i], g))
  {
    KeptPropsAppend(env, f[..i], [f[i]], g);
    assert f[..i + 1] == f[..i] + [f[i]];
    assert [f[i]][1..] == [];
    assert KeptProps(env, f[..i], g) + [] == KeptProps(env, f[..i], g);
  }

  /** Once the properties kept from a prefix fail, the whole list fails the same way. */
  lemma KeptPropsPrefixFails(env: Env, f: seq<Attr>, g: Option<seq<Attr>>, k: nat)
    requires k <= |f| && AttrSegments(env, KeptProps(env, f[..k], g)).Failure?
    ensures AttrSegments(env, KeptProps(env, f, g)) == AttrSegments(env, KeptProps(env, f[..k], g))
  {
    var kept := KeptProps(env, f, g);
    var pre := KeptProps(env, f[..k], g);
    assert f == f[..k] + f[k..];
    KeptPropsAppend(env, f[..k], f[k..], g);
    assert kept[..|pre|] == pre;
    AttrSegmentsPrefixFails(env, kept, |pre|);
  }

  /* ------------------------------------------------------------------ */
  /* `d` and `e`: class and style                                        */
  /* ------------------------------------------------------------------ */

  /** JavaScript truthiness of a `string | null | undefined`: present and non-empty. */
  predicate Truthy(o: Option<string>) {
    o.Some? && o.value != ""
  }

  /** `o || 'null'`. */
  function OrNull(o: Option<string>): string {
    if Truthy(o) then o.value else "null"
  }

  /** `d(p, q)`: a static class alone is written out; otherwise `_ssrClass(p, q)` with `null` for what is absent. */
  function GenClassSegments(env: Env, p: Option<string>, q: Option<string>): (r: Result<seq<Segment>, string>)
    ensures r.Failure? ==> Truthy(p) && !Truthy(q) && env.jsonParse(p.value).None?
  {
    if Truthy(p) && !Truthy(q) then
      match env.jsonParse(p.value)
      case None => Failure(p.value)
      case Some(text) => Success([Segment(Raw, " class=\"" + text + "\"")])
    else
      Success([Segment(Expression, "_ssrClass(" + OrNull(p) + "," + OrNull(q) + ")")])
  }

  /** `d` gives exactly one segment, which is static text exactly when there is a static class and no dynamic one. */
  lemma ClassSegmentShape(env: Env, p: Option<string>, q: Option<string>)
    ensures var r := GenClassSegments(env, p, q);
            && (!(Truthy(p) && !Truthy(q)) ==> r.Success?)
            && (r.Success? ==> |r.value| == 1 && (r.value[0].kind == Raw <==> Truthy(p) && !Truthy(q)))
  {
  }

  lemma PrefixOfConcat<T>(a: seq<T>, b: seq<T>)
    ensures (a + b)[..|a|] == a
  {
  }

  lemma SuffixOfConcat<T>(a: seq<T>, b: seq<T>)
    ensures (a + b)[|a|..] == b
  {
  }

  /** In the dynamic form, an absent or empty static class is passed as `null`. */
  lemma ClassPlaceholders(env: Env, p: Option<string>, q: Option<string>)
    requires Truthy(q) || !Truthy(p)
    ensures var s := GenClassSegments(env, p, q).value[0].value;
            && (!Truthy(p) ==> s[..14] == "_ssrClass(null")
            && (!Truthy(q) ==> s[|s| - 5..] == "null)")
  {
    var s := "_ssrClass(" + OrNull(p) + "," + OrNull(q) + ")";
    if !Truthy(p) {
      assert s == "_ssrClass(null" + ("," + OrNull(q) + ")");
      PrefixOfConcat("_ssrClass(null", "," + OrNull(q) + ")");
    }
    if !Truthy(q) {
      assert s == ("_ssrClass(" + OrNull(p) + ",") + "null)";
      SuffixOfConcat("_ssrClass(" + OrNull(p) + ",", "null)");
    }
  }

  /** The `v-show` toggle `{ display: (u) ? '' : 'none' }`. */
  function DisplayToggle(u: string): string {
    "{ display: (" + u + ") ? '' : 'none' }"
  }

  /** How every display toggle ends. */
  const ToggleEnd: string := " ? '' : 'none' })"

  /** The dynamic style call `_ssrStyle(s, t, v)`, with `null` for an absent style. */
  function StyleCall(s: Option<string>, t: Option<string>, v: string): string {
    "_ssrStyle(" + OrNull(s) + "," + OrNull(t) + ", " + v + ")"
  }

  /**
    `e(r, s, t, u)`: a static style with neither a dynamic style nor
    `v-show` is written out; otherwise `_ssrStyle(s, t, toggle)` where the
    toggle is built from the `v-show` expression `u`, or is `null`.
   */
  function GenStyleSegments(env: Env, r: Option<string>, s: Option<string>, t: Option<string>, u: Option<string>): (res: seq<Segment>)
    ensures |res| == 1
  {
    if Truthy(r) && !Truthy(t) && !Truthy(u) then
      [Segment(Raw, " style=" + env.jsonStringify(r.value))]
    else
      [Segment(Expression, StyleCall(s, t, if Truthy(u) then DisplayToggle(u.value) else "null"))]
  }

  /** `e` gives static text exactly when there is a static style and neither a dynamic style nor `v-show`. */
  lemma StyleSegmentKind(env: Env, r: Option<string>, s: Option<string>, t: Option<string>, u: Option<string>)
    ensures GenStyleSegments(env, r, s, t, u)[0].kind == Raw <==> Truthy(r) && !Truthy(t) && !Truthy(u)
  {
  }

  /** The dynamic style call ends with a display toggle exactly when `v-show` is given. */
  lemma StyleToggleIffShow(env: Env, r: Option<string>, s: Option<string>, t: Option<string>, u: Option<string>)
    requires !(Truthy(r) && !Truthy(t) && !Truthy(u))
    ensures var x := GenStyleSegments(env, r, s, t, u)[0].value;
            |x| >= |ToggleEnd| && (x[|x| - |ToggleEnd|..] == ToggleEnd <==> Truthy(u))
  {
    if Truthy(u) {
      ToggleCallEndsWithToggle(s, t, u.value);
    } else {
      NullCallDoesNotEndWithToggle(s, t);
    }
  }

  /** A call whose last argument is a display toggle ends with a toggle. */
  lemma ToggleCallEndsWithToggle(s: Option<string>, t: Option<string>, u: string)
    ensures var x := StyleCall(s, t, DisplayToggle(u));
            |x| >= |ToggleEnd| && x[|x| - |ToggleEnd|..] == ToggleEnd
  {
    var head := "_ssrStyle(" + OrNull(s) + "," + OrNull(t) + ", " + "{ display: (" + u + ")";
    assert StyleCall(s, t, DisplayToggle(u)) == head + ToggleEnd;
    SuffixOfConcat(head, ToggleEnd);
  }

  /** A call whose last argument is `null` does not end with a toggle, though it is long enough to. */
  lemma NullCallDoesNotEndWithToggle(s: Option<string>, t: Option<string>)
    ensures var x := StyleCall(s, t, "null");
            |x| >= |ToggleEnd| && x[|x| - |ToggleEnd|..] != ToggleEnd
  {
    var x := StyleCall(s, t, "null");
    assert |x| >= |ToggleEnd|;
    assert x[|x| - 2] == 'l';
    assert x[|x| - |ToggleEnd|..][|ToggleEnd| - 2] == x[|x| - 2];
  }

  /* ------------------------------------------------------------------ */
  /* `o`: the `v-model` fix-up                                           */
  /* ------------------------------------------------------------------ */

  datatype Directive = Directive(name: string, value: string)

  /** The parts of an AST element the fix-up reads: its tag, directives and DOM properties (`None` when absent). */
  datatype Element = Element(tag: string, directives: Option<seq<Directive>>, props: Option<seq<Attr>>)

  /** `props.filter(q => q.name != 'value')`. */
  function DropValueProps(props: seq<Attr>): (r: seq<Attr>)
    ensures |r| <= |props|
    decreases |props|
  {
    if props == [] then []
    else (if props[0].name != "value" then [props[0]] else []) + DropValueProps(props[1..])
  }

  /** The filter drops exactly the properties named `value`. */
  lemma {:induction false} DropValuePropsMembers(props: seq<Attr>, a: Attr)
    ensures a in DropValueProps(props) <==> a in props && a.name != "value"
    decreases |props|
  {
    if props != [] {
      DropValuePropsMembers(props[1..], a);
      assert props == [props[0]] + props[1..];
    }
  }

  /** The filter works piece by piece, so the kept properties stay in their order. */
  lemma {:induction false} DropValuePropsAppend(a: seq<Attr>, b: seq<Attr>)
    ensures DropValueProps(a + b) == DropValueProps(a) + DropValueProps(b)
    decreases |a|
  {
    if a == [] {
      assert a + b == b;
    } else {
      var head := if a[0].name != "value" then [a[0]] else [];
      assert (a + b)[0] == a[0] && (a + b)[1..] == a[1..] + b;
      DropValuePropsAppend(a[1..], b);
      calc {
        DropValueProps(a + b);
        head + DropValueProps(a[1..] + b);
        head + (DropValueProps(a[1..]) + DropValueProps(b));
        (head + DropValueProps(a[1..])) + DropValueProps(b);
        DropValueProps(a) + DropValueProps(b);
      }
    }
  }

  /** Properties none of which is named `value` pass the filter whole. */
  lemma {:induction false} DropValuePropsKeepsOthers(props: seq<Attr>)
    requires forall k :: 0 <= k < |props| ==> props[k].name != "value"
    ensures DropValueProps(props) == props
    decreases |props|
  {
    if props != [] {
      DropValuePropsKeepsOthers(props[1..]);
    }
  }

  /** After the `model` directive ran: a `textarea` with properties loses its `value` properties. */
  function FixTextarea(y: Element): Element {
    if y.tag == "textarea" && y.props.Some? then y.(props := Some(DropValueProps(y.props.value))) else y
  }

  /** The first `model` directive handled: `model` stands for `y.directives.model`, which may rewrite the element. */
  predicate HandledFirst(x: Element, model: (Element, Directive) -> Element, k: nat, r: Element) {
    && x.directives.Some? && k < |x.directives.value|
    && x.directives.value[k].name == "model"
    && (forall j :: 0 <= j < k ==> x.directives.value[j].name != "model")
    && r == FixTextarea(model(x, x.directives.value[k]))
  }

  /** `o(x, y)`: hand the first `model` directive to the codegen state, then fix up a textarea. */
  method ApplyModelDirective(x: Element, model: (Element, Directive) -> Element) returns (r: Element)
    ensures (x.directives.None? || forall j :: 0 <= j < |x.directives.value| ==> x.directives.value[j].name != "model") ==> r == x
    ensures x.directives.Some? && (exists j :: 0 <= j < |x.directives.value| && x.directives.value[j].name == "model") ==>
              exists k :: HandledFirst(x, model, k, r)
  {
    r := x;
    if x.directives.Some? {
      var ds := x.directives.value;
      var i := 0;
      while i < |ds|
        invariant i <= |ds|
        invariant forall j :: 0 <= j < i ==> ds[j].name != "model"
        invariant r == x
      {
        if ds[i].name == "model" {
          r := FixTextarea(model(x, ds[i]));
          assert HandledFirst(x, model, i, r);
          return;
        }
        i := i + 1;
      }
    }
  }

  /**
    After the fix-up a handled `textarea` keeps exactly its other properties
    and has none named `value` (`DropValuePropsAppend` states their order).
   */
  lemma TextareaLosesValueProps(x: Element, model: (Element, Directive) -> Element, k: nat, r: Element)
    requires HandledFirst(x, model, k, r)
    requires r.tag == "textarea" && r.props.Some?
    ensures forall a :: a in r.props.value <==> a in model(x, x.directives.value[k]).props.value && a.name != "value"
  {
    forall a {
      DropValuePropsMembers(model(x, x.directives.value[k]).props.value, a);
    }
  }

  /** Only the first `model` directive counts: which later directives follow does not matter. */
  lemma OnlyFirstModelHandled(x: Element, model: (Element, Directive) -> Element, k: nat, r: Element, k': nat, r': Element)
    requires HandledFirst(x, model, k, r) && HandledFirst(x, model, k', r')
    ensures k == k' && r == r'
  {
  }
}
