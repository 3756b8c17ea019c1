/**
  CSS `v-bind()` support of single-file components: finding the
  expressions bound in `<style>` blocks, naming the CSS custom property
  each one is published under, generating the object handed to
  `useCssVars`, and rewriting each `v-bind(expr)` in a declaration value
  into a `var(--name)` reference.
 */
module CssVars {
  import opened Wrappers
  import opened JsString

  /* ------------------------------------------------------------------ */
  /* Variable names                                                      */
  /* ------------------------------------------------------------------ */

  /** The characters `[\w-]` keeps in a development-mode variable name. */
  predicate IsNameChar(c: char) {
    IsWordChar(c) || c == '-'
  }

  /** `raw.replace(/[^\w-]/g, '_')`. */
  function SanitizeName(raw: string): (r: string)
    ensures |r| == |raw|
  {
    if raw == [] then []
    else [if IsNameChar(raw[0]) then raw[0] else '_'] + SanitizeName(raw[1..])
  }

  /** Sanitizing keeps each name character and turns every other character into `_`. */
  lemma {:induction false} SanitizeNameReplacesOthers(raw: string)
    ensures forall k :: 0 <= k < |raw| ==> SanitizeName(raw)[k] == (if IsNameChar(raw[k]) then raw[k] else '_')
  {
    if raw != [] {
      SanitizeNameReplacesOthers(raw[1..]);
      var r := SanitizeName(raw);
      assert r == [r[0]] + SanitizeName(raw[1..]);
      forall k | 1 <= k < |raw|
        ensures r[k] == (if IsNameChar(raw[k]) then raw[k] else '_')
      {
        assert r[k] == SanitizeName(raw[1..])[k - 1] && raw[k] == raw[1..][k - 1];
      }
    }
  }

  /** Sanitizing only ever produces name characters, and leaves a name made of them alone. */
  lemma SanitizeNameIsIdempotent(raw: string)
    ensures forall k :: 0 <= k < |raw| ==> IsNameChar(SanitizeName(raw)[k])
    ensures SanitizeName(SanitizeName(raw)) == SanitizeName(raw)
    ensures (forall k :: 0 <= k < |raw| ==> IsNameChar(raw[k])) ==> SanitizeName(raw) == raw
  {
    SanitizeNameReplacesOthers(raw);
    SanitizeNameReplacesOthers(SanitizeName(raw));
  }

  /**
    The name a bound expression is published under. In production it is
    `hash(id + raw)`, where `hash` (the `hash-sum` package) is a parameter;
    in development it is the component id, a hyphen and the expression
    with every character outside `[\w-]` replaced by `_`.
   */
  function GenerateVarName(id: string, raw: string, isProd: bool, hash: string -> string): string {
    if isProd then hash(id + raw) else id + "-" + SanitizeName(raw)
  }

  /**
    A development-mode name is the id and a hyphen followed by one name
    character per character of the expression, the expression's own name
    characters kept in place.
   */
  lemma DevVarNameShape(id: string, raw: string, hash: string -> string)
    ensures var r := GenerateVarName(id, raw, false, hash);
            && |r| == |id| + 1 + |raw|
            && r[..|id| + 1] == id + "-"
            && (forall k :: |id| < k < |r| ==> IsNameChar(r[k]))
            && (forall k :: 0 <= k < |raw| && IsNameChar(raw[k]) ==> r[|id| + 1 + k] == raw[k])
  {
    SanitizeNameIsIdempotent(raw);
    SanitizeNameReplacesOthers(raw);
    var r := GenerateVarName(id, raw, false, hash);
    assert r == (id + "-") + SanitizeName(raw);
    forall k | |id| < k < |r|
      ensures IsNameChar(r[k])
    {
      if k > |id| {
        assert r[k] == SanitizeName(raw)[k - |id| - 1];
      }
    }
  }

  /** Two development-mode names of one component agree exactly when the expressions agree after sanitizing. */
  lemma DevNamesCollideOnlyBySanitizing(id: string, a: string, b: string, hash: string -> string)
    ensures GenerateVarName(id, a, false, hash) == GenerateVarName(id, b, false, hash) <==> SanitizeName(a) == SanitizeName(b)
  {
    var na := GenerateVarName(id, a, false, hash);
    var nb := GenerateVarName(id, b, false, hash);
    assert na == (id + "-") + SanitizeName(a) && nb == (id + "-") + SanitizeName(b);
    if na == nb {
      assert SanitizeName(a) == na[|id| + 1..];
      assert SanitizeName(b) == nb[|id| + 1..];
    }
  }

  /* ------------------------------------------------------------------ */
  /* Expressions                                                         */
  /* ------------------------------------------------------------------ */

  /** `entry` occurs in `text` starting at `p`. */
  predicate OccursAt(entry: string, text: string, p: nat) {
    p + |entry| <= |text| && text[p..p + |entry|] == entry
  }

  /** Starts and ends with the same quote character (a lone quote counts). */
  predicate IsQuoted(t: string) {
    |t| >= 1 && ((t[0] == '"' && t[|t| - 1] == '"') || (t[0] == '\'' && t[|t| - 1] == '\''))
  }

  /** The expression inside `v-bind(...)`: trimmed, and one pair of matching outer quotes removed. */
  function NormalizeExpression(exp: string): string {
    var t := Trim(exp);
    if IsQuoted(t) then Slice(t, 1, |t| - 1) else t
  }

  /**
    The normalized expression is a piece of the written one: what trimming
    keeps, less the outer quotes (a lone quote leaves nothing).
   */
  lemma NormalizeIsPieceOfInput(exp: string)
    ensures var r := NormalizeExpression(exp);
            var from := |exp| - |TrimStart(exp)| + (if IsQuoted(Trim(exp)) then 1 else 0);
            OccursAt(r, exp, from)
    ensures |NormalizeExpression(exp)| ==
            |Trim(exp)| - (if !IsQuoted(Trim(exp)) then 0 else if |Trim(exp)| == 1 then 1 else 2)
  {
    NormalizeOccurs(exp);
    NormalizeLength(exp);
  }

  /** Where the normalized expression sits in the written one. */
  lemma NormalizeOccurs(exp: string)
    ensures OccursAt(NormalizeExpression(exp), exp, |exp| - |TrimStart(exp)| + (if IsQuoted(Trim(exp)) then 1 else 0))
  {
    if IsQuoted(Trim(exp)) {
      QuotedNormalizeOccurs(exp);
    } else {
      TrimIsWindow(exp);
    }
  }

  /** A quoted expression normalizes to the text just inside its quotes. */
  lemma QuotedNormalizeOccurs(exp: string)
    requires IsQuoted(Trim(exp))
    ensures OccursAt(NormalizeExpression(exp), exp, |exp| - |TrimStart(exp)| + 1)
  {
    var t := Trim(exp);
    var i := |exp| - |TrimStart(exp)|;
    assert NormalizeExpression(exp) == Slice(t, 1, |t| - 1);
    TrimIsWindow(exp);
    assert i + |t| <= |exp| && t == exp[i..i + |t|];
    QuotedPieceOccurs(exp, t, i);
  }

  /** How much normalizing takes off the trimmed expression: two quotes, or a lone one. */
  lemma NormalizeLength(exp: string)
    ensures |NormalizeExpression(exp)| ==
            |Trim(exp)| - (if !IsQuoted(Trim(exp)) then 0 else if |Trim(exp)| == 1 then 1 else 2)
  {
  }

  /** The inside of a quoted window of `exp` is itself a window, one place further. */
  lemma QuotedPieceOccurs(exp: string, t: string, i: nat)
    requires i + |t| <= |exp| && t == exp[i..i + |t|]
    requires |t| >= 1
    ensures OccursAt(Slice(t, 1, |t| - 1), exp, i + 1)
  {
    if |t| >= 2 {
      InnerOfWindow(exp, i, |t|);
    }
  }

  /** Dropping the first and last element of a window of `x` is the window one narrower on each side. */
  lemma InnerOfWindow<T>(x: seq<T>, i: nat, n: nat)
    requires 2 <= n && i + n <= |x|
    ensures x[i..i + n][1..n - 1] == x[i + 1..i + n - 1]
  {
    var w := x[i..i + n];
    var u := w[1..n - 1];
    var v := x[i + 1..i + n - 1];
    assert |u| == |v|;
    forall k | 0 <= k < |u|
      ensures u[k] == v[k]
    {
      assert u[k] == w[k + 1];
    }
  }

  /** A string that has no whitespace at its ends is its own trim. */
  lemma TrimOfTrimmed(s: string)
    requires s == [] || (!IsJsSpace(s[0]) && !IsJsSpace(s[|s| - 1]))
    ensures Trim(s) == s
  {
    if s != [] {
      assert TrimStart(s) == s;
      assert TrimEnd(s) == s;
    }
  }

  /** Quoting an expression and normalizing it gives the expression back, whatever it contains. */
  lemma NormalizeUnquotes(q: char, x: string)
    requires q == '"' || q == '\''
    ensures NormalizeExpression([q] + x + [q]) == x
  {
    var s := [q] + x + [q];
    TrimOfTrimmed(s);
    assert s[1..|s| - 1] == x;
  }

  /** An expression that is already trimmed and unquoted is left as it is. */
  lemma NormalizeKeepsPlainExpression(x: string)
    requires x == [] || (!IsJsSpace(x[0]) && !IsJsSpace(x[|x| - 1]))
    requires !IsQuoted(x)
    ensures NormalizeExpression(x) == x
  {
    TrimOfTrimmed(x);
  }

  /* ------------------------------------------------------------------ */
  /* The lexer                                                           */
  /* ------------------------------------------------------------------ */

  datatype LexerState = InParens | InSingleQuoteString | InDoubleQuoteString

  /** Where the lexer stands: its state and how many parentheses are open. */
  datatype LexPos = LexPos(state: LexerState, depth: nat)

  const LexStart := LexPos(InParens, 0)

  /** The lexer stops at `c`: a `)` at depth 0 outside strings. */
  predicate Closes(p: LexPos, c: char) {
    p.state == InParens && p.depth == 0 && c == ')'
  }

  /** What the lexer does with a character at which it does not stop. */
  function LexStep(p: LexPos, c: char): LexPos {
    match p.state
    case InParens =>
      if c == '\'' then p.(state := InSingleQuoteString)
      else if c == '"' then p.(state := InDoubleQuoteString)
      else if c == '(' then p.(depth := p.depth + 1)
      else if c == ')' && p.depth > 0 then p.(depth := p.depth - 1)
      else p
    case InSingleQuoteString =>
      if c == '\'' then p.(state := InParens) else p
    case InDoubleQuoteString =>
      if c == '"' then p.(state := InParens) else p
  }

  /** The lexer's position after reading `s[start..i]`. */
  function ScanState(s: string, start: nat, i: nat): LexPos
    requires start <= i <= |s|
    decreases i - start
  {
    if i == start then LexStart else LexStep(ScanState(s, start, i - 1), s[i - 1])
  }

  /** The lexer does not stop anywhere in `s[from..to]`. */
  predicate NoCloseIn(s: string, start: nat, from: nat, to: nat)
    requires start <= from <= to <= |s|
  {
    forall j {:trigger ScanState(s, start, j)} :: from <= j < to ==> !Closes(ScanState(s, start, j), s[j])
  }

  /** `e` is where a lexer started at `start` stops: the first `)` that closes the binding. */
  predicate IsFirstClose(s: string, start: nat, e: nat) {
    start <= e < |s| && Closes(ScanState(s, start, e), s[e]) && NoCloseIn(s, start, start, e)
  }

  /** The lexer loop from index `i`, standing at `p`. */
  function LexFrom(s: string, start: nat, i: nat, p: LexPos): (r: Option<nat>)
    requires start <= i <= |s| && p == ScanState(s, start, i)
    ensures r.Some? ==> i <= r.value < |s| && Closes(ScanState(s, start, r.value), s[r.value]) && NoCloseIn(s, start, i, r.value)
    ensures r.None? ==> NoCloseIn(s, start, i, |s|)
    decreases |s| - i
  {
    if i == |s| then None
    else if Closes(p, s[i]) then Some(i)
    else LexFrom(s, start, i + 1, LexStep(p, s[i]))
  }

  /** `lexBinding` as a function: the index of the closing `)`, or `None` (`null`) when the binding is never closed. */
  function LexClose(s: string, start: nat): (r: Option<nat>)
    ensures r.Some? ==> IsFirstClose(s, start, r.value)
    ensures r.None? ==> start >= |s| || NoCloseIn(s, start, start, |s|)
  {
    if start >= |s| then None else LexFrom(s, start, start, LexStart)
  }

  /** A first close is unique, so it is what `LexClose` returns. */
  lemma FirstCloseIsLexClose(s: string, start: nat, e: nat)
    requires IsFirstClose(s, start, e)
    ensures LexClose(s, start) == Some(e)
  {
  }

  /** The lexer went past `s[i]` without stopping there. */
  lemma NoCloseExtends(s: string, start: nat, from: nat, i: nat)
    requires start <= from <= i < |s| && NoCloseIn(s, start, from, i)
    requires !Closes(ScanState(s, start, i), s[i])
    ensures NoCloseIn(s, start, from, i + 1)
  {
  }

  /** `lexBinding(content, start)`: the lexer loop, run over the characters from `start` on. */
  method LexBinding(content: string, start: nat) returns (r: Option<nat>)
    ensures r == LexClose(content, start)
  {
    if start >= |content| {
      // the loop body never runs
      return None;
    }
    var state := InParens;
    var depth: nat := 0;
    var i := start;
    while i < |content|
      invariant start <= i <= |content|
      invariant LexPos(state, depth) == ScanState(content, start, i)
      invariant NoCloseIn(content, start, start, i)
      decreases |content| - i
    {
      var c := content[i];
      match state {
      case InParens =>
        if c == '\'' {
          state := InSingleQuoteString;
        } else if c == '"' {
          state := InDoubleQuoteString;
        } else if c == '(' {
          depth := depth + 1;
        } else if c == ')' {
          if depth > 0 {
            depth := depth - 1;
          } else {
            FirstCloseIsLexClose(content, start, i);
            return Some(i);
          }
        }
      case InSingleQuoteString =>
        if c == '\'' {
          state := InParens;
        }
      case InDoubleQuoteString =>
        if c == '"' {
          state := InParens;
        }
      }
      NoCloseExtends(content, start, start, i);
      i := i + 1;
    }
    r := None;
  }

  /** Reading a quoted string from outside a string leaves the lexer where it was, and it never stops inside it. */
  lemma {:induction false} QuotedStringIsInert(s: string, start: nat, i: nat, n: nat)
    requires start <= i && i + n + 2 <= |s|
    requires ScanState(s, start, i).state == InParens
    requires s[i] == '\'' || s[i] == '"'
    requires forall k :: i < k <= i + n ==> s[k] != s[i]
    requires s[i + n + 1] == s[i]
    ensures ScanState(s, start, i + n + 2) == ScanState(s, start, i)
    ensures NoCloseIn(s, start, i, i + n + 2)
  {
    var p := ScanState(s, start, i);
    var inside := p.(state := if s[i] == '\'' then InSingleQuoteString else InDoubleQuoteString);
    InsideQuote(s, start, i, n + 1);
    assert ScanState(s, start, i + n + 2) == LexStep(inside, s[i + n + 1]);
    forall j | i <= j < i + n + 2
      ensures !Closes(ScanState(s, start, j), s[j])
    {
      if j > i {
        InsideQuote(s, start, i, j - i);
      }
    }
  }

  /** Inside a quoted string the lexer only waits for the closing quote. */
  lemma {:induction false} InsideQuote(s: string, start: nat, i: nat, k: nat)
    requires start <= i && 1 <= k && i + k <= |s|
    requires ScanState(s, start, i).state == InParens
    requires s[i] == '\'' || s[i] == '"'
    requires forall m :: i < m < i + k ==> s[m] != s[i]
    ensures ScanState(s, start, i + k) ==
            ScanState(s, start, i).(state := if s[i] == '\'' then InSingleQuoteString else InDoubleQuoteString)
    decreases k
  {
    if k > 1 {
      InsideQuote(s, start, i, k - 1);
    }
  }

  /* ------------------------------------------------------------------ */
  /* The `v-bind\s*\(` regular expression                                */
  /* ------------------------------------------------------------------ */

  /** The end of the run of whitespace starting at `i`. */
  function SkipSpaces(s: string, i: nat): (j: nat)
    requires i <= |s|
    ensures i <= j <= |s|
    ensures j == |s| || !IsJsSpace(s[j])
    decreases |s| - i
  {
    if i < |s| && IsJsSpace(s[i]) then SkipSpaces(s, i + 1) else i
  }

  /** Everything `SkipSpaces` passes over is whitespace. */
  lemma {:induction false} SkipSpacesSkipsOnlySpace(s: string, i: nat, k: nat)
    requires i <= |s| && i <= k < SkipSpaces(s, i)
    ensures IsJsSpace(s[k])
    decreases |s| - i
  {
    if k > i {
      SkipSpacesSkipsOnlySpace(s, i + 1, k);
    }
  }

  /** `v-bind\s*\(` matches at index `i`. */
  predicate MatchAt(s: string, i: nat) {
    && i + 6 <= |s|
    && s[i] == 'v' && s[i + 1] == '-' && s[i + 2] == 'b' && s[i + 3] == 'i' && s[i + 4] == 'n' && s[i + 5] == 'd'
    && SkipSpaces(s, i + 6) < |s|
    && s[SkipSpaces(s, i + 6)] == '('
  }

  /** `match.index + match[0].length`: just after the `(`. */
  function ArgumentStart(s: string, i: nat): (r: nat)
    requires MatchAt(s, i)
    ensures i + 7 <= r <= |s| && s[r - 1] == '('
  {
    SkipSpaces(s, i + 6) + 1
  }

  /** `vBindRE.exec(s)` with `lastIndex` at `from`: the first match at or after `from`. */
  function FindVBind(s: string, from: nat): (r: Option<nat>)
    ensures r.Some? ==> from <= r.value && MatchAt(s, r.value)
    decreases |s| - from
  {
    if from + 6 > |s| then None
    else if MatchAt(s, from) then Some(from)
    else FindVBind(s, from + 1)
  }

  /** The search misses no match: it finds one at or before any match at or after `from`. */
  lemma {:induction false} FindVBindFindsFirst(s: string, from: nat, j: nat)
    requires from <= j && MatchAt(s, j)
    ensures FindVBind(s, from).Some? && FindVBind(s, from).value <= j
    decreases j - from
  {
    if !MatchAt(s, from) {
      FindVBindFindsFirst(s, from + 1, j);
    }
  }

  /** A match cannot start inside another match: `v` occurs in neither `-bind`, the whitespace nor `(`. */
  lemma MatchesDoNotOverlap(s: string, i: nat, j: nat)
    requires MatchAt(s, i) && i < j < ArgumentStart(s, i)
    ensures !MatchAt(s, j)
  {
    if i + 6 <= j < SkipSpaces(s, i + 6) {
      SkipSpacesSkipsOnlySpace(s, i + 6, j);
    }
    assert s[j] != 'v';
  }

  /** Searching from any point before a match and not past it finds the same match. */
  lemma {:induction false} FindVBindSkipsGap(s: string, a: nat, b: nat)
    requires a <= b
    requires FindVBind(s, a).Some? ==> b <= FindVBind(s, a).value
    ensures FindVBind(s, b) == FindVBind(s, a)
    decreases b - a
  {
    if a < b {
      if a + 6 <= |s| && MatchAt(s, a) {
        assert false;
      } else {
        FindVBindSkipsGap(s, a + 1, b);
      }
    }
  }

  /* ------------------------------------------------------------------ */
  /* Comments                                                            */
  /* ------------------------------------------------------------------ */

  predicate OpensCommentAt(s: string, i: nat) {
    i + 2 <= |s| && s[i] == '/' && s[i + 1] == '*'
  }

  predicate ClosesCommentAt(s: string, i: nat) {
    i + 2 <= |s| && s[i] == '*' && s[i + 1] == '/'
  }

  /** The first star-slash at or after `from`. */
  function FindCommentEnd(s: string, from: nat): (r: Option<nat>)
    ensures r.Some? ==> from <= r.value && ClosesCommentAt(s, r.value)
    ensures r.Some? ==> forall j :: from <= j < r.value ==> !ClosesCommentAt(s, j)
    ensures r.None? ==> forall j :: from <= j ==> !ClosesCommentAt(s, j)
    decreases |s| - from
  {
    if from + 2 > |s| then None
    else if ClosesCommentAt(s, from) then Some(from)
    else FindCommentEnd(s, from + 1)
  }

  /**
    Comment stripping with a lazy regular expression: every comment, from
    its opening slash-star up to the first star-slash after it, is removed;
    an opening without a close leaves the rest of the text as it is.
   */
  function StripComments(s: string): (r: string)
    ensures |r| <= |s|
    decreases |s|
  {
    if |s| < 2 then s
    else if OpensCommentAt(s, 0) then
      match FindCommentEnd(s, 2)
      case Some(j) => StripComments(s[j + 2..])
      case None => s
    else [s[0]] + StripComments(s[1..])
  }

  /** Text with no comment opening in it passes through comment stripping unchanged. */
  lemma {:induction false} StripCommentsKeepsCommentFreeText(s: string)
    requires forall i :: !OpensCommentAt(s, i)
    ensures StripComments(s) == s
    decreases |s|
  {
    if |s| >= 2 {
      assert !OpensCommentAt(s, 0);
      var t := s[1..];
      forall i: nat
        ensures !OpensCommentAt(t, i)
      {
        assert !OpensCommentAt(s, i + 1);
      }
      StripCommentsKeepsCommentFreeText(t);
    }
  }

  /** In a leading comment whose body has no star-slash, the first star-slash is the one that ends it. */
  lemma CommentEndsAfterBody(c: string, b: string)
    requires forall i :: !ClosesCommentAt(c, i)
    ensures FindCommentEnd("/*" + c + "*/" + b, 2) == Some(2 + |c|)
  {
    var s := "/*" + c + "*/" + b;
    var e := 2 + |c|;
    assert ClosesCommentAt(s, e);
    forall j | 2 <= j < e
      ensures !ClosesCommentAt(s, j)
    {
      if j + 1 < e {
        assert s[j] == c[j - 2] && s[j + 1] == c[j - 1];
        assert !ClosesCommentAt(c, j - 2);
      } else {
        assert s[j + 1] == '*';
      }
    }
  }

  /** A leading comment is dropped and stripping carries on after it. */
  lemma LeadingCommentIsDropped(c: string, b: string)
    requires forall i :: !ClosesCommentAt(c, i)
    ensures StripComments("/*" + c + "*/" + b) == StripComments(b)
  {
    var s := "/*" + c + "*/" + b;
    CommentEndsAfterBody(c, b);
    assert OpensCommentAt(s, 0);
    assert s[2 + |c| + 2..] == b;
  }

  /** Text with no comment opening at its front keeps none there when more text starting with a slash follows. */
  lemma NoOpeningAtFront(a: string, rest: string)
    requires a != [] && !OpensCommentAt(a, 0)
    requires rest != [] && rest[0] == '/'
    ensures !OpensCommentAt(a + rest, 0)
  {
    if |a| == 1 {
      assert (a + rest)[1] == '/';
    } else {
      assert (a + rest)[0] == a[0] && (a + rest)[1] == a[1];
    }
  }

  /** Text that does not open a comment at its front keeps its first character, before text starting with a slash. */
  lemma StripCommentsKeepsFirst(a: string, rest: string)
    requires a != [] && !OpensCommentAt(a, 0)
    requires rest != [] && rest[0] == '/'
    ensures StripComments(a + rest) == [a[0]] + StripComments(a[1..] + rest)
  {
    NoOpeningAtFront(a, rest);
    assert (a + rest)[1..] == a[1..] + rest;
  }

  /** Splitting off the first element and putting it back changes nothing. */
  lemma ConsThenAppend<T>(a: seq<T>, x: seq<T>)
    requires a != []
    ensures [a[0]] + (a[1..] + x) == a + x
  {
  }

  /** Comment-free text in front of text that starts with a slash passes through comment stripping unchanged. */
  lemma {:induction false} StripCommentsKeepsPrefix(a: string, rest: string)
    requires forall i :: !OpensCommentAt(a, i)
    requires rest != [] && rest[0] == '/'
    ensures StripComments(a + rest) == a + StripComments(rest)
    decreases |a|
  {
    if a == [] {
      assert a + rest == rest;
    } else {
      var a' := a[1..];
      forall i: nat
        ensures !OpensCommentAt(a', i)
      {
        assert !OpensCommentAt(a, i + 1);
      }
      StripCommentsKeepsPrefix(a', rest);
      assert !OpensCommentAt(a, 0);
      StripCommentsKeepsFirst(a, rest);
      ConsThenAppend(a, StripComments(rest));
    }
  }

  /** A comment is cut out exactly, from its opening to the first star-slash, and the text before it is kept. */
  lemma StripCommentsRemovesComment(a: string, c: string, b: string)
    requires forall i :: !OpensCommentAt(a, i)
    requires forall i :: !ClosesCommentAt(c, i)
    ensures StripComments(a + "/*" + c + "*/" + b) == a + StripComments(b)
  {
    var rest := "/*" + c + "*/" + b;
    assert a + "/*" + c + "*/" + b == a + rest;
    StripCommentsKeepsPrefix(a, rest);
    LeadingCommentIsDropped(c, b);
  }

  /* ------------------------------------------------------------------ */
  /* Variable extraction                                                 */
  /* ------------------------------------------------------------------ */

  /** The expression bound by the match at `i`, when its `)` is found. */
  function BindingAt(s: string, i: nat): (r: Option<string>)
    requires MatchAt(s, i)
    ensures r.Some? <==> LexClose(s, ArgumentStart(s, i)).Some?
  {
    var start := ArgumentStart(s, i);
    match LexClose(s, start)
    case None => None
    case Some(e) => Some(NormalizeExpression(Slice(s, start, e)))
  }

  /** `[v]` for a found binding, `[]` for an unclosed one. */
  function AsList(b: Option<string>): (r: seq<string>)
    ensures |r| <= 1 && (forall v :: v in r <==> b == Some(v))
  {
    match b
    case None => []
    case Some(v) => [v]
  }

  /**
    The expressions the `exec` loop of `parseCssVars` finds in one style from
    `lastIndex == from`, in order and with repetitions. After each match
    `lastIndex` is just after its `(`, so the next search starts there.
   */
  function ScanBindings(s: string, from: nat): seq<string>
    decreases |s| - from
  {
    match FindVBind(s, from)
    case None => []
    case Some(i) => AsList(BindingAt(s, i)) + ScanBindings(s, ArgumentStart(s, i))
  }

  /** One step of the scan: the binding at the first match, then the scan from just after its `(`. */
  lemma ScanBindingsUnfold(s: string, from: nat)
    ensures FindVBind(s, from).None? ==> ScanBindings(s, from) == []
    ensures FindVBind(s, from).Some? ==>
              var i := FindVBind(s, from).value;
              ScanBindings(s, from) == AsList(BindingAt(s, i)) + ScanBindings(s, ArgumentStart(s, i))
  {
  }

  /** The scan finds the binding of every match at or after its starting point. */
  lemma {:induction false} ScanFindsEveryMatch(s: string, from: nat, i: nat, v: string)
    requires from <= i && MatchAt(s, i) && BindingAt(s, i) == Some(v)
    ensures v in ScanBindings(s, from)
    decreases |s| - from
  {
    FindVBindFindsFirst(s, from, i);
    var q := FindVBind(s, from).value;
    if q == i {
      assert v in AsList(BindingAt(s, q));
    } else {
      var next := ArgumentStart(s, q);
      if i < next {
        MatchesDoNotOverlap(s, q, i);
      }
      ScanFindsEveryMatch(s, next, i, v);
    }
  }

  /** Every expression the scan finds is the binding of a match at or after its starting point. */
  lemma {:induction false} ScanFindsOnlyMatches(s: string, from: nat, v: string)
    requires v in ScanBindings(s, from)
    ensures exists i :: from <= i && MatchAt(s, i) && BindingAt(s, i) == Some(v)
    decreases |s| - from
  {
    var i := FindVBind(s, from).value;
    if v !in AsList(BindingAt(s, i)) {
      ScanFindsOnlyMatches(s, ArgumentStart(s, i), v);
    }
  }

  /** The expressions found in every style, in style order, each style with its comments removed first. */
  function StyleBindings(styles: seq<string>): seq<string> {
    if styles == [] then [] else ScanBindings(StripComments(styles[0]), 0) + StyleBindings(styles[1..])
  }

  predicate NoDuplicates(xs: seq<string>) {
    forall i, j :: 0 <= i < j < |xs| ==> xs[i] != xs[j]
  }

  /** `if (!vars.includes(v)) vars.push(v)`. */
  function AddOne(acc: seq<string>, x: string): (r: seq<string>)
    ensures x in acc ==> r == acc
    ensures x !in acc ==> r == acc + [x]
  {
    if x in acc then acc else acc + [x]
  }

  /** Adds each element of `xs` in turn. */
  function AddNew(acc: seq<string>, xs: seq<string>): seq<string>
    decreases |xs|
  {
    if xs == [] then acc else AddNew(AddOne(acc, xs[0]), xs[1..])
  }

  /** The elements of `xs` in the order of their first occurrence, each once. */
  function Dedup(xs: seq<string>): seq<string> {
    AddNew([], xs)
  }

  /** Adding two runs one after the other is adding their concatenation. */
  lemma {:induction false} AddNewConcat(acc: seq<string>, xs: seq<string>, ys: seq<string>)
    ensures AddNew(acc, xs + ys) == AddNew(AddNew(acc, xs), ys)
    decreases |xs|
  {
    if xs != [] {
      assert (xs + ys)[0] == xs[0] && (xs + ys)[1..] == xs[1..] + ys;
      assert AddNew(acc, xs + ys) == AddNew(AddOne(acc, xs[0]), xs[1..] + ys);
      assert AddNew(acc, xs) == AddNew(AddOne(acc, xs[0]), xs[1..]);
      AddNewConcat(AddOne(acc, xs[0]), xs[1..], ys);
    } else {
      assert xs + ys == ys;
    }
  }

  /** Adding keeps what was there, in front, gains exactly the new elements and never repeats one. */
  lemma {:induction false} AddNewProperties(acc: seq<string>, xs: seq<string>)
    requires NoDuplicates(acc)
    ensures var r := AddNew(acc, xs);
            && |acc| <= |r| && r[..|acc|] == acc
            && NoDuplicates(r)
            && (forall v :: v in r <==> v in acc || v in xs)
    decreases |xs|
  {
    if xs != [] {
      var acc' := AddOne(acc, xs[0]);
      AddNewProperties(acc', xs[1..]);
      var r := AddNew(acc', xs[1..]);
      assert r[..|acc|] == r[..|acc'|][..|acc|];
      assert acc'[..|acc|] == acc;
      assert forall v :: v in xs <==> v == xs[0] || v in xs[1..];
    }
  }

  /**
    The list `parseCssVars` builds is `xs` without repetitions, in the order
    of first occurrence: a later occurrence adds nothing, a first one adds
    itself at the end.
   */
  lemma DedupKeepsFirstOccurrences(xs: seq<string>, x: string)
    ensures NoDuplicates(Dedup(xs))
    ensures forall v :: v in Dedup(xs) <==> v in xs
    ensures Dedup(xs + [x]) == if x in xs then Dedup(xs) else Dedup(xs) + [x]
  {
    AddNewProperties([], xs);
    AddNewConcat([], xs, [x]);
  }

  /** One style's bindings come before those of the styles after it. */
  lemma StyleBindingsUnfold(styles: seq<string>, k: nat)
    requires k < |styles|
    ensures StyleBindings(styles[k..]) == ScanBindings(StripComments(styles[k]), 0) + StyleBindings(styles[k + 1..])
  {
    assert styles[k..][0] == styles[k] && styles[k..][1..] == styles[k + 1..];
  }

  /** Adding the scan from a match is adding that match's binding, then the scan after its `(`. */
  lemma AddNewScanStep(vars: seq<string>, s: string, search: nat, i: nat)
    requires FindVBind(s, search) == Some(i)
    ensures AddNew(vars, ScanBindings(s, search)) ==
            AddNew(AddNew(vars, AsList(BindingAt(s, i))), ScanBindings(s, ArgumentStart(s, i)))
  {
    ScanBindingsUnfold(s, search);
    AddNewConcat(vars, AsList(BindingAt(s, i)), ScanBindings(s, ArgumentStart(s, i)));
  }

  /** Adding a single element is the `includes`/`push` step. */
  lemma AddNewSingle(vars: seq<string>, x: string)
    ensures AddNew(vars, [x]) == AddOne(vars, x)
  {
    assert [x][1..] == [];
  }

  /** The `exec` loop over one comment-free style, adding each closed binding it finds to `vars`. */
  method CollectStyle(content: string, vars0: seq<string>) returns (vars: seq<string>)
    ensures vars == AddNew(vars0, ScanBindings(content, 0))
  {
    vars := vars0;
    var search := 0;
    var found := FindVBind(content, search);
    while found.Some?
      invariant found == FindVBind(content, search)
      invariant AddNew(vars, ScanBindings(content, search)) == AddNew(vars0, ScanBindings(content, 0))
      decreases |content| - search
    {
      var start := ArgumentStart(content, found.value);
      var end := LexBinding(content, start);
      AddNewScanStep(vars, content, search, found.value);
      if end.Some? {
        var variable := NormalizeExpression(Slice(content, start, end.value));
        AddNewSingle(vars, variable);
        vars := AddOne(vars, variable);
      }
      search := start;
      found := FindVBind(content, search);
    }
    ScanBindingsUnfold(content, search);
  }

  /** `parseCssVars`: the distinct expressions bound in all styles, in order of first appearance. */
  method ParseCssVars(styles: seq<string>) returns (vars: seq<string>)
    ensures vars == Dedup(StyleBindings(styles))
    ensures NoDuplicates(vars)
    ensures forall v :: v in vars <==> v in StyleBindings(styles)
  {
    vars := [];
    var k := 0;
    while k < |styles|
      invariant 0 <= k <= |styles|
      invariant AddNew(vars, StyleBindings(styles[k..])) == Dedup(StyleBindings(styles))
    {
      var content := StripComments(styles[k]);
      StyleBindingsUnfold(styles, k);
      AddNewConcat(vars, ScanBindings(content, 0), StyleBindings(styles[k + 1..]));
      vars := CollectStyle(content, vars);
      k := k + 1;
    }
    assert styles[k..] == [];
    DedupKeepsFirstOccurrences(StyleBindings(styles), "");
  }

  /* ------------------------------------------------------------------ */
  /* Code generation                                                     */
  /* ------------------------------------------------------------------ */

  /** `parts.join(sep)`. */
  function Join(parts: seq<string>, sep: string): string {
    if parts == [] then ""
    else if |parts| == 1 then parts[0]
    else parts[0] + sep + Join(parts[1..], sep)
  }

  /** Where `parts[i]` begins in `Join(parts, sep)`. */
  function JoinOffset(parts: seq<string>, sep: string, i: nat): nat
    requires i < |parts|
  {
    if i == 0 then 0 else |parts[0]| + |sep| + JoinOffset(parts[1..], sep, i - 1)
  }

  /** Every part appears, unaltered, at its offset in the joined text. */
  lemma {:induction false} JoinContainsParts(parts: seq<string>, sep: string, i: nat)
    requires i < |parts|
    ensures var o := JoinOffset(parts, sep, i);
            o + |parts[i]| <= |Join(parts, sep)| && Join(parts, sep)[o..o + |parts[i]|] == parts[i]
  {
    if |parts| > 1 {
      var head := parts[0] + sep;
      assert Join(parts, sep) == head + Join(parts[1..], sep);
      if i > 0 {
        JoinContainsParts(parts[1..], sep, i - 1);
      }
    }
  }

  /** One line of the generated object: `"name": (expr)`, with `--` in front of the name for server rendering. */
  function VarEntry(key: string, id: string, isProd: bool, isSSR: bool, hash: string -> string): string {
    "\"" + (if isSSR then "--" else "") + GenerateVarName(id, key, isProd, hash) + "\": (" + key + ")"
  }

  function VarEntries(vars: seq<string>, id: string, isProd: bool, isSSR: bool, hash: string -> string): (r: seq<string>)
    ensures |r| == |vars| && forall i :: 0 <= i < |vars| ==> r[i] == VarEntry(vars[i], id, isProd, isSSR, hash)
  {
    if vars == [] then [] else [VarEntry(vars[0], id, isProd, isSSR, hash)] + VarEntries(vars[1..], id, isProd, isSSR, hash)
  }

  /** `genCssVarsFromList`: an object literal with one entry per expression, each on its own indented line. */
  function GenCssVarsFromList(vars: seq<string>, id: string, isProd: bool, isSSR: bool, hash: string -> string): string {
    "{\n  " + Join(VarEntries(vars, id, isProd, isSSR, hash), ",\n  ") + "\n}"
  }

  /** The generated object declares every expression of the list under its generated name. */
  lemma GeneratedObjectDeclaresEveryVar(vars: seq<string>, id: string, isProd: bool, isSSR: bool, hash: string -> string, i: nat)
    requires i < |vars|
    ensures OccursAt(VarEntry(vars[i], id, isProd, isSSR, hash), GenCssVarsFromList(vars, id, isProd, isSSR, hash), 4 + JoinOffset(VarEntries(vars, id, isProd, isSSR, hash), ",\n  ", i))
  {
    ObjectContainsEntry(VarEntries(vars, id, isProd, isSSR, hash), i);
  }

  /** Each entry appears, unaltered, at its offset in the braces-and-commas object text. */
  lemma ObjectContainsEntry(entries: seq<string>, i: nat)
    requires i < |entries|
    ensures OccursAt(entries[i], "{\n  " + Join(entries, ",\n  ") + "\n}", 4 + JoinOffset(entries, ",\n  ", i))
  {
    var body := Join(entries, ",\n  ");
    JoinContainsParts(entries, ",\n  ", i);
    var o := JoinOffset(entries, ",\n  ", i);
    SliceOfMiddle("{\n  ", body, "\n}", o, |entries[i]|);
  }

  /** A window of the middle part of a three-part concatenation can be read back from it. */
  lemma SliceOfMiddle(a: string, b: string, c: string, o: nat, n: nat)
    requires o + n <= |b|
    ensures (a + b + c)[|a| + o..|a| + o + n] == b[o..o + n]
  {
  }

  /* ------------------------------------------------------------------ */
  /* Rewriting declaration values                                        */
  /* ------------------------------------------------------------------ */

  /** The reference a binding is replaced with. */
  function VarRef(id: string, v: string, isProd: bool, hash: string -> string): string {
    "var(--" + GenerateVarName(id, v, isProd, hash) + ")"
  }

  /**
    A piece of a rewritten value: the text `s.slice(from, to)` copied as it
    is, or the binding whose raw text is `s.slice(start, end)` replaced by
    its reference.
   */
  datatype Piece = Copied(from: nat, to: nat) | Replaced(start: nat, end: nat)

  /** The text of one piece of a rewrite of `s`. */
  function PieceText(s: string, p: Piece, id: string, isProd: bool, hash: string -> string): string {
    match p
    case Copied(from, to) => Slice(s, from, to)
    case Replaced(start, end) => VarRef(id, NormalizeExpression(Slice(s, start, end)), isProd, hash)
  }

  /** The pieces' texts, one after the other. */
  function Render(s: string, ps: seq<Piece>, id: string, isProd: bool, hash: string -> string): string
    decreases |ps|
  {
    if ps == [] then [] else PieceText(s, ps[0], id, isProd, hash) + Render(s, ps[1..], id, isProd, hash)
  }

  /** Rendering two runs of pieces is rendering each and joining the texts. */
  lemma {:induction false} RenderAppend(s: string, a: seq<Piece>, b: seq<Piece>, id: string, isProd: bool, hash: string -> string)
    ensures Render(s, a + b, id, isProd, hash) == Render(s, a, id, isProd, hash) + Render(s, b, id, isProd, hash)
    decreases |a|
  {
    if a == [] {
      assert a + b == b;
    } else {
      assert (a + b)[0] == a[0] && (a + b)[1..] == a[1..] + b;
      RenderAppend(s, a[1..], b, id, isProd, hash);
      ConcatAssoc(PieceText(s, a[0], id, isProd, hash), Render(s, a[1..], id, isProd, hash), Render(s, b, id, isProd, hash));
    }
  }

  /** A replaced binding after copied text renders as the copy followed by the reference. */
  lemma RenderPair(s: string, last: nat, i: nat, start: nat, e: nat, id: string, isProd: bool, hash: string -> string)
    ensures Render(s, [Copied(last, i), Replaced(start, e)], id, isProd, hash) ==
            Slice(s, last, i) + VarRef(id, NormalizeExpression(Slice(s, start, e)), isProd, hash)
  {
    var ps := [Copied(last, i), Replaced(start, e)];
    var t := [Replaced(start, e)];
    assert t[1..] == [] && ps[1..] == t;
    assert Render(s, t, id, isProd, hash) == PieceText(s, Replaced(start, e), id, isProd, hash);
  }

  /** A single copied piece renders as the copied text. */
  lemma RenderCopied(s: string, from: nat, to: nat, id: string, isProd: bool, hash: string -> string)
    ensures Render(s, [Copied(from, to)], id, isProd, hash) == Slice(s, from, to)
  {
    assert [Copied(from, to)][1..] == [];
  }

  /**
    `transformCssValue` as written, as pieces, from `vBindRE.lastIndex ==
    search` with the copied text ending at `last`. After a match the search
    goes on just after its `(`, even when the binding was closed and
    replaced, so a `v-bind(` inside a replaced binding is matched and
    replaced again.
   */
  function AsWrittenPieces(s: string, search: nat, last: nat): seq<Piece>
    decreases |s| - search
  {
    match FindVBind(s, search)
    case None => [Copied(last, |s|)]
    case Some(i) =>
      var start := ArgumentStart(s, i);
      match LexClose(s, start)
      case None => AsWrittenPieces(s, start, last)
      case Some(e) => [Copied(last, i), Replaced(start, e)] + AsWrittenPieces(s, start, e + 1)
  }

  function TransformAsWritten(s: string, id: string, isProd: bool, hash: string -> string): string {
    Render(s, AsWrittenPieces(s, 0, 0), id, isProd, hash)
  }

  /** The example value `v-bind(v-bind(x))`. */
  const Nested: string := "v-bind(v-bind(x))"

  /** Both `v-bind(` of the example match, the outer one's argument starting at 7 and the inner one's at 14. */
  lemma NestedMatches()
    ensures FindVBind(Nested, 0) == Some(0) && ArgumentStart(Nested, 0) == 7
    ensures FindVBind(Nested, 7) == Some(7) && ArgumentStart(Nested, 7) == 14
    ensures FindVBind(Nested, 14) == None && FindVBind(Nested, 17) == None
  {
    assert SkipSpaces(Nested, 6) == 6;
    assert SkipSpaces(Nested, 13) == 13;
  }

  /** The outer binding closes at the last `)`. */
  lemma NestedOuterCloses()
    ensures LexClose(Nested, 7) == Some(16)
  {
    assert ScanState(Nested, 7, 14) == LexPos(InParens, 1);
    assert ScanState(Nested, 7, 16) == LexPos(InParens, 0);
    FirstCloseIsLexClose(Nested, 7, 16);
  }

  /** The inner binding closes at the `)` before the last. */
  lemma NestedInnerCloses()
    ensures LexClose(Nested, 14) == Some(15)
  {
    FirstCloseIsLexClose(Nested, 14, 15);
  }

  /** As written, the example is cut into the outer binding, the inner binding and the outer `)`. */
  lemma NestedAsWrittenPieces()
    ensures AsWrittenPieces(Nested, 0, 0) ==
            [Copied(0, 0), Replaced(7, 16)] + [Copied(17, 7), Replaced(14, 15)] + [Copied(16, 17)]
  {
    NestedAsWrittenInner();
    NestedMatches();
    NestedOuterCloses();
  }

  /** As written, the search resumes inside the outer binding and replaces the inner one too. */
  lemma NestedAsWrittenInner()
    ensures AsWrittenPieces(Nested, 7, 17) == [Copied(17, 7), Replaced(14, 15)] + [Copied(16, 17)]
  {
    NestedMatches();
    NestedInnerCloses();
    assert AsWrittenPieces(Nested, 14, 16) == [Copied(16, 17)];
  }

  /** Both arguments of the example are already trimmed and unquoted. */
  lemma NestedArgumentsArePlain()
    ensures NormalizeExpression("v-bind(x)") == "v-bind(x)"
    ensures NormalizeExpression("x") == "x"
  {
    NormalizeKeepsPlainExpression("v-bind(x)");
    NormalizeKeepsPlainExpression("x");
  }

  /** The pieces of the example the rewrites copy or replace. */
  lemma NestedSlices()
    ensures Slice(Nested, 7, 16) == "v-bind(x)" && Slice(Nested, 14, 15) == "x" && Slice(Nested, 16, 17) == ")"
    ensures Slice(Nested, 0, 0) == [] && Slice(Nested, 17, 7) == [] && Slice(Nested, 17, 17) == []
  {
  }

  /** The outer binding, with nothing before it, renders as its reference. */
  lemma NestedOuterPair(id: string, isProd: bool, hash: string -> string)
    ensures Render(Nested, [Copied(0, 0), Replaced(7, 16)], id, isProd, hash) == VarRef(id, "v-bind(x)", isProd, hash)
  {
    RenderPair(Nested, 0, 0, 7, 16, id, isProd, hash);
    NestedSlices();
    NestedArgumentsArePlain();
  }

  /** The inner binding, with the empty `value.slice(17, 7)` before it, renders as its reference. */
  lemma NestedInnerPair(id: string, isProd: bool, hash: string -> string)
    ensures Render(Nested, [Copied(17, 7), Replaced(14, 15)], id, isProd, hash) == VarRef(id, "x", isProd, hash)
  {
    RenderPair(Nested, 17, 7, 14, 15, id, isProd, hash);
    NestedSlices();
    NestedArgumentsArePlain();
  }

  /**
    As written, a nested binding is replaced twice: the outer binding's
    reference, then the inner binding's, then the outer binding's `)` copied
    once more (`var(--id-v-bind_x_)var(--id-x))` in development mode).
   */
  lemma NestedBindingRewrittenTwice(id: string, isProd: bool, hash: string -> string)
    ensures TransformAsWritten(Nested, id, isProd, hash) ==
            VarRef(id, "v-bind(x)", isProd, hash) + VarRef(id, "x", isProd, hash) + ")"
  {
    var outer := [Copied(0, 0), Replaced(7, 16)];
    var inner := [Copied(17, 7), Replaced(14, 15)];
    NestedAsWrittenPieces();
    RenderAppend(Nested, outer + inner, [Copied(16, 17)], id, isProd, hash);
    RenderAppend(Nested, outer, inner, id, isProd, hash);
    NestedOuterPair(id, isProd, hash);
    NestedInnerPair(id, isProd, hash);
    RenderCopied(Nested, 16, 17, id, isProd, hash);
    NestedSlices();
  }

  /**
    The rewrite as pieces, with the search resumed after the `)` of each
    replaced binding (see the findings in the README): each binding is
    replaced once and only the text between bindings is copied.
   */
  function RewritePieces(s: string, search: nat, last: nat): seq<Piece>
    decreases |s| - search
  {
    match FindVBind(s, search)
    case None => [Copied(last, |s|)]
    case Some(i) =>
      var start := ArgumentStart(s, i);
      match LexClose(s, start)
      case None => RewritePieces(s, start, last)
      case Some(e) => [Copied(last, i), Replaced(start, e)] + RewritePieces(s, e + 1, e + 1)
  }

  /** The rewrite of a whole declaration value. */
  function Rewrite(s: string, id: string, isProd: bool, hash: string -> string): string {
    Render(s, RewritePieces(s, 0, 0), id, isProd, hash)
  }

  /** The corrected rewrite cuts the example into its outer binding alone. */
  lemma NestedRewritePieces()
    ensures RewritePieces(Nested, 0, 0) == [Copied(0, 0), Replaced(7, 16)] + [Copied(17, 17)]
  {
    NestedMatches();
    NestedOuterCloses();
  }

  /** The corrected rewrite of the example replaces only the outer binding (`var(--id-v-bind_x_)` in development mode). */
  lemma NestedBindingRewrittenOnce(id: string, isProd: bool, hash: string -> string)
    ensures Rewrite(Nested, id, isProd, hash) == VarRef(id, "v-bind(x)", isProd, hash)
  {
    NestedRewritePieces();
    RenderAppend(Nested, [Copied(0, 0), Replaced(7, 16)], [Copied(17, 17)], id, isProd, hash);
    NestedOuterPair(id, isProd, hash);
    RenderCopied(Nested, 17, 17, id, isProd, hash);
    NestedSlices();
  }

  /** The raw texts of the bindings the rewrite replaces, in order. */
  function ReplacedTexts(s: string, ps: seq<Piece>): seq<string>
    decreases |ps|
  {
    if ps == [] then []
    else (match ps[0] case Copied(_, _) => [] case Replaced(start, end) => [Slice(s, start, end)]) + ReplacedTexts(s, ps[1..])
  }

  /** The raw texts of the bindings the rewrite of `s` from `search` replaces. */
  function RewrittenBindings(s: string, search: nat): seq<string> {
    ReplacedTexts(s, RewritePieces(s, search, search))
  }

  /** The rewrite skips a match whose binding is never closed, copying nothing yet. */
  lemma RewriteSkipsUnclosed(s: string, search: nat, last: nat, i: nat)
    requires FindVBind(s, search) == Some(i)
    requires LexClose(s, ArgumentStart(s, i)).None?
    ensures RewritePieces(s, search, last) == RewritePieces(s, ArgumentStart(s, i), last)
  {
  }

  /** The rewrite replaces a closed binding and goes on after its `)`. */
  lemma RewriteReplacesClosed(s: string, search: nat, last: nat, i: nat, e: nat)
    requires FindVBind(s, search) == Some(i)
    requires LexClose(s, ArgumentStart(s, i)) == Some(e)
    ensures RewritePieces(s, search, last) == [Copied(last, i), Replaced(ArgumentStart(s, i), e)] + RewritePieces(s, e + 1, e + 1)
  {
  }

  /** With no match left, the rest of the value is copied. */
  lemma FindVBindNoneRewrite(s: string, search: nat, last: nat)
    requires FindVBind(s, search).None?
    ensures RewritePieces(s, search, last) == [Copied(last, |s|)]
  {
  }

  lemma ConcatAssoc<T>(a: seq<T>, b: seq<T>, c: seq<T>)
    ensures (a + b) + c == a + (b + c)
  {
  }

  /** Appending a replaced binding to the text built so far keeps the whole rewrite the same. */
  lemma RewriteStepClosed(done: string, s: string, search: nat, last: nat, i: nat, e: nat, id: string, isProd: bool, hash: string -> string)
    requires FindVBind(s, search) == Some(i)
    requires LexClose(s, ArgumentStart(s, i)) == Some(e)
    ensures done + Render(s, RewritePieces(s, search, last), id, isProd, hash) ==
            (done + (Slice(s, last, i) + VarRef(id, NormalizeExpression(Slice(s, ArgumentStart(s, i), e)), isProd, hash)))
            + Render(s, RewritePieces(s, e + 1, e + 1), id, isProd, hash)
  {
    var pair := [Copied(last, i), Replaced(ArgumentStart(s, i), e)];
    RewriteReplacesClosed(s, search, last, i, e);
    RenderAppend(s, pair, RewritePieces(s, e + 1, e + 1), id, isProd, hash);
    RenderPair(s, last, i, ArgumentStart(s, i), e, id, isProd, hash);
    ConcatAssoc(done, Render(s, pair, id, isProd, hash), Render(s, RewritePieces(s, e + 1, e + 1), id, isProd, hash));
  }

  /** Rewriting from `search` replaces nothing when there is no closed binding there, whatever `last` is. */
  lemma {:induction false} NoBindingsMeansOneCopy(s: string, search: nat, last: nat)
    requires ReplacedTexts(s, RewritePieces(s, search, search)) == []
    ensures RewritePieces(s, search, last) == [Copied(last, |s|)]
    decreases |s| - search
  {
    match FindVBind(s, search)
    case None =>
    case Some(i) =>
      var start := ArgumentStart(s, i);
      match LexClose(s, start)
      case None =>
        assert RewritePieces(s, search, search) == RewritePieces(s, start, search);
        NoBindingsFromLater(s, start, search);
        NoBindingsMeansOneCopy(s, start, last);
      case Some(e) =>
        RewriteReplacesClosed(s, search, search, i, e);
        ReplacedTextsOfPair(s, search, i, start, e, RewritePieces(s, e + 1, e + 1));
        assert false;
  }

  /** Which bindings the rewrite replaces does not depend on where the copied text starts. */
  lemma {:induction false} NoBindingsFromLater(s: string, search: nat, last: nat)
    ensures ReplacedTexts(s, RewritePieces(s, search, last)) == ReplacedTexts(s, RewritePieces(s, search, search))
    decreases |s| - search
  {
    match FindVBind(s, search)
    case None =>
    case Some(i) =>
      var start := ArgumentStart(s, i);
      match LexClose(s, start)
      case None =>
        NoBindingsFromLater(s, start, last);
        NoBindingsFromLater(s, start, search);
      case Some(e) =>
        var a := RewritePieces(s, search, last);
        var b := RewritePieces(s, search, search);
        ReplacedTextsOfPair(s, last, i, start, e, RewritePieces(s, e + 1, e + 1));
        ReplacedTextsOfPair(s, search, i, start, e, RewritePieces(s, e + 1, e + 1));
  }

  /** The replaced texts of a copied piece and a replaced binding in front of more pieces. */
  lemma ReplacedTextsOfPair(s: string, last: nat, i: nat, start: nat, e: nat, rest: seq<Piece>)
    ensures ReplacedTexts(s, [Copied(last, i), Replaced(start, e)] + rest) == [Slice(s, start, e)] + ReplacedTexts(s, rest)
  {
    var ps := [Copied(last, i), Replaced(start, e)] + rest;
    assert ps[1..][1..] == rest;
  }

  /**
    The `exec` loop of `transformCssValue` with the search resumed after each
    replaced binding: it records what it copies and what it replaces as pieces.
   */
  method CutValueFixed(value: string) returns (pieces: seq<Piece>)
    ensures pieces == RewritePieces(value, 0, 0)
  {
    pieces := [];
    var lastIndex := 0;
    var search := 0;
    var found := FindVBind(value, search);
    while found.Some?
      invariant found == FindVBind(value, search)
      invariant pieces + RewritePieces(value, search, lastIndex) == RewritePieces(value, 0, 0)
      decreases |value| - search
    {
      var index := found.value;
      var start := ArgumentStart(value, index);
      var end := LexBinding(value, start);
      if end.Some? {
        RewriteReplacesClosed(value, search, lastIndex, index, end.value);
        ConcatAssoc(pieces, [Copied(lastIndex, index), Replaced(start, end.value)], RewritePieces(value, end.value + 1, end.value + 1));
        pieces := pieces + [Copied(lastIndex, index), Replaced(start, end.value)];
        lastIndex := end.value + 1;
        search := end.value + 1;
      } else {
        RewriteSkipsUnclosed(value, search, lastIndex, index);
        search := start;
      }
      found := FindVBind(value, search);
    }
    FindVBindNoneRewrite(value, search, lastIndex);
    pieces := pieces + [Copied(lastIndex, |value|)];
  }

  /** `transformCssValue` corrected: the value with each closed binding replaced by its reference, once. */
  method TransformCssValueFixed(value: string, id: string, isProd: bool, hash: string -> string) returns (r: string)
    ensures r == Rewrite(value, id, isProd, hash)
    ensures RewrittenBindings(value, 0) == [] ==> r == value
  {
    var pieces := CutValueFixed(value);
    r := Render(value, pieces, id, isProd, hash);
    RewriteWithoutBindingsCopies(value, id, isProd, hash);
  }

  /** A value in which no binding is closed comes out unchanged. */
  lemma RewriteWithoutBindingsCopies(s: string, id: string, isProd: bool, hash: string -> string)
    ensures RewrittenBindings(s, 0) == [] ==> Rewrite(s, id, isProd, hash) == s
  {
    if RewrittenBindings(s, 0) == [] {
      NoBindingsMeansOneCopy(s, 0, 0);
      RenderCopied(s, 0, |s|, id, isProd, hash);
    }
  }

  /** Every binding the rewrite replaces is one the scan of the same text finds from no later a point. */
  lemma {:induction false} RewrittenBindingsAreScanned(s: string, search: nat, raw: string)
    requires raw in RewrittenBindings(s, search)
    ensures NormalizeExpression(raw) in ScanBindings(s, search)
    decreases |s| - search
  {
    match FindVBind(s, search)
    case None =>
      NoMatchNoBindings(s, search);
    case Some(i) =>
      var start := ArgumentStart(s, i);
      match LexClose(s, start)
      case None =>
        UnclosedAddsNoBinding(s, search, i);
        RewrittenBindingsAreScanned(s, start, raw);
        ScannedLater(s, search, start, NormalizeExpression(raw));
      case Some(e) =>
        ClosedAddsBinding(s, search, i, e);
        if raw != Slice(s, start, e) {
          RewrittenBindingsAreScanned(s, e + 1, raw);
        }
        ClosedBindingScanned(s, search, i, e, raw);
  }

  /** The scan from `search` finds a closed binding's own expression and whatever it finds after the `)`. */
  lemma ClosedBindingScanned(s: string, search: nat, i: nat, e: nat, raw: string)
    requires FindVBind(s, search) == Some(i)
    requires LexClose(s, ArgumentStart(s, i)) == Some(e)
    requires raw == Slice(s, ArgumentStart(s, i), e) || NormalizeExpression(raw) in ScanBindings(s, e + 1)
    ensures NormalizeExpression(raw) in ScanBindings(s, search)
  {
    if raw == Slice(s, ArgumentStart(s, i), e) {
      ScanFindsEveryMatch(s, search, i, NormalizeExpression(raw));
    } else {
      ScannedLater(s, search, e + 1, NormalizeExpression(raw));
    }
  }

  /** With no match left, nothing is replaced. */
  lemma NoMatchNoBindings(s: string, search: nat)
    requires FindVBind(s, search).None?
    ensures RewrittenBindings(s, search) == []
  {
    FindVBindNoneRewrite(s, search, search);
    var ps := [Copied(search, |s|)];
    assert ps[1..] == [];
    assert ReplacedTexts(s, ps) == [] + ReplacedTexts(s, []);
  }

  /** A match whose binding is never closed adds nothing to the replaced bindings. */
  lemma UnclosedAddsNoBinding(s: string, search: nat, i: nat)
    requires FindVBind(s, search) == Some(i)
    requires LexClose(s, ArgumentStart(s, i)).None?
    ensures RewrittenBindings(s, search) == RewrittenBindings(s, ArgumentStart(s, i))
  {
    RewriteSkipsUnclosed(s, search, search, i);
    NoBindingsFromLater(s, ArgumentStart(s, i), search);
  }

  /** A closed binding is the next one replaced. */
  lemma ClosedAddsBinding(s: string, search: nat, i: nat, e: nat)
    requires FindVBind(s, search) == Some(i)
    requires LexClose(s, ArgumentStart(s, i)) == Some(e)
    ensures RewrittenBindings(s, search) == [Slice(s, ArgumentStart(s, i), e)] + RewrittenBindings(s, e + 1)
  {
    RewriteReplacesClosed(s, search, search, i, e);
    ReplacedTextsOfPair(s, search, i, ArgumentStart(s, i), e, RewritePieces(s, e + 1, e + 1));
  }

  /** What the scan finds from a later point it also finds from an earlier one. */
  lemma ScannedLater(s: string, search: nat, later: nat, v: string)
    requires search <= later
    requires v in ScanBindings(s, later)
    ensures v in ScanBindings(s, search)
  {
    ScanFindsOnlyMatches(s, later, v);
    var j :| later <= j && MatchAt(s, j) && BindingAt(s, j) == Some(v);
    ScanFindsEveryMatch(s, search, j, v);
  }

  /**
    For a style without comments, every binding the rewrite replaces is one
    that `parseCssVars` lists, so the object generated from that list
    declares the custom property its reference names.
   */
  lemma RewrittenVarsAreDeclared(style: string, id: string, isProd: bool, hash: string -> string, raw: string)
    requires forall i :: !OpensCommentAt(style, i)
    requires raw in RewrittenBindings(style, 0)
    ensures DeclaredIn(Dedup(StyleBindings([style])), NormalizeExpression(raw), id, isProd, hash)
  {
    RewrittenVarsAreListed(style, raw);
    ListedVarIsDeclared(Dedup(StyleBindings([style])), NormalizeExpression(raw), id, isProd, hash);
  }

  /** The SSR object generated from `vars` holds, at its place, the entry of `v`, which is one of `vars`. */
  predicate DeclaredIn(vars: seq<string>, v: string, id: string, isProd: bool, hash: string -> string) {
    exists i :: 0 <= i < |vars| && vars[i] == v &&
      OccursAt(VarEntry(vars[i], id, isProd, true, hash),
               GenCssVarsFromList(vars, id, isProd, true, hash),
               4 + JoinOffset(VarEntries(vars, id, isProd, true, hash), ",\n  ", i))
  }

  /** A listed variable has its entry in the generated object. */
  lemma ListedVarIsDeclared(vars: seq<string>, v: string, id: string, isProd: bool, hash: string -> string)
    requires v in vars
    ensures DeclaredIn(vars, v, id, isProd, hash)
  {
    var i :| 0 <= i < |vars| && vars[i] == v;
    VarAtIsDeclared(vars, i, id, isProd, hash);
  }

  /** The variable at position `i` has its entry in the generated object. */
  lemma VarAtIsDeclared(vars: seq<string>, i: nat, id: string, isProd: bool, hash: string -> string)
    requires i < |vars|
    ensures DeclaredIn(vars, vars[i], id, isProd, hash)
  {
    GeneratedObjectDeclaresEveryVar(vars, id, isProd, true, hash, i);
  }

  /** For a style without comments, every binding the rewrite replaces is listed by `parseCssVars`. */
  lemma RewrittenVarsAreListed(style: string, raw: string)
    requires forall i :: !OpensCommentAt(style, i)
    requires raw in RewrittenBindings(style, 0)
    ensures NormalizeExpression(raw) in Dedup(StyleBindings([style]))
  {
    StripCommentsKeepsCommentFreeText(style);
    assert StyleBindings([style]) == ScanBindings(style, 0) + StyleBindings([]);
    RewrittenBindingsAreScanned(style, 0, raw);
    DedupKeepsFirstOccurrences(StyleBindings([style]), NormalizeExpression(raw));
  }

  /* ------------------------------------------------------------------ */
  /* The rewrite as written                                              */
  /* ------------------------------------------------------------------ */

  /** Each raw binding text normalized, in order. */
  function NormalizeAll(raws: seq<string>): (r: seq<string>)
    ensures |r| == |raws|
  {
    if raws == [] then [] else [NormalizeExpression(raws[0])] + NormalizeAll(raws[1..])
  }

  /** A raw text of the list has its normalized form in the normalized list. */
  lemma {:induction false} NormalizeAllMembers(raws: seq<string>, raw: string)
    requires raw in raws
    ensures NormalizeExpression(raw) in NormalizeAll(raws)
    decreases |raws|
  {
    if raws[0] != raw {
      assert raw in raws[1..];
      NormalizeAllMembers(raws[1..], raw);
    }
  }

  /** As written, with no match left the rest of the value is copied. */
  lemma AsWrittenNoMatch(s: string, search: nat, last: nat)
    requires FindVBind(s, search).None?
    ensures AsWrittenPieces(s, search, last) == [Copied(last, |s|)]
  {
  }

  /** As written, a match whose binding never closes adds nothing, and the search goes on after its `(`. */
  lemma AsWrittenSkipsUnclosed(s: string, search: nat, last: nat, i: nat)
    requires FindVBind(s, search) == Some(i)
    requires LexClose(s, ArgumentStart(s, i)).None?
    ensures AsWrittenPieces(s, search, last) == AsWrittenPieces(s, ArgumentStart(s, i), last)
  {
  }

  /**
    As written, a closed binding copies the text since `last`, becomes a
    reference, moves `last` past its `)`, and the search goes on just after
    its `(`.
   */
  lemma AsWrittenReplacesClosed(s: string, search: nat, last: nat, i: nat, e: nat)
    requires FindVBind(s, search) == Some(i)
    requires LexClose(s, ArgumentStart(s, i)) == Some(e)
    ensures AsWrittenPieces(s, search, last) ==
            [Copied(last, i), Replaced(ArgumentStart(s, i), e)] + AsWrittenPieces(s, ArgumentStart(s, i), e + 1)
  {
  }

  /** Normalizing a list one raw text at a time. */
  lemma NormalizeAllCons(raw: string, raws: seq<string>)
    ensures NormalizeAll([raw] + raws) == [NormalizeExpression(raw)] + NormalizeAll(raws)
  {
    assert ([raw] + raws)[1..] == raws;
  }

  /** The scan's step over a match whose binding closes. */
  lemma ScanClosedStep(s: string, from: nat, i: nat, e: nat)
    requires FindVBind(s, from) == Some(i)
    requires LexClose(s, ArgumentStart(s, i)) == Some(e)
    ensures ScanBindings(s, from) == [NormalizeExpression(Slice(s, ArgumentStart(s, i), e))] + ScanBindings(s, ArgumentStart(s, i))
  {
    ScanBindingsUnfold(s, from);
  }

  /** As written, the normalized replaced texts after a closed binding. */
  lemma AsWrittenClosedTexts(s: string, search: nat, last: nat, i: nat, e: nat)
    requires FindVBind(s, search) == Some(i)
    requires LexClose(s, ArgumentStart(s, i)) == Some(e)
    ensures NormalizeAll(ReplacedTexts(s, AsWrittenPieces(s, search, last))) ==
            [NormalizeExpression(Slice(s, ArgumentStart(s, i), e))] +
            NormalizeAll(ReplacedTexts(s, AsWrittenPieces(s, ArgumentStart(s, i), e + 1)))
  {
    var rest := AsWrittenPieces(s, ArgumentStart(s, i), e + 1);
    AsWrittenReplacesClosed(s, search, last, i, e);
    ReplacedTextsOfPair(s, last, i, ArgumentStart(s, i), e, rest);
    NormalizeAllCons(Slice(s, ArgumentStart(s, i), e), ReplacedTexts(s, rest));
  }

  /** As written, no match left means nothing replaced. */
  lemma AsWrittenNoMatchNoTexts(s: string, search: nat, last: nat)
    requires FindVBind(s, search).None?
    ensures ReplacedTexts(s, AsWrittenPieces(s, search, last)) == []
  {
    AsWrittenNoMatch(s, search, last);
    var ps := [Copied(last, |s|)];
    assert ps[1..] == [];
    assert ReplacedTexts(s, ps) == [] + ReplacedTexts(s, []);
  }

  /**
    As written, `transformCssValue` replaces exactly the bindings the scan of
    `parseCssVars` finds: the same expressions, in the same order, with the
    same repetitions, because both loops resume just after each `(`.
   */
  lemma {:induction false} AsWrittenReplacesWhatScanFinds(s: string, search: nat, last: nat)
    ensures NormalizeAll(ReplacedTexts(s, AsWrittenPieces(s, search, last))) == ScanBindings(s, search)
    decreases |s| - search
  {
    match FindVBind(s, search)
    case None =>
      ScanBindingsUnfold(s, search);
      AsWrittenNoMatchNoTexts(s, search, last);
    case Some(i) =>
      var start := ArgumentStart(s, i);
      match LexClose(s, start)
      case None =>
        AsWrittenReplacesWhatScanFinds(s, start, last);
        AsWrittenUnclosedScanStep(s, search, last, i);
      case Some(e) =>
        AsWrittenReplacesWhatScanFinds(s, start, e + 1);
        AsWrittenClosedScanStep(s, search, last, i, e);
  }

  /** The correspondence carries over a match whose binding never closes. */
  lemma AsWrittenUnclosedScanStep(s: string, search: nat, last: nat, i: nat)
    requires FindVBind(s, search) == Some(i)
    requires LexClose(s, ArgumentStart(s, i)).None?
    requires NormalizeAll(ReplacedTexts(s, AsWrittenPieces(s, ArgumentStart(s, i), last))) == ScanBindings(s, ArgumentStart(s, i))
    ensures NormalizeAll(ReplacedTexts(s, AsWrittenPieces(s, search, last))) == ScanBindings(s, search)
  {
    ScanBindingsUnfold(s, search);
    AsWrittenSkipsUnclosed(s, search, last, i);
  }

  /** The correspondence carries over a closed binding, which both sides list first. */
  lemma AsWrittenClosedScanStep(s: string, search: nat, last: nat, i: nat, e: nat)
    requires FindVBind(s, search) == Some(i)
    requires LexClose(s, ArgumentStart(s, i)) == Some(e)
    requires NormalizeAll(ReplacedTexts(s, AsWrittenPieces(s, ArgumentStart(s, i), e + 1))) == ScanBindings(s, ArgumentStart(s, i))
    ensures NormalizeAll(ReplacedTexts(s, AsWrittenPieces(s, search, last))) == ScanBindings(s, search)
  {
    ScanClosedStep(s, search, i, e);
    AsWrittenClosedTexts(s, search, last, i, e);
  }

  /** As written, replacing nothing from `search` means copying the rest of the value from `last`. */
  lemma {:induction false} AsWrittenNoBindingsMeansOneCopy(s: string, search: nat, last: nat)
    requires ReplacedTexts(s, AsWrittenPieces(s, search, last)) == []
    ensures AsWrittenPieces(s, search, last) == [Copied(last, |s|)]
    decreases |s| - search
  {
    match FindVBind(s, search)
    case None =>
    case Some(i) =>
      var start := ArgumentStart(s, i);
      match LexClose(s, start)
      case None =>
        AsWrittenSkipsUnclosed(s, search, last, i);
        AsWrittenNoBindingsMeansOneCopy(s, start, last);
      case Some(e) =>
        AsWrittenReplacesClosed(s, search, last, i, e);
        ReplacedTextsOfPair(s, last, i, start, e, AsWrittenPieces(s, start, e + 1));
        assert false;
  }

  /** As written, a value in which the scan finds no closed binding comes out unchanged. */
  lemma AsWrittenWithoutBindingsCopies(s: string, id: string, isProd: bool, hash: string -> string)
    ensures ScanBindings(s, 0) == [] ==> TransformAsWritten(s, id, isProd, hash) == s
  {
    if ScanBindings(s, 0) == [] {
      AsWrittenReplacesWhatScanFinds(s, 0, 0);
      AsWrittenNoBindingsMeansOneCopy(s, 0, 0);
      RenderCopied(s, 0, |s|, id, isProd, hash);
    }
  }

  /** For a style without comments, every binding the code as written replaces is listed by `parseCssVars`. */
  lemma AsWrittenVarsAreListed(style: string, raw: string)
    requires forall i :: !OpensCommentAt(style, i)
    requires raw in ReplacedTexts(style, AsWrittenPieces(style, 0, 0))
    ensures NormalizeExpression(raw) in Dedup(StyleBindings([style]))
  {
    StripCommentsKeepsCommentFreeText(style);
    assert StyleBindings([style]) == ScanBindings(style, 0) + StyleBindings([]);
    AsWrittenReplacesWhatScanFinds(style, 0, 0);
    NormalizeAllMembers(ReplacedTexts(style, AsWrittenPieces(style, 0, 0)), raw);
    DedupKeepsFirstOccurrences(StyleBindings([style]), NormalizeExpression(raw));
  }

  /** For a style without comments, every reference the code as written produces is declared by the generated object. */
  lemma AsWrittenVarsAreDeclared(style: string, id: string, isProd: bool, hash: string -> string, raw: string)
    requires forall i :: !OpensCommentAt(style, i)
    requires raw in ReplacedTexts(style, AsWrittenPieces(style, 0, 0))
    ensures DeclaredIn(Dedup(StyleBindings([style])), NormalizeExpression(raw), id, isProd, hash)
  {
    AsWrittenVarsAreListed(style, raw);
    ListedVarIsDeclared(Dedup(StyleBindings([style])), NormalizeExpression(raw), id, isProd, hash);
  }

  /** The code as written depends on where the search starts only through the match it finds there. */
  lemma AsWrittenSameSearch(s: string, a: nat, b: nat, last: nat)
    requires FindVBind(s, a) == FindVBind(s, b)
    ensures AsWrittenPieces(s, a, last) == AsWrittenPieces(s, b, last)
  {
  }

  /** No `v-bind(` match starts inside the argument of a closed binding, its `)` included. */
  ghost predicate NoBindingInsideBinding(s: string) {
    forall i: nat, j: nat :: MatchAt(s, i) && MatchAt(s, j) && LexClose(s, ArgumentStart(s, i)).Some? ==>
      !(ArgumentStart(s, i) <= j <= LexClose(s, ArgumentStart(s, i)).value)
  }

  /**
    Without a binding inside a binding, resuming after the `(` finds the same
    next match as resuming after the `)`, so the code as written and the
    corrected rewrite cut the value the same way.
   */
  lemma {:induction false} AsWrittenAgreesWithFix(s: string, search: nat, last: nat)
    requires NoBindingInsideBinding(s)
    ensures AsWrittenPieces(s, search, last) == RewritePieces(s, search, last)
    decreases |s| - search
  {
    match FindVBind(s, search)
    case None =>
    case Some(i) =>
      var start := ArgumentStart(s, i);
      match LexClose(s, start)
      case None =>
        AsWrittenAgreesWithFix(s, start, last);
      case Some(e) =>
        if FindVBind(s, start).Some? {
          var j := FindVBind(s, start).value;
          assert MatchAt(s, i) && MatchAt(s, j);
          assert e + 1 <= j;
        }
        FindVBindSkipsGap(s, start, e + 1);
        AsWrittenSameSearch(s, start, e + 1, e + 1);
        AsWrittenAgreesWithFix(s, e + 1, e + 1);
  }

  /** Without a binding inside a binding, the code as written computes the corrected rewrite. */
  lemma AsWrittenIsFixWithoutNesting(s: string, id: string, isProd: bool, hash: string -> string)
    requires NoBindingInsideBinding(s)
    ensures TransformAsWritten(s, id, isProd, hash) == Rewrite(s, id, isProd, hash)
  {
    AsWrittenAgreesWithFix(s, 0, 0);
  }

  /**
    The `exec` loop of `transformCssValue` as written: `vBindRE.lastIndex`
    stays just after each match's `(`, while the local `lastIndex` moves past
    each replaced binding's `)`.
   */
  method CutValue(value: string) returns (pieces: seq<Piece>)
    ensures pieces == AsWrittenPieces(value, 0, 0)
  {
    pieces := [];
    var lastIndex := 0;
    var search := 0;
    var found := FindVBind(value, search);
    while found.Some?
      invariant found == FindVBind(value, search)
      invariant pieces + AsWrittenPieces(value, search, lastIndex) == AsWrittenPieces(value, 0, 0)
      decreases |value| - search
    {
      var index := found.value;
      var start := ArgumentStart(value, index);
      var end := LexBinding(value, start);
      if end.Some? {
        AsWrittenReplacesClosed(value, search, lastIndex, index, end.value);
        ConcatAssoc(pieces, [Copied(lastIndex, index), Replaced(start, end.value)], AsWrittenPieces(value, start, end.value + 1));
        pieces := pieces + [Copied(lastIndex, index), Replaced(start, end.value)];
        lastIndex := end.value + 1;
      } else {
        AsWrittenSkipsUnclosed(value, search, lastIndex, index);
      }
      search := start;
      found := FindVBind(value, search);
    }
    AsWrittenNoMatch(value, search, lastIndex);
    pieces := pieces + [Copied(lastIndex, |value|)];
  }

  /**
    `transformCssValue` as written: unchanged when no binding closes, and the
    corrected rewrite whenever no binding sits inside another.
   */
  method TransformCssValue(value: string, id: string, isProd: bool, hash: string -> string) returns (r: string)
    ensures r == TransformAsWritten(value, id, isProd, hash)
    ensures ScanBindings(value, 0) == [] ==> r == value
    ensures NoBindingInsideBinding(value) ==> r == Rewrite(value, id, isProd, hash)
  {
    var pieces := CutValue(value);
    r := Render(value, pieces, id, isProd, hash);
    AsWrittenWithoutBindingsCopies(value, id, isProd, hash);
    if NoBindingInsideBinding(value) {
      AsWrittenIsFixWithoutNesting(value, id, isProd, hash);
    }
  }
}
