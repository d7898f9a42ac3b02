/**
`protect` of scripts/package/templated-fields.py: delimiters that belong to something other than
Helm are rewritten so that they survive Helm's own rendering -- and the renderer they survive,
Go's template lexer, which takes the leftmost `{{` in the text as the start of an action.
*/
module Escaping {
  import opened Options
  import opened Text

  const OPEN := "{{"
  const CLOSE := "}}"

  /** `{{ "d" }}` */
  function Escape(d: string): string {
    "{{ \"" + d + "\" }}"
  }

  /** One left-to-right pass over non-overlapping `{{` and `}}`. */
  function Protect(s: string): string {
    if s == "" then ""
    else if StartsWith(s, OPEN) then Escape(OPEN) + Protect(s[2..])
    else if StartsWith(s, CLOSE) then Escape(CLOSE) + Protect(s[2..])
    else [s[0]] + Protect(s[1..])
  }

  /** Text without delimiters, which `protect` leaves alone. */
  predicate IsPlain(s: string) {
    s == "" || (!StartsWith(s, OPEN) && !StartsWith(s, CLOSE) && IsPlain(s[1..]))
  }

  lemma {:induction false} PlainStays(s: string)
    requires IsPlain(s)
    ensures Protect(s) == s
  {
    if s != "" {
      PlainStays(s[1..]);
    }
  }

  lemma {:induction false} PlainHasNoPair(s: string, k: nat)
    requires IsPlain(s) && k + 1 < |s|
    ensures !(s[k] == '{' && s[k + 1] == '{') && !(s[k] == '}' && s[k + 1] == '}')
    decreases |s|
  {
    if k == 0 {
      assert s[..2] == [s[0], s[1]];
    } else {
      PlainHasNoPair(s[1..], k - 1);
    }
  }

  /**
  The values a release supplies: what each expression evaluates to, and what each whole control block
  (from its `if`, `with` or `range` to the matching `end`) renders to.
  */
  type Values = map<string, string>

  /**
  The length of an action's body: up to the first `}}` outside a quoted string.  A brace of
  either kind anywhere else in an action, a line break in a string, and a missing end are all
  parse errors.
  */
  function BodyLength(t: string, quoted: bool): (n: Option<nat>)
    ensures n.Some? ==> n.value + 2 <= |t|
  {
    if t == "" then None
    else if !quoted && StartsWith(t, CLOSE) then Some(0)
    else if !quoted && (t[0] == '{' || t[0] == '}') then None
    else if quoted && (t[0] == '\n' || t[0] == '\\') then None
    else
      var rest := BodyLength(t[1..], if t[0] == '"' then !quoted else quoted);
      if rest.None? then None else Some(rest.value + 1)
  }

  datatype Kind = Opens | Continues | Ends | Plain

  /** The word an action begins with. */
  function FirstWord(body: string): string {
    if body == "" then ""
    else if body[0] == ' ' then FirstWord(body[1..])
    else Word(body)
  }

  function Word(s: string): string {
    if s != "" && 'a' <= s[0] <= 'z' then [s[0]] + Word(s[1..]) else ""
  }

  function KindOf(body: string): Kind {
    var w := FirstWord(body);
    if w == "if" || w == "with" || w == "range" then Opens
    else if w == "else" then Continues
    else if w == "end" then Ends
    else Plain
  }

  predicate IsKeyword(word: string) {
    forall i :: 0 <= i < |word| ==> 'a' <= word[i] <= 'z'
  }

  lemma {:induction false} WordIs(word: string, rest: string)
    requires IsKeyword(word) && (rest == "" || !('a' <= rest[0] <= 'z'))
    ensures Word(word + rest) == word
  {
    if word == "" {
      assert word + rest == rest;
    } else {
      assert (word + rest)[1..] == word[1..] + rest;
      WordIs(word[1..], rest);
    }
  }

  /** What an action is follows from the word it begins with, blanks in front or not. */
  lemma KindFollowsFirstWord(word: string, rest: string)
    requires word != "" && IsKeyword(word) && (rest == "" || !('a' <= rest[0] <= 'z'))
    ensures KindOf(word + rest) == KindOf(" " + word + rest)
    ensures KindOf(word + rest).Opens? <==> word == "if" || word == "with" || word == "range"
    ensures KindOf(word + rest).Continues? <==> word == "else"
    ensures KindOf(word + rest).Ends? <==> word == "end"
  {
    WordIs(word, rest);
    assert (word + rest)[0] == word[0] != ' ';
    assert (" " + word + rest)[0] == ' ' && (" " + word + rest)[1..] == word + rest;
  }

  function Action(body: string): string {
    OPEN + body + CLOSE
  }

  /** The body of the action a text begins with, and what follows it. */
  function Front(t: string): (r: Option<(string, string)>)
    requires StartsWith(t, OPEN)
    ensures r.Some? ==> |r.value.0| + 4 + |r.value.1| == |t|
  {
    var n := BodyLength(t[2..], false);
    if n.None? then None else Some((t[2..2 + n.value], t[n.value + 4..]))
  }

  function DepthAfter(body: string, depth: nat): nat
    requires depth > 0
  {
    match KindOf(body)
    case Opens => depth + 1
    case Ends => depth - 1
    case _ => depth
  }

  /** The text up to where as many blocks as are open have ended, and what follows it. */
  function Block(t: string, depth: nat): (r: Option<(string, string)>)
    ensures r.Some? ==> |r.value.0| + |r.value.1| == |t|
    decreases |t|
  {
    if depth == 0 then Some(("", t))
    else if t == "" then None
    else if StartsWith(t, OPEN) then
      var f := Front(t);
      if f.None? then None
      else
        var more := Block(f.value.1, DepthAfter(f.value.0, depth));
        if more.None? then None else Some((Action(f.value.0) + more.value.0, more.value.1))
    else
      var more := Block(t[1..], depth);
      if more.None? then None else Some(([t[0]] + more.value.0, more.value.1))
  }

  /** What an action emits: the contents of a string literal, or the value of an expression. */
  function Evaluate(body: string, values: Values): Option<string> {
    if StartsWith(body, "- ") || (|body| >= 2 && body[|body| - 2..] == " -") then None // trim markers
    else if |body| >= 4 && StartsWith(body, " \"") && body[|body| - 2..] == "\" "
       && forall i :: 2 <= i < |body| - 2 ==> body[i] != '"'
    then Some(body[2..|body| - 2])
    else if body in values then Some(values[body])
    else None
  }

  /** What the action or block at the front of a text renders to, and what follows it. */
  function Leading(t: string, values: Values): (r: Option<(string, string)>)
    requires StartsWith(t, OPEN)
    ensures r.Some? ==> |r.value.1| < |t|
  {
    var f := Front(t);
    if f.None? then None
    else
      match KindOf(f.value.0)
      case Plain =>
        var out := Evaluate(f.value.0, values);
        if out.None? then None else Some((out.value, f.value.1))
      case Opens =>
        var more := Block(f.value.1, 1);
        if more.None? || Action(f.value.0) + more.value.0 !in values then None
        else Some((values[Action(f.value.0) + more.value.0], more.value.1))
      case _ => None // an `else` or `end` of no block
  }

  function Prepend(s: string, r: Option<string>): Option<string> {
    if r.None? then None else Some(s + r.value)
  }

  /** Rendering, or None when the text is not a template or names an unknown value. */
  function Render(t: string, values: Values): Option<string>
    decreases |t|
  {
    if t == "" then Some("")
    else if StartsWith(t, OPEN) then
      var l := Leading(t, values);
      if l.None? then None else Prepend(l.value.0, Render(l.value.1, values))
    else
      Prepend([t[0]], Render(t[1..], values))
  }

  // ----- Single steps of the renderer -----

  lemma PairIsOpen(s: string)
    ensures |s| >= 2 && s[0] == '{' && s[1] == '{' ==> StartsWith(s, OPEN)
  {
  }

  lemma RenderChar(c: char, t: string, values: Values)
    requires !(c == '{' && t != "" && t[0] == '{')
    ensures Render([c] + t, values) == Prepend([c], Render(t, values))
  {
    var u := [c] + t;
    assert u[1..] == t;
    OpenIsPair(u);
    assert !StartsWith(u, OPEN);
  }

  lemma OpenIsPair(u: string)
    ensures StartsWith(u, OPEN) ==> |u| >= 2 && u[0] == '{' && u[1] == '{'
  {
    if StartsWith(u, OPEN) {
      assert u[0] == u[..2][0] && u[1] == u[..2][1];
    }
  }

  /** A body that closes where it should: nothing in it ends the action early. */
  predicate IsBody(body: string) {
    BodyLength(body + CLOSE, false) == Some(|body|)
  }

  lemma {:induction false} BodyLengthIgnoresRest(t: string, quoted: bool, rest: string)
    requires BodyLength(t, quoted).Some?
    ensures BodyLength(t + rest, quoted) == BodyLength(t, quoted)
    decreases |t|
  {
    var u := t + rest;
    assert u[..2] == t[..2] && u[0] == t[0];
    assert StartsWith(u, CLOSE) <==> StartsWith(t, CLOSE);
    if quoted || !StartsWith(t, CLOSE) {
      BodyLengthIgnoresRest(t[1..], if t[0] == '"' then !quoted else quoted, rest);
      assert u[1..] == t[1..] + rest;
    }
  }

  lemma FrontOfAction(body: string, t: string)
    requires IsBody(body)
    ensures StartsWith(Action(body) + t, OPEN) && Front(Action(body) + t) == Some((body, t))
  {
    var u := Action(body) + t;
    BodyLengthIgnoresRest(body + CLOSE, false, t);
    assert u[2..] == (body + CLOSE) + t;
    assert u[..2] == OPEN;
    assert u[2..2 + |body|] == body;
    assert u[|body| + 4..] == t;
  }

  lemma RenderAction(body: string, t: string, values: Values)
    requires IsBody(body) && KindOf(body).Plain?
    ensures Render(Action(body) + t, values) ==
      if Evaluate(body, values).None? then None
      else Prepend(Evaluate(body, values).value, Render(t, values))
  {
    FrontOfAction(body, t);
  }

  // ----- Text that can stand in the middle of other text -----

  lemma FrontIgnoresRest(t: string, rest: string)
    requires StartsWith(t, OPEN) && Front(t).Some?
    ensures StartsWith(t + rest, OPEN) && Front(t + rest) == Some((Front(t).value.0, Front(t).value.1 + rest))
  {
    var u, n := t + rest, BodyLength(t[2..], false).value;
    assert u[..2] == t[..2];
    BodyLengthIgnoresRest(t[2..], false, rest);
    assert u[2..] == t[2..] + rest;
    assert u[2..2 + n] == t[2..2 + n] && u[n + 4..] == t[n + 4..] + rest;
  }

  lemma {:induction false} BlockIgnoresRest(t: string, depth: nat, rest: string)
    requires Block(t, depth).Some?
    ensures Block(t + rest, depth) == Some((Block(t, depth).value.0, Block(t, depth).value.1 + rest))
    decreases |t|
  {
    if depth > 0 && StartsWith(t, OPEN) {
      FrontIgnoresRest(t, rest);
      var f := Front(t).value;
      BlockIgnoresRest(f.1, DepthAfter(f.0, depth), rest);
    } else if depth > 0 {
      assert |t| >= 2;
      StartIgnoresRest(t, rest);
      assert (t + rest)[1..] == t[1..] + rest;
      BlockIgnoresRest(t[1..], depth, rest);
    }
  }

  lemma StartIgnoresRest(t: string, rest: string)
    requires |t| >= 2
    ensures StartsWith(t + rest, OPEN) <==> StartsWith(t, OPEN)
  {
    assert (t + rest)[..2] == t[..2];
  }

  lemma LeadingIgnoresRest(t: string, values: Values, rest: string)
    requires StartsWith(t, OPEN) && Leading(t, values).Some?
    ensures StartsWith(t + rest, OPEN)
    ensures Leading(t + rest, values) == Some((Leading(t, values).value.0, Leading(t, values).value.1 + rest))
  {
    FrontIgnoresRest(t, rest);
    var f := Front(t).value;
    if KindOf(f.0).Opens? {
      BlockIgnoresRest(f.1, 1, rest);
    }
  }

  /** It does not end in a brace that what follows could turn into an action. */
  predicate EndsClosed(f: string) {
    f == "" || f[|f| - 1] != '{'
  }

  lemma PrependTwice(a: string, b: string, r: Option<string>)
    ensures Prepend(a, Prepend(b, r)) == Prepend(a + b, r)
  {
    if r.Some? {
      assert a + (b + r.value) == a + b + r.value;
    }
  }

  lemma PrependNothing(r: Option<string>)
    ensures Prepend("", r) == r
  {
    if r.Some? {
      assert "" + r.value == r.value;
    }
  }

  lemma RenderText(u: string, values: Values)
    requires u != "" && !StartsWith(u, OPEN)
    ensures Render(u, values) == Prepend([u[0]], Render(u[1..], values))
  {
  }

  /** Text that starts no action starts none in front of other text. */
  lemma StillText(f: string, t: string)
    requires f != "" && EndsClosed(f) && !StartsWith(f, OPEN)
    ensures !StartsWith(f + t, OPEN)
  {
    if |f| >= 2 {
      StartIgnoresRest(f, t);
    } else {
      OpenIsPair(f + t);
    }
  }

  predicate EndsWith(t: string, r: string) {
    |r| <= |t| && t[|t| - |r|..] == r
  }

  lemma SuffixOfSuffix(t: string, r: string, q: string)
    requires EndsWith(t, r) && EndsWith(r, q)
    ensures EndsWith(t, q)
  {
    assert t[|t| - |q|..] == t[|t| - |r|..][|r| - |q|..];
  }

  lemma {:induction false} BlockIsSuffix(t: string, depth: nat)
    requires Block(t, depth).Some?
    ensures EndsWith(t, Block(t, depth).value.1)
    decreases |t|
  {
    if depth > 0 && StartsWith(t, OPEN) {
      var f := Front(t).value;
      BlockIsSuffix(f.1, DepthAfter(f.0, depth));
      assert EndsWith(t, f.1);
      SuffixOfSuffix(t, f.1, Block(t, depth).value.1);
    } else if depth > 0 {
      BlockIsSuffix(t[1..], depth);
      SuffixOfSuffix(t, t[1..], Block(t, depth).value.1);
    }
  }

  lemma RestEndsClosed(t: string, values: Values)
    requires StartsWith(t, OPEN) && Leading(t, values).Some? && EndsClosed(t)
    ensures EndsClosed(Leading(t, values).value.1)
  {
    var f := Front(t).value;
    assert EndsWith(t, f.1);
    if KindOf(f.0).Opens? {
      BlockIsSuffix(f.1, 1);
    }
  }

  /** A text that renders, and does not end in a brace, renders to the same in front of any other text. */
  lemma {:induction false} RenderFragment(f: string, t: string, values: Values)
    requires Render(f, values).Some? && EndsClosed(f)
    ensures Render(f + t, values) == Prepend(Render(f, values).value, Render(t, values))
    decreases |f|
  {
    if f == "" {
      assert f + t == t;
      PrependNothing(Render(t, values));
    } else if StartsWith(f, OPEN) {
      var l := Leading(f, values).value;
      LeadingIgnoresRest(f, values, t);
      RestEndsClosed(f, values);
      RenderFragment(l.1, t, values);
      PrependTwice(l.0, Render(l.1, values).value, Render(t, values));
    } else {
      RenderFragmentChar(f, t, values);
    }
  }

  lemma {:induction false} RenderFragmentChar(f: string, t: string, values: Values)
    requires Render(f, values).Some? && EndsClosed(f) && f != "" && !StartsWith(f, OPEN)
    ensures Render(f + t, values) == Prepend(Render(f, values).value, Render(t, values))
    decreases |f|, 0
  {
    var rest := f[1..];
    RenderText(f, values);
    RenderTextBefore(f, t, values);
    RenderFragment(rest, t, values);
    FragmentStep(f[0], Render(rest, values), Render(rest + t, values), Render(t, values));
  }

  lemma RenderTextBefore(f: string, t: string, values: Values)
    requires f != "" && EndsClosed(f) && !StartsWith(f, OPEN)
    ensures Render(f + t, values) == Prepend([f[0]], Render(f[1..] + t, values))
  {
    StillText(f, t);
    assert (f + t)[0] == f[0] && (f + t)[1..] == f[1..] + t;
  }

  lemma FragmentStep(c: char, rest: Option<string>, both: Option<string>, after: Option<string>)
    requires rest.Some? && both == Prepend(rest.value, after)
    ensures Prepend([c], both) == Prepend(Prepend([c], rest).value, after)
  {
    PrependTwice([c], rest.value, after);
  }

  /** One character of an action that neither ends it nor is refused in it. */
  lemma BodyStep(c: char, t: string, quoted: bool, n: nat)
    requires if quoted then c != '\n' && c != '\\' else c != '{' && c != '}'
    requires BodyLength(t, if c == '"' then !quoted else quoted) == Some(n)
    ensures BodyLength([c] + t, quoted) == Some(n + 1)
  {
    assert ([c] + t)[1..] == t;
    assert StartsWith([c] + t, CLOSE) ==> ([c] + t)[..2][0] == c;
  }

  lemma EscapeIsBody(d: string)
    requires d == OPEN || d == CLOSE
    ensures IsBody(" \"" + d + "\" ")
  {
    var t := ['"'] + ([' '] + CLOSE);
    QuoteEnds();
    QuoteOpens(d[0], d[1], t, 2);
    assert (" \"" + d + "\" ") + CLOSE == [' '] + (['"'] + ([d[0]] + ([d[1]] + t)));
  }

  lemma QuoteEnds()
    ensures BodyLength(['"'] + ([' '] + CLOSE), true) == Some(2)
  {
    BodyStep(' ', CLOSE, false, 0);
    BodyStep('"', [' '] + CLOSE, true, 1);
  }

  lemma QuoteOpens(c: char, d: char, t: string, n: nat)
    requires BodyLength(t, true) == Some(n)
    requires c == d && (c == '{' || c == '}')
    ensures BodyLength([' '] + (['"'] + ([c] + ([d] + t))), false) == Some(n + 4)
  {
    BodyStep(d, t, true, n);
    BodyStep(c, [d] + t, true, n + 1);
    BodyStep('"', [c] + ([d] + t), false, n + 2);
    BodyStep(' ', ['"'] + ([c] + ([d] + t)), false, n + 3);
  }

  /** Either escape renders to the delimiter it stands for. */
  lemma RenderEscape(d: string, t: string, values: Values)
    requires d == OPEN || d == CLOSE
    ensures Render(Escape(d) + t, values) == Prepend(d, Render(t, values))
  {
    var body := " \"" + d + "\" ";
    assert Escape(d) + t == Action(body) + t;
    EscapeIsBody(d);
    assert body[1..][0] == '"' && FirstWord(body) == "";
    RenderAction(body, t, values);
    assert body[2..|body| - 2] == d;
  }

  // ----- The round trip, and exactly when it holds -----

  /** Pairing braces left to right, some `{` is left over directly in front of a `}}`. */
  predicate LeavesBrace(s: string) {
    if s == "" then false
    else if StartsWith(s, OPEN) || StartsWith(s, CLOSE) then LeavesBrace(s[2..])
    else (s[0] == '{' && StartsWith(s[1..], CLOSE)) || LeavesBrace(s[1..])
  }

  lemma HeadOf(s: string, p: string)
    requires p != ""
    ensures StartsWith(s, p) ==> s != "" && s[0] == p[0]
  {
    if StartsWith(s, p) {
      assert s[0] == s[..|p|][0];
    }
  }

  lemma ProtectHead(s: string)
    requires s != ""
    ensures Protect(s) != ""
    ensures Protect(s)[0] == '{' <==> s[0] == '{' || StartsWith(s, CLOSE)
  {
    HeadOf(s, OPEN);
    HeadOf(s, CLOSE);
    assert Escape(OPEN)[0] == '{' && Escape(CLOSE)[0] == '{';
  }

  /** A brace in front of an action is taken for the action's own first brace, and refused. */
  lemma RenderBraceBeforeAction(t: string, values: Values)
    requires StartsWith(t, "{{")
    ensures Render("{" + t, values) == None
  {
    var u := "{" + t;
    assert u[0] == '{' && u[1] == t[..2][0] && u[2] == t[..2][1];
    assert u[..2] == OPEN;
    assert u[2..][0] == '{';
    HeadOf(u[2..], CLOSE);
  }

  lemma {:induction false} RenderProtect(s: string, values: Values)
    ensures Render(Protect(s), values) == if LeavesBrace(s) then None else Some(s)
    decreases |s|
  {
    if s == "" {
    } else if StartsWith(s, OPEN) || StartsWith(s, CLOSE) {
      RenderProtect(s[2..], values);
      RenderEscape(s[..2], Protect(s[2..]), values);
      assert s == s[..2] + s[2..];
    } else {
      var rest := Protect(s[1..]);
      RenderProtect(s[1..], values);
      assert s == [s[0]] + s[1..];
      if s[0] == '{' && StartsWith(s[1..], CLOSE) {
        assert rest == Escape(CLOSE) + Protect(s[1..][2..]);
        assert rest[..2] == OPEN;
        RenderBraceBeforeAction(rest, values);
      } else {
        if s[1..] != "" {
          ProtectHead(s[1..]);
          PairIsOpen(s);
        }
        RenderChar(s[0], rest, values);
      }
    }
  }

  /** How many `{` stand directly before position p. */
  function RunBefore(s: string, p: nat): nat
    requires p <= |s|
  {
    if p > 0 && s[p - 1] == '{' then 1 + RunBefore(s, p - 1) else 0
  }

  /** A `}}` at p directly after a run of `{` of odd length. */
  predicate OddRunAt(s: string, p: nat) {
    p + 2 <= |s| && s[p] == '}' && s[p + 1] == '}' && RunBefore(s, p) % 2 == 1
  }

  predicate OddRunCloses(s: string) {
    exists p :: 0 <= p < |s| && OddRunAt(s, p)
  }

  lemma {:induction false} RunBeforeInSuffix(s: string, d: nat, p: nat)
    requires d <= p <= |s|
    ensures RunBefore(s[d..], p - d) <= p - d
    ensures RunBefore(s, p) ==
      RunBefore(s[d..], p - d) + if RunBefore(s[d..], p - d) == p - d then RunBefore(s, d) else 0
    decreases p
  {
    if p > d && s[p - 1] == '{' {
      RunBeforeInSuffix(s, d, p - 1);
    }
  }

  lemma OddRunInSuffix(s: string, d: nat, p: nat)
    requires d <= p <= |s|
    requires RunBefore(s, d) % 2 == 0 || RunBefore(s[d..], p - d) < p - d
    ensures OddRunAt(s, p) <==> OddRunAt(s[d..], p - d)
  {
    RunBeforeInSuffix(s, d, p);
  }

  /** Dropping a front that holds no odd run, and ends in none, changes nothing further on. */
  lemma SuffixKeepsRuns(s: string, d: nat)
    requires d <= |s| && RunBefore(s, d) % 2 == 0
    requires forall p :: 0 <= p < d ==> !OddRunAt(s, p)
    ensures OddRunCloses(s[d..]) <==> OddRunCloses(s)
  {
    var t := s[d..];
    forall p: nat | d <= p <= |s| ensures OddRunAt(s, p) <==> OddRunAt(t, p - d) {
      OddRunInSuffix(s, d, p);
    }
    if OddRunCloses(t) {
      var p :| 0 <= p < |t| && OddRunAt(t, p);
      assert OddRunAt(s, p + d);
    }
    if OddRunCloses(s) {
      var p :| 0 <= p < |s| && OddRunAt(s, p);
      assert OddRunAt(t, p - d);
    }
  }

  /** An unpaired `{` at the front is a run of one. */
  lemma SingleBrace(s: string)
    requires s != "" && s[0] == '{' && !StartsWith(s, OPEN)
    ensures OddRunCloses(s) <==> StartsWith(s[1..], CLOSE) || OddRunCloses(s[1..])
  {
    assert RunBefore(s, 0) == 0 && RunBefore(s, 1) == 1;
    forall p: nat | 2 <= p <= |s| ensures OddRunAt(s, p) <==> OddRunAt(s[1..], p - 1) {
      PairIsOpen(s);
      NoFullRun(s[1..], p - 1);
      OddRunInSuffix(s, 1, p);
    }
    assert OddRunAt(s, 1) <==> StartsWith(s[1..], CLOSE);
    if OddRunCloses(s) {
      var p :| 0 <= p < |s| && OddRunAt(s, p);
      assert p >= 2 ==> OddRunAt(s[1..], p - 1);
    }
    if OddRunCloses(s[1..]) {
      var p :| 0 <= p < |s[1..]| && OddRunAt(s[1..], p);
      assert RunBefore(s[1..], 0) == 0;
      assert OddRunAt(s, p + 1);
    }
  }

  lemma NoFullRun(t: string, p: nat)
    requires 1 <= p <= |t| && t[0] != '{'
    ensures RunBefore(t, p) < p
  {
    RunBeforeInSuffix(t, 1, p);
    assert RunBefore(t, 1) == 0;
  }

  lemma {:induction false} LeavesBraceIsOddRun(s: string)
    ensures LeavesBrace(s) <==> OddRunCloses(s)
    decreases |s|
  {
    if s == "" {
    } else if StartsWith(s, OPEN) || StartsWith(s, CLOSE) {
      assert s[0] == s[..2][0] && s[1] == s[..2][1];
      assert RunBefore(s, 0) == 0;
      assert RunBefore(s, 1) == if s[0] == '{' then 1 else 0;
      assert RunBefore(s, 2) % 2 == 0;
      SuffixKeepsRuns(s, 2);
      LeavesBraceIsOddRun(s[2..]);
    } else {
      LeavesBraceIsOddRun(s[1..]);
      assert RunBefore(s, 0) == 0;
      if s[0] == '{' {
        SingleBrace(s);
      } else {
        assert RunBefore(s, 1) == 0;
        SuffixKeepsRuns(s, 1);
      }
    }
  }

  /**
  Escape round trip, in both directions: whatever the values, rendering the escaped text gives
  back the text exactly when no odd-length run of `{` is immediately followed by `}}`; in every
  other case the chart does not parse at all.
  */
  lemma EscapeRoundTrip(s: string, values: Values)
    ensures Render(Protect(s), values) == Some(s) <==> !OddRunCloses(s)
    ensures OddRunCloses(s) ==> Render(Protect(s), values) == None
  {
    RenderProtect(s, values);
    LeavesBraceIsOddRun(s);
  }

  /** One brace too many: `{}}` cannot be shipped. */
  lemma OddRunDoesNotParse(values: Values)
    ensures OddRunCloses("{}}") && Render(Protect("{}}"), values) == None
  {
    assert RunBefore("{}}", 0) == 0 && RunBefore("{}}", 1) == 1;
    assert OddRunAt("{}}", 1);
    EscapeRoundTrip("{}}", values);
  }
}
