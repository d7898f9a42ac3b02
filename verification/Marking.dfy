/**
A string on its way into a template: original characters, escaped when it is emitted, and texts that
declarations put in, emitted as they are.  `substitute` of scripts/package/templated-fields.py works
on the emitted text; this module says what that means for the original.
*/
module Marking {
  import opened Options
  import opened Text
  import opened Escaping

  /** Python's `s.replace(from, with)`; an empty `from` is found around every character. */
  function Replace(s: string, from: string, with: string): string {
    if from == "" then with + Spread(s, with)
    else if s == "" then ""
    else if StartsWith(s, from) then with + Replace(s[|from|..], from, with)
    else [s[0]] + Replace(s[1..], from, with)
  }

  function Spread(s: string, with: string): string {
    if s == "" then "" else [s[0]] + with + Spread(s[1..], with)
  }

  /** The literal first occurs at i. */
  predicate OccursFirstAt(s: string, from: string, i: nat) {
    i <= |s| && StartsWith(s[i..], from) && forall j :: 0 <= j < i ==> !StartsWith(s[j..], from)
  }

  /** Text without the literal stays as it is. */
  lemma {:induction false} ReplaceWithout(s: string, from: string, with: string)
    requires from != "" && !Contains(s, from)
    ensures Replace(s, from, with) == s
  {
    if s != "" {
      ContainsStep(s, from);
      ReplaceWithout(s[1..], from, with);
      assert s == [s[0]] + s[1..];
    }
  }

  /** Nothing is found around every character. */
  lemma {:induction false} ReplaceNothing(s: string, with: string)
    ensures Replace("", "", with) == with
    ensures s != "" ==> Replace(s, "", with) == with + [s[0]] + Replace(s[1..], "", with)
  {
    assert Spread("", with) == "" && with + "" == with;
  }

  datatype Piece = Raw(c: char) | Live(text: string)

  type Marked = seq<Piece>

  function Mark(s: string): (m: Marked)
    ensures |m| == |s| && forall i :: 0 <= i < |s| ==> m[i] == Raw(s[i])
  {
    seq(|s|, i requires 0 <= i < |s| => Raw(s[i]))
  }

  predicate Pair(m: Marked, c: char) {
    |m| >= 2 && m[0] == Raw(c) && m[1] == Raw(c)
  }

  /** The delimiter two original braces at the front stand for. */
  function PairAt(m: Marked): Option<string> {
    if Pair(m, '{') then Some(OPEN) else if Pair(m, '}') then Some(CLOSE) else None
  }

  /** What is written into the chart: escapes for original delimiters, everything else as it is. */
  function Emit(m: Marked): string {
    if m == [] then ""
    else if m[0].Live? then m[0].text + Emit(m[1..])
    else if PairAt(m).Some? then Escape(PairAt(m).value) + Emit(m[2..])
    else [m[0].c] + Emit(m[1..])
  }

  lemma PairOfMark(s: string)
    ensures PairAt(Mark(s)) ==
      if StartsWith(s, OPEN) then Some(OPEN) else if StartsWith(s, CLOSE) then Some(CLOSE) else None
  {
    if |s| >= 2 {
      assert s[..2] == [s[0], s[1]];
    }
  }

  /** An untouched string is emitted as `protect` writes it. */
  lemma {:induction false} EmitMark(s: string)
    ensures Emit(Mark(s)) == Protect(s)
    decreases |s|
  {
    if s != "" {
      PairOfMark(s);
      if StartsWith(s, OPEN) || StartsWith(s, CLOSE) {
        assert Mark(s)[2..] == Mark(s[2..]);
        EmitMark(s[2..]);
      } else {
        assert Mark(s)[1..] == Mark(s[1..]);
        EmitMark(s[1..]);
      }
    }
  }

  // ----- What it renders to -----

  /** A text that may stand among others: it neither runs into its neighbours nor vanishes. */
  predicate Insertable(w: string) {
    w != "" && EndsClosed(w) && (w[0] == '{' ==> StartsWith(w, OPEN))
  }

  /** Every text put in renders by itself, and may stand where it stands. */
  predicate Placed(m: Marked, values: Values) {
    forall i :: 0 <= i < |m| && m[i].Live? ==> Render(m[i].text, values).Some? && (|m| > 1 ==> Insertable(m[i].text))
  }

  /** The original characters, and the values of the texts put in. */
  function Meaning(m: Marked, values: Values): string
    requires Placed(m, values)
  {
    if m == [] then ""
    else (if m[0].Live? then Render(m[0].text, values).value else [m[0].c]) + Meaning(m[1..], values)
  }

  /** The emitted text starts with an action of its own. */
  predicate StartsAction(m: Marked) {
    m != [] && (Pair(m, '}') || (m[0].Live? && StartsWith(m[0].text, OPEN)))
  }

  /** Pairing original braces left to right, no single `{` is left directly in front of an action. */
  predicate NoStray(m: Marked) {
    if m == [] then true
    else if m[0].Live? then NoStray(m[1..])
    else if PairAt(m).Some? then NoStray(m[2..])
    else !(m[0].c == '{' && StartsAction(m[1..])) && NoStray(m[1..])
  }

  predicate AllInsertable(m: Marked, values: Values) {
    forall i :: 0 <= i < |m| && m[i].Live? ==> Render(m[i].text, values).Some? && Insertable(m[i].text)
  }

  /** How emitted text begins. */
  lemma EmitHead(m: Marked, values: Values)
    requires m != [] && AllInsertable(m, values) && !Pair(m, '{')
    ensures Emit(m) != ""
    ensures StartsAction(m) ==> StartsWith(Emit(m), OPEN)
    ensures !StartsAction(m) && m[0] != Raw('{') ==> Emit(m)[0] != '{'
    ensures m[0] == Raw('{') ==> Emit(m)[0] == '{'
  {
    if m[0].Live? {
      var w := m[0].text;
      if StartsWith(w, OPEN) {
        assert (w + Emit(m[1..]))[..2] == w[..2];
      }
    } else if Pair(m, '}') {
      assert (Escape(CLOSE) + Emit(m[2..]))[..2] == OPEN;
    }
  }

  lemma RenderRaw(m: Marked, values: Values)
    requires m != [] && m[0].Raw? && PairAt(m).None? && AllInsertable(m, values)
    ensures Render(Emit(m), values) ==
      if m[0].c == '{' && StartsAction(m[1..]) then None else Prepend([m[0].c], Render(Emit(m[1..]), values))
  {
    var c, rest := m[0].c, m[1..];
    if rest == [] {
      assert Emit(rest) == "";
      RenderChar(c, "", values);
    } else if c == '{' {
      assert rest[0] != Raw('{');
      EmitHead(rest, values);
      if StartsAction(rest) {
        RenderBraceBeforeAction(Emit(rest), values);
      } else {
        RenderChar(c, Emit(rest), values);
      }
    } else {
      RenderChar(c, Emit(rest), values);
    }
  }

  lemma {:induction false} RenderPieces(m: Marked, values: Values)
    requires AllInsertable(m, values) && Placed(m, values)
    ensures Render(Emit(m), values) == if NoStray(m) then Some(Meaning(m, values)) else None
    decreases |m|
  {
    if m == [] {
    } else if m[0].Live? {
      RenderPieces(m[1..], values);
      RenderFragment(m[0].text, Emit(m[1..]), values);
    } else if PairAt(m).Some? {
      RenderPieces(m[2..], values);
      RenderEscape(PairAt(m).value, Emit(m[2..]), values);
      MeaningOfPair(m, values);
    } else {
      RenderPieces(m[1..], values);
      RenderRaw(m, values);
    }
  }

  lemma MeaningOfPair(m: Marked, values: Values)
    requires PairAt(m).Some? && Placed(m, values) && Placed(m[2..], values)
    ensures Meaning(m, values) == PairAt(m).value + Meaning(m[2..], values)
  {
    assert m[1..][1..] == m[2..];
    assert Meaning(m[1..], values) == [m[1].c] + Meaning(m[2..], values);
    assert PairAt(m).value == [m[0].c] + [m[1].c];
  }

  /**
  What is emitted renders to what it means -- original text as it was, texts put in as their values --
  exactly when no single brace is left in front of an action; otherwise the chart does not parse.
  */
  lemma RenderEmitted(m: Marked, values: Values)
    requires Placed(m, values)
    ensures Render(Emit(m), values) == if NoStray(m) then Some(Meaning(m, values)) else None
  {
    if |m| == 1 && m[0].Live? {
      assert Emit(m[1..]) == "" && Emit(m) == m[0].text + "" == m[0].text;
      assert Meaning(m[1..], values) == "";
      assert Meaning(m, values) == Render(m[0].text, values).value + "" == Render(m[0].text, values).value;
    } else {
      RenderPieces(m, values);
    }
  }

  lemma {:induction false} MeaningOfMark(s: string, values: Values)
    ensures Meaning(Mark(s), values) == s
  {
    if s != "" {
      assert Mark(s)[1..] == Mark(s[1..]);
      MeaningOfMark(s[1..], values);
    }
  }

  // ----- Replacing a literal -----

  predicate IsBrace(c: char) {
    c == '{' || c == '}'
  }

  /** A literal that stays in one piece when the text around it is escaped. */
  predicate IsSolid(lit: string) {
    lit != "" && IsPlain(lit) && !IsBrace(lit[0]) && !IsBrace(lit[|lit| - 1])
  }

  predicate RawStarts(m: Marked, lit: string) {
    |lit| <= |m| && m[..|lit|] == Mark(lit)
  }

  lemma RawStartsHead(m: Marked, lit: string)
    requires lit != ""
    ensures RawStarts(m, lit) ==> m != [] && m[0] == Raw(lit[0])
  {
    if RawStarts(m, lit) {
      assert m[..|lit|][0] == Mark(lit)[0];
    }
  }

  lemma RawStartsTail(m: Marked, lit: string)
    requires lit != "" && RawStarts(m, lit)
    ensures m != [] && RawStarts(m[1..], lit[1..]) && m[1..][|lit| - 1..] == m[|lit|..]
  {
    assert m[1..][..|lit| - 1] == m[..|lit|][1..] == Mark(lit)[1..] == Mark(lit[1..]);
  }

  /** The literal replaced in original text only. */
  function ReplaceRaw(m: Marked, lit: string, w: string): Marked
    requires lit != ""
  {
    if m == [] then []
    else if RawStarts(m, lit) then [Live(w)] + ReplaceRaw(m[|lit|..], lit, w)
    else [m[0]] + ReplaceRaw(m[1..], lit, w)
  }

  predicate ContainsRaw(m: Marked, lit: string) {
    exists i :: 0 <= i <= |m| && RawStarts(m[i..], lit)
  }

  /** No occurrence of the literal begins in p, standing in front of rest. */
  predicate NoStart(p: string, rest: string, lit: string) {
    forall i :: 0 <= i < |p| ==> !StartsWith((p + rest)[i..], lit)
  }

  /** Every occurrence of the literal in what is emitted stands in original text. */
  predicate Clear(m: Marked, lit: string)
    requires lit != ""
  {
    if m == [] then true
    else if m[0].Live? then NoStart(m[0].text, Emit(m[1..]), lit) && Clear(m[1..], lit)
    else if PairAt(m).Some? then NoStart(Escape(PairAt(m).value), Emit(m[2..]), lit) && Clear(m[2..], lit)
    else if RawStarts(m, lit) then Clear(m[|lit|..], lit)
    else !StartsWith(Emit(m), lit) && Clear(m[1..], lit)
  }

  lemma Rejoin(lit: string, rest: string)
    requires lit != ""
    ensures [lit[0]] + (lit[1..] + rest) == lit + rest
  {
  }

  lemma ReplaceStep(s: string, lit: string, w: string)
    requires lit != "" && s != "" && !StartsWith(s, lit)
    ensures Replace(s, lit, w) == [s[0]] + Replace(s[1..], lit, w)
  {
  }

  lemma {:induction false} ReplaceSkips(p: string, rest: string, lit: string, w: string)
    requires lit != "" && NoStart(p, rest, lit)
    ensures Replace(p + rest, lit, w) == p + Replace(rest, lit, w)
    decreases |p|
  {
    if p == "" {
      assert p + rest == rest;
    } else {
      var u := p + rest;
      assert u[0..] == u && u[0] == p[0] && u[1..] == p[1..] + rest;
      ReplaceStep(u, lit, w);
      NoStartTail(p, rest, lit);
      ReplaceSkips(p[1..], rest, lit, w);
      Rejoin(p, Replace(rest, lit, w));
    }
  }

  lemma NoStartTail(p: string, rest: string, lit: string)
    requires p != "" && NoStart(p, rest, lit)
    ensures NoStart(p[1..], rest, lit)
  {
    forall i | 0 <= i < |p[1..]| ensures !StartsWith((p[1..] + rest)[i..], lit) {
      assert (p[1..] + rest)[i..] == (p + rest)[i + 1..];
    }
  }

  /** Otherwise its first occurrence is replaced, and what follows that is done alike. */
  lemma ReplaceFirst(s: string, from: string, with: string, i: nat)
    requires from != "" && OccursFirstAt(s, from, i)
    ensures i + |from| <= |s| && Replace(s, from, with) == s[..i] + (with + Replace(s[i + |from|..], from, with))
  {
    var p, rest := s[..i], s[i..];
    assert s == p + rest;
    forall j | 0 <= j < |p| ensures !StartsWith((p + rest)[j..], from) {
      assert (p + rest)[j..] == s[j..];
    }
    ReplaceSkips(p, rest, from, with);
    assert rest[|from|..] == s[i + |from|..];
  }

  /** In the middle of such a literal, no two braces are taken together. */
  lemma SolidIsSingle(m: Marked, lit: string, k: nat)
    requires IsSolid(lit) && k < |lit| && RawStarts(m, lit[k..])
    ensures m != [] && m[0] == Raw(lit[k]) && PairAt(m).None?
  {
    RawStartsHead(m, lit[k..]);
    if k + 1 < |lit| {
      RawStartsTail(m, lit[k..]);
      RawStartsHead(m[1..], lit[k..][1..]);
      PlainHasNoPair(lit, k);
    }
  }

  /** Original text that is such a literal, or an end of one, is emitted as it is. */
  lemma {:induction false} EmitRun(m: Marked, lit: string, k: nat)
    requires IsSolid(lit) && k <= |lit| && RawStarts(m, lit[k..])
    ensures Emit(m) == lit[k..] + Emit(m[|lit| - k..])
    decreases |lit| - k
  {
    var end := lit[k..];
    if k == |lit| {
      assert m[0..] == m;
    } else {
      SolidIsSingle(m, lit, k);
      RawStartsTail(m, end);
      assert end[1..] == lit[k + 1..];
      EmitRun(m[1..], lit, k + 1);
      Rejoin(end, Emit(m[|end|..]));
    }
  }

  lemma EmitWhole(m: Marked, lit: string)
    requires IsSolid(lit) && RawStarts(m, lit)
    ensures Emit(m) == lit + Emit(m[|lit|..])
  {
    assert lit[0..] == lit;
    EmitRun(m, lit, 0);
  }

  lemma ReplaceHead(m: Marked, lit: string, w: string)
    requires lit != "" && m != []
    ensures ReplaceRaw(m, lit, w) != []
    ensures ReplaceRaw(m, lit, w)[0] == Live(w) || ReplaceRaw(m, lit, w)[0] == m[0]
  {
  }

  /** A brace is never the beginning of the literal, so it keeps its place. */
  lemma ReplaceBrace(m: Marked, lit: string, w: string)
    requires IsSolid(lit) && m != [] && (m[0] == Raw('{') || m[0] == Raw('}'))
    ensures ReplaceRaw(m, lit, w) == [m[0]] + ReplaceRaw(m[1..], lit, w)
  {
    RawStartsHead(m, lit);
  }

  lemma ReplacePair(m: Marked, lit: string, w: string)
    requires IsSolid(lit) && PairAt(m).Some?
    ensures ReplaceRaw(m, lit, w) == m[..2] + ReplaceRaw(m[2..], lit, w)
  {
    ReplaceBrace(m, lit, w);
    ReplaceBrace(m[1..], lit, w);
    assert m[1..][1..] == m[2..];
  }

  lemma EmitPair(m: Marked, rest: Marked)
    requires PairAt(m).Some?
    ensures Emit(m[..2] + rest) == Escape(PairAt(m).value) + Emit(rest)
  {
    var u := m[..2] + rest;
    assert u[0] == m[0] && u[1] == m[1] && u[2..] == rest;
  }

  lemma EmitSingle(p: Piece, rest: Marked)
    requires p.Raw? && PairAt([p] + rest).None?
    ensures Emit([p] + rest) == [p.c] + Emit(rest)
  {
    assert ([p] + rest)[1..] == rest;
  }

  lemma EmitLive(w: string, rest: Marked)
    ensures Emit([Live(w)] + rest) == w + Emit(rest)
  {
    assert ([Live(w)] + rest)[1..] == rest;
  }

  lemma StillSingle(m: Marked, lit: string, w: string)
    requires lit != "" && m != [] && m[0].Raw? && PairAt(m).None?
    ensures PairAt([m[0]] + ReplaceRaw(m[1..], lit, w)).None?
  {
    if |m| > 1 {
      ReplaceHead(m[1..], lit, w);
    }
  }

  /**
  Replacing the literal in the emitted text is replacing it in the original text, as long as that is
  the only place it occurs in.
  */
  lemma {:induction false} ReplaceEmitted(m: Marked, lit: string, w: string)
    requires IsSolid(lit) && Clear(m, lit)
    ensures Replace(Emit(m), lit, w) == Emit(ReplaceRaw(m, lit, w))
    decreases |m|
  {
    if m == [] {
    } else if m[0].Live? {
      ReplaceEmitted(m[1..], lit, w);
      ReplaceSkips(m[0].text, Emit(m[1..]), lit, w);
      LiveIsNoLiteral(m, lit);
      EmitLive(m[0].text, ReplaceRaw(m[1..], lit, w));
    } else if PairAt(m).Some? {
      ReplaceEmitted(m[2..], lit, w);
      ReplaceSkips(Escape(PairAt(m).value), Emit(m[2..]), lit, w);
      ReplacePair(m, lit, w);
      EmitPair(m, ReplaceRaw(m[2..], lit, w));
    } else if RawStarts(m, lit) {
      ReplaceEmitted(m[|lit|..], lit, w);
      EmitWhole(m, lit);
      var rest := Emit(m[|lit|..]);
      assert (lit + rest)[..|lit|] == lit && (lit + rest)[|lit|..] == rest;
      EmitLive(w, ReplaceRaw(m[|lit|..], lit, w));
    } else {
      ReplaceEmitted(m[1..], lit, w);
      assert Emit(m)[1..] == Emit(m[1..]);
      StillSingle(m, lit, w);
      EmitSingle(m[0], ReplaceRaw(m[1..], lit, w));
    }
  }

  lemma LiveIsNoLiteral(m: Marked, lit: string)
    requires lit != "" && m != [] && m[0].Live?
    ensures !RawStarts(m, lit)
  {
    RawStartsHead(m, lit);
  }

  // ----- Whether the literal is there -----

  lemma ContainsRawStep(m: Marked, lit: string)
    requires lit != ""
    ensures ContainsRaw(m, lit) <==> m != [] && (RawStarts(m, lit) || ContainsRaw(m[1..], lit))
  {
    if ContainsRaw(m, lit) {
      var i :| 0 <= i <= |m| && RawStarts(m[i..], lit);
      if i > 0 {
        assert m[1..][i - 1..] == m[i..];
      } else {
        assert m[0..] == m;
      }
    }
    if m != [] && RawStarts(m, lit) {
      assert m[0..] == m;
    }
    if m != [] && ContainsRaw(m[1..], lit) {
      var i :| 0 <= i <= |m[1..]| && RawStarts(m[1..][i..], lit);
      assert m[1..][i..] == m[i + 1..];
    }
  }

  lemma {:induction false} ContainsSkips(p: string, rest: string, lit: string)
    requires lit != "" && NoStart(p, rest, lit)
    ensures Contains(p + rest, lit) <==> Contains(rest, lit)
    decreases |p|
  {
    if p == "" {
      assert p + rest == rest;
    } else {
      ContainsStep(p + rest, lit);
      assert (p + rest)[0..] == p + rest && (p + rest)[1..] == p[1..] + rest;
      NoStartTail(p, rest, lit);
      ContainsSkips(p[1..], rest, lit);
    }
  }

  /** The packager finds the literal in the emitted text exactly when it is in the original. */
  lemma {:induction false} ContainsEmitted(m: Marked, lit: string)
    requires IsSolid(lit) && Clear(m, lit)
    ensures Contains(Emit(m), lit) <==> ContainsRaw(m, lit)
    decreases |m|
  {
    if m == [] {
      ContainsStep("", lit);
      ContainsRawStep(m, lit);
    } else if m[0].Live? {
      ContainsEmitted(m[1..], lit);
      ContainsSkips(m[0].text, Emit(m[1..]), lit);
      LiveIsNoLiteral(m, lit);
      ContainsRawStep(m, lit);
    } else if PairAt(m).Some? {
      ContainsEmitted(m[2..], lit);
      ContainsSkips(Escape(PairAt(m).value), Emit(m[2..]), lit);
      ContainsRawPair(m, lit);
    } else if RawStarts(m, lit) {
      EmitWhole(m, lit);
      ContainsRawStep(m, lit);
      var rest := Emit(m[|lit|..]);
      assert (lit + rest)[..|lit|] == lit;
      ContainsStep(lit + rest, lit);
    } else {
      ContainsEmitted(m[1..], lit);
      ContainsRawStep(m, lit);
      ContainsStep(Emit(m), lit);
      assert Emit(m)[1..] == Emit(m[1..]);
    }
  }

  lemma ContainsRawPair(m: Marked, lit: string)
    requires IsSolid(lit) && PairAt(m).Some?
    ensures ContainsRaw(m, lit) <==> ContainsRaw(m[2..], lit)
  {
    ContainsRawStep(m, lit);
    ContainsRawStep(m[1..], lit);
    RawStartsHead(m, lit);
    RawStartsHead(m[1..], lit);
    assert m[1..][1..] == m[2..];
  }

  // ----- When that is the only place it occurs in -----

  /** A non-empty end of a is the beginning of b. */
  predicate Meets(a: string, b: string) {
    exists k :: 0 < k <= |a| && k <= |b| && a[|a| - k..] == b[..k]
  }

  /** However the two are laid side by side, they do not overlap. */
  predicate Apart(text: string, lit: string) {
    text != "" && !Contains(text, lit) && !Contains(lit, text) && !Meets(text, lit) && !Meets(lit, text)
  }

  lemma ApartNoStart(text: string, rest: string, lit: string)
    requires lit != "" && Apart(text, lit)
    ensures NoStart(text, rest, lit)
  {
    forall i | 0 <= i < |text| ensures !StartsWith((text + rest)[i..], lit) {
      StartsWithin(text, rest, lit, i);
    }
  }

  /** An occurrence that begins in a text ends in it, or goes on from its end. */
  lemma StartsWithin(text: string, rest: string, lit: string, i: nat)
    requires i < |text| && lit != ""
    ensures StartsWith((text + rest)[i..], lit) ==> Contains(text, lit) || Meets(text, lit)
  {
    var u := (text + rest)[i..];
    if StartsWith(u, lit) {
      if |lit| <= |text| - i {
        assert text[i..][..|lit|] == u[..|lit|];
        assert StartsWith(text[i..], lit);
      } else {
        var k := |text| - i;
        assert text[|text| - k..] == u[..k] == u[..|lit|][..k] == lit[..k];
      }
    }
  }

  /** A literal that can only ever be found in text: no escape holds it. */
  predicate IsLiteral(lit: string) {
    IsSolid(lit) && !Contains(Escape(OPEN), lit) && !Contains(Escape(CLOSE), lit)
  }

  lemma EscapeNeverMeets(d: string, lit: string)
    requires IsSolid(lit) && (d == OPEN || d == CLOSE)
    ensures !Meets(Escape(d), lit)
  {
    var e := Escape(d);
    forall k | 0 < k <= |e| && k <= |lit| ensures e[|e| - k..] != lit[..k] {
      assert e[|e| - k..][k - 1] == '}' && lit[..k][k - 1] == lit[k - 1];
      if k > 1 {
        assert e[|e| - k..][k - 2] == '}' && lit[..k][k - 2] == lit[k - 2];
        PlainHasNoPair(lit, k - 2);
      }
    }
  }

  lemma EscapeNoStart(d: string, rest: string, lit: string)
    requires IsLiteral(lit) && (d == OPEN || d == CLOSE)
    ensures NoStart(Escape(d), rest, lit)
  {
    EscapeNeverMeets(d, lit);
    forall i | 0 <= i < |Escape(d)| ensures !StartsWith((Escape(d) + rest)[i..], lit) {
      StartsWithin(Escape(d), rest, lit, i);
    }
  }

  lemma RawStartsCons(m: Marked, lit: string)
    requires lit != "" && m != [] && m[0] == Raw(lit[0]) && RawStarts(m[1..], lit[1..])
    ensures RawStarts(m, lit)
  {
    assert m[..|lit|] == [m[0]] + m[1..][..|lit| - 1];
    assert Mark(lit) == [Raw(lit[0])] + Mark(lit[1..]);
  }

  /** Every text put in is apart from the literal. */
  predicate AllApart(m: Marked, lit: string) {
    forall i :: 0 <= i < |m| && m[i].Live? ==> Apart(m[i].text, lit)
  }

  /** An end of the literal that begins where a text does ends in it, or goes on behind it. */
  lemma EndsWithin(text: string, rest: string, lit: string, k: nat)
    requires k < |lit|
    ensures StartsWith(text + rest, lit[k..]) ==> Meets(lit, text) || Contains(lit, text)
  {
    var end, u := lit[k..], text + rest;
    if StartsWith(u, end) {
      if |end| <= |text| {
        assert lit[|lit| - |end|..] == u[..|end|] == text[..|end|];
      } else {
        assert end[..|text|] == u[..|end|][..|text|] == text;
        assert StartsWith(lit[k..], text);
      }
    }
  }

  /** An escape does not begin with an end of the literal. */
  lemma EscapeIsNoEnd(m: Marked, lit: string, k: nat)
    requires IsSolid(lit) && k < |lit| && m != [] && m[0].Raw? && StartsWith(Emit(m), lit[k..])
    ensures PairAt(m).None?
  {
    if PairAt(m).Some? {
      var e := Emit(m);
      assert e[0] == '{' && e[1] == '{' by {
        assert Escape(PairAt(m).value)[..2] == OPEN;
      }
      assert e[..|lit[k..]|][0] == lit[k];
      if k + 1 < |lit| {
        assert e[..|lit[k..]|][1] == lit[k + 1];
        PlainHasNoPair(lit, k);
      }
      assert false;
    }
  }

  /** What emitted text starts with, of an end of a literal, is original text. */
  lemma {:induction false} EmittedStartIsRaw(m: Marked, lit: string, k: nat)
    requires IsSolid(lit) && k <= |lit| && StartsWith(Emit(m), lit[k..]) && AllApart(m, lit)
    ensures RawStarts(m, lit[k..])
    decreases |lit| - k
  {
    var end := lit[k..];
    if end != "" {
      HeadOf(Emit(m), end);
      if m[0].Live? {
        EndsWithin(m[0].text, Emit(m[1..]), lit, k);
        assert false;
      } else {
        EscapeIsNoEnd(m, lit, k);
        assert Emit(m)[1..] == Emit(m[1..]);
        assert end[1..] == lit[k + 1..];
        assert Emit(m[1..])[..|end| - 1] == Emit(m)[..|end|][1..] == end[1..];
        EmittedStartIsRaw(m[1..], lit, k + 1);
        RawStartsCons(m, end);
      }
    }
  }

  /** So a literal is clear of every text that it does not overlap. */
  lemma {:induction false} ClearOfOthers(m: Marked, lit: string)
    requires IsLiteral(lit) && AllApart(m, lit)
    ensures Clear(m, lit)
    decreases |m|
  {
    if m == [] {
    } else if m[0].Live? {
      ApartNoStart(m[0].text, Emit(m[1..]), lit);
      ClearOfOthers(m[1..], lit);
    } else if PairAt(m).Some? {
      EscapeNoStart(PairAt(m).value, Emit(m[2..]), lit);
      ClearOfOthers(m[2..], lit);
    } else if RawStarts(m, lit) {
      ClearOfOthers(m[|lit|..], lit);
    } else {
      assert lit[0..] == lit;
      if StartsWith(Emit(m), lit) {
        EmittedStartIsRaw(m, lit, 0);
        assert false;
      }
      ClearOfOthers(m[1..], lit);
    }
  }

  /** A text that fills a whole field only must not hold the literal. */
  lemma ClearOfWhole(text: string, lit: string)
    requires lit != "" && !Contains(text, lit)
    ensures Clear([Live(text)], lit)
  {
    assert [Live(text)][1..] == [] && Emit([]) == "";
    forall i | 0 <= i < |text| ensures !StartsWith((text + "")[i..], lit) {
      assert text + "" == text;
    }
  }

  /** A text that begins and ends with an action is apart from every literal it does not hold. */
  lemma ActionsAreApart(text: string, lit: string)
    requires IsSolid(lit) && StartsWith(text, OPEN) && EndsWith(text, CLOSE) && !Contains(text, lit)
    ensures Apart(text, lit)
  {
    assert text[0] == text[..2][0] == '{' && text[1] == text[..2][1] == '{';
    assert text[|text| - 2..][0] == text[|text| - 2] == '}' && text[|text| - 2..][1] == text[|text| - 1] == '}';
    forall k | 0 < k <= |text| && k <= |lit| ensures text[|text| - k..] != lit[..k] {
      assert text[|text| - k..][k - 1] == '}' && lit[..k][k - 1] == lit[k - 1];
      if k > 1 {
        assert text[|text| - k..][k - 2] == '}' && lit[..k][k - 2] == lit[k - 2];
        PlainHasNoPair(lit, k - 2);
      }
    }
    forall k | 0 < k <= |lit| && k <= |text| ensures lit[|lit| - k..] != text[..k] {
      assert text[..k][0] == '{' && lit[|lit| - k..][0] == lit[|lit| - k];
      if k > 1 {
        assert text[..k][1] == '{' && lit[|lit| - k..][1] == lit[|lit| - k + 1];
        PlainHasNoPair(lit, |lit| - k);
      }
    }
    forall i | 0 <= i <= |lit| ensures !StartsWith(lit[i..], text) {
      if StartsWith(lit[i..], text) {
        assert lit[i] == lit[i..][..|text|][0] && lit[i + 1] == lit[i..][..|text|][1];
        PlainHasNoPair(lit, i);
        assert false;
      }
    }
  }

  // ----- One substitution in an untouched string -----

  lemma {:induction false} MeaningOfReplaced(s: string, lit: string, w: string, values: Values)
    requires lit != "" && Render(w, values).Some? && Placed(ReplaceRaw(Mark(s), lit, w), values)
    ensures Meaning(ReplaceRaw(Mark(s), lit, w), values) == Replace(s, lit, Render(w, values).value)
    decreases |s|
  {
    if s != "" {
      MarkStarts(s, lit);
      if StartsWith(s, lit) {
        assert Mark(s)[|lit|..] == Mark(s[|lit|..]);
        var rest := ReplaceRaw(Mark(s[|lit|..]), lit, w);
        assert ReplaceRaw(Mark(s), lit, w) == [Live(w)] + rest;
        MeaningCons(Live(w), rest, values);
        MeaningOfReplaced(s[|lit|..], lit, w, values);
      } else {
        assert Mark(s)[1..] == Mark(s[1..]);
        var rest := ReplaceRaw(Mark(s[1..]), lit, w);
        assert ReplaceRaw(Mark(s), lit, w) == [Raw(s[0])] + rest;
        MeaningCons(Raw(s[0]), rest, values);
        MeaningOfReplaced(s[1..], lit, w, values);
      }
    }
  }

  lemma MarkStarts(s: string, lit: string)
    ensures RawStarts(Mark(s), lit) <==> StartsWith(s, lit)
  {
    if |lit| <= |s| {
      assert Mark(s)[..|lit|] == Mark(s[..|lit|]);
      if Mark(s[..|lit|]) == Mark(lit) {
        forall i | 0 <= i < |lit| ensures s[i] == lit[i] {
          assert Mark(s[..|lit|])[i] == Mark(lit)[i];
        }
      }
    }
  }

  lemma MeaningCons(p: Piece, rest: Marked, values: Values)
    requires Placed([p] + rest, values)
    ensures Placed(rest, values) && (p.Live? ==> Render(p.text, values).Some?)
    ensures Meaning([p] + rest, values) ==
      (if p.Live? then Render(p.text, values).value else [p.c]) + Meaning(rest, values)
  {
    var m := [p] + rest;
    assert m[1..] == rest && m[0] == p && |m| == |rest| + 1;
    forall i | 0 <= i < |rest| && rest[i].Live?
      ensures Render(rest[i].text, values).Some? && (|rest| > 1 ==> Insertable(rest[i].text))
    {
      assert m[i + 1] == rest[i];
    }
  }

  // ----- Substituting keeps what rendering needs -----

  lemma {:induction false} LiveAfterReplace(m: Marked, lit: string, w: string, i: nat)
    requires lit != "" && i < |ReplaceRaw(m, lit, w)| && ReplaceRaw(m, lit, w)[i].Live?
    ensures ReplaceRaw(m, lit, w)[i] == Live(w) || ReplaceRaw(m, lit, w)[i] in m
    decreases |m|
  {
    if i > 0 {
      if RawStarts(m, lit) {
        LiveAfterReplace(m[|lit|..], lit, w, i - 1);
      } else {
        LiveAfterReplace(m[1..], lit, w, i - 1);
      }
    }
  }

  lemma WholeStays(text: string, lit: string, w: string)
    requires lit != ""
    ensures ReplaceRaw([Live(text)], lit, w) == [Live(text)]
  {
    LiveIsNoLiteral([Live(text)], lit);
    assert [Live(text)][1..] == [];
  }
}
