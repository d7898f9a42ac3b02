/**
What the dumper of scripts/package/templated-fields.py does to the content of strings: one that holds
`{{` and spans several lines loses the white space at the end of every line and all leading newlines,
so that it can be written as a literal block.
*/
module Dumping {
  import opened Options
  import opened Text
  import opened Escaping
  import opened Marking

  /** White space within a line. */
  predicate IsBlank(c: char) {
    IsPythonSpace(c) && c != '\n'
  }

  predicate EndsLine(rest: string) {
    rest == "" || rest[0] == '\n'
  }

  /** `"\n".join(line.rstrip() for line in data.split("\n"))` */
  function StripLines(s: string): string {
    if s == "" then ""
    else
      var rest := StripLines(s[1..]);
      if IsBlank(s[0]) && EndsLine(rest) then rest else [s[0]] + rest
  }

  /** `.lstrip("\n")` */
  function StripNewlines(s: string): string {
    if s != "" && s[0] == '\n' then StripNewlines(s[1..]) else s
  }

  function Tidy(s: string): string {
    StripNewlines(StripLines(s))
  }

  /** A string the dumper writes as a literal block. */
  predicate IsBlock(s: string) {
    Contains(s, OPEN) && '\n' in s
  }

  /** The content that is written. */
  function Dump(s: string): string {
    if IsBlock(s) then Tidy(s) else s
  }

  /** No blank ends a line, and the text does not begin with a newline. */
  predicate IsTidy(s: string) {
    && (s != "" ==> s[0] != '\n')
    && forall i :: 0 <= i < |s| && IsBlank(s[i]) ==> !EndsLine(s[i + 1..])
  }

  /** A string the dumper writes as it is. */
  predicate IsSettled(s: string) {
    IsBlock(s) ==> IsTidy(s)
  }

  lemma {:induction false} StripLinesShrinks(s: string)
    ensures |StripLines(s)| <= |s|
    ensures StripLines(s) == s <==> forall i :: 0 <= i < |s| && IsBlank(s[i]) ==> !EndsLine(s[i + 1..])
  {
    if s != "" {
      StripLinesShrinks(s[1..]);
      assert s == [s[0]] + s[1..];
      assert forall i :: 0 <= i < |s| - 1 ==> s[1..][i] == s[i + 1] && s[1..][i + 1..] == s[i + 2..];
      if StripLines(s) == s {
        assert StripLines(s[1..]) == s[1..] by {
          assert |StripLines(s)| == |s|;
        }
        forall i | 0 <= i < |s| && IsBlank(s[i]) ensures !EndsLine(s[i + 1..]) {
          if i > 0 {
            assert s[1..][i - 1] == s[i];
          }
        }
      }
    }
  }

  lemma {:induction false} StripNewlinesShrinks(s: string)
    ensures |StripNewlines(s)| <= |s| && (|StripNewlines(s)| == |s| ==> StripNewlines(s) == s)
    ensures StripNewlines(s) == s <==> (s != "" ==> s[0] != '\n')
  {
    if s != "" && s[0] == '\n' {
      StripNewlinesShrinks(s[1..]);
    }
  }

  predicate AllBlank(s: string) {
    forall i :: 0 <= i < |s| ==> IsBlank(s[i])
  }

  /** Part of a line that does not end in white space. */
  predicate IsStripped(line: string) {
    '\n' !in line && (line != "" ==> !IsBlank(line[|line| - 1]))
  }

  lemma {:induction false} StripPad(pad: string, rest: string)
    requires AllBlank(pad) && EndsLine(StripLines(rest))
    ensures StripLines(pad + rest) == StripLines(rest)
  {
    if pad == "" {
      assert pad + rest == rest;
    } else {
      assert (pad + rest)[1..] == pad[1..] + rest;
      StripPad(pad[1..], rest);
    }
  }

  lemma KeepLine(line: string, rest: string)
    requires IsStripped(line)
    ensures StripLines(line + rest) == line + StripLines(rest)
  {
    if line == "" {
      assert line + rest == rest;
    } else {
      StripBehindInk(line, rest);
    }
  }

  /** What the dumper strips: the white space at the end of every line, and the newlines in front. */
  lemma StripsLineByLine(line: string, pad: string, rest: string)
    requires IsStripped(line) && AllBlank(pad)
    ensures StripLines(line + pad + "\n" + rest) == line + "\n" + StripLines(rest)
    ensures StripLines(line + pad) == line
    ensures StripNewlines("\n" + rest) == StripNewlines(rest) && (IsTidy(rest) ==> StripNewlines(rest) == rest)
  {
    var tail := "\n" + rest;
    assert tail[0] == '\n' && tail[1..] == rest;
    assert StripLines(tail) == "\n" + StripLines(rest);
    StripPad(pad, tail);
    KeepLine(line, pad + tail);
    assert line + pad + "\n" + rest == line + (pad + tail);
    assert line + ("\n" + StripLines(rest)) == line + "\n" + StripLines(rest);
    StripPad(pad, "");
    KeepLine(line, pad);
    assert pad + "" == pad && StripLines("") == "" && line + "" == line;
  }

  /** The dumper leaves a string as it is exactly when it is settled. */
  lemma DumpedAsItIsExactly(s: string)
    ensures |Dump(s)| <= |s|
    ensures Dump(s) == s <==> IsSettled(s)
  {
    StripLinesShrinks(s);
    StripNewlinesShrinks(StripLines(s));
    if IsBlock(s) && Tidy(s) == s {
      assert |StripLines(s)| == |s|;
      LongEnoughIsUnchanged(s);
    }
  }

  lemma {:induction false} LongEnoughIsUnchanged(s: string)
    requires |StripLines(s)| == |s|
    ensures StripLines(s) == s
  {
    if s != "" {
      StripLinesShrinks(s[1..]);
      LongEnoughIsUnchanged(s[1..]);
    }
  }

  lemma SameLengthIsUnchanged(s: string)
    requires |Dump(s)| == |s|
    ensures Dump(s) == s
  {
    StripLinesShrinks(s);
    StripNewlinesShrinks(StripLines(s));
    if IsBlock(s) {
      LongEnoughIsUnchanged(s);
    }
  }

  /** Only a string that holds `{{` and spans lines is stripped at all, and then as `StripsLineByLine` says. */
  lemma OnlyBlocksAreStripped(s: string)
    ensures '\n' !in s || !Contains(s, OPEN) ==> Dump(s) == s
    ensures '\n' in s && Contains(s, OPEN) ==> Dump(s) == StripNewlines(StripLines(s))
  {
  }

  // ----- The same on marked text -----

  predicate EndsRawLine(rest: Marked) {
    rest == [] || rest[0] == Raw('\n')
  }

  function StripRawLines(m: Marked): Marked {
    if m == [] then []
    else
      var rest := StripRawLines(m[1..]);
      if m[0].Raw? && IsBlank(m[0].c) && EndsRawLine(rest) then rest else [m[0]] + rest
  }

  function StripRawNewlines(m: Marked): Marked {
    if m != [] && m[0] == Raw('\n') then StripRawNewlines(m[1..]) else m
  }

  function TidyRaw(m: Marked): Marked {
    StripRawNewlines(StripRawLines(m))
  }

  /** A text put in that takes part of one line and ends in something visible. */
  predicate IsInline(w: string) {
    w != "" && '\n' !in w && !IsPythonSpace(w[|w| - 1])
  }

  predicate AllInline(m: Marked) {
    forall i :: 0 <= i < |m| && m[i].Live? ==> IsInline(m[i].text)
  }

  lemma {:induction false} StripBehindInk(w: string, rest: string)
    requires IsInline(w)
    ensures StripLines(w + rest) == w + StripLines(rest)
    decreases |w|
  {
    var u := w + rest;
    assert u[0] == w[0] && u[1..] == w[1..] + rest;
    if |w| == 1 {
      assert u[1..] == rest;
    } else {
      StripBehindInk(w[1..], rest);
      assert w[1] == (w[1..] + StripLines(rest))[0];
      assert [w[0]] + (w[1..] + StripLines(rest)) == w + StripLines(rest);
    }
  }

  lemma EscapeIsInline(d: string)
    requires d == OPEN || d == CLOSE
    ensures IsInline(Escape(d))
  {
  }

  /** How emitted text begins, as far as lines go. */
  lemma EmitStart(m: Marked)
    requires AllInline(m)
    ensures EndsLine(Emit(m)) <==> EndsRawLine(m)
    ensures m != [] ==> Emit(m) != ""
  {
    if m != [] && m[0].Live? {
      assert Emit(m)[0] == m[0].text[0];
    } else if m != [] && PairAt(m).Some? {
      assert Emit(m)[0] == Escape(PairAt(m).value)[0] == '{';
    }
  }

  lemma {:induction false} StrippedHead(m: Marked)
    requires m != []
    ensures EndsRawLine(StripRawLines(m)) || (StripRawLines(m) != [] && StripRawLines(m)[0] == m[0])
  {
  }

  lemma {:induction false} StrippedIsInline(m: Marked)
    requires AllInline(m)
    ensures AllInline(StripRawLines(m))
  {
    if m != [] {
      assert forall i :: 0 <= i < |m[1..]| ==> m[1..][i] == m[i + 1];
      StrippedIsInline(m[1..]);
    }
  }

  lemma StripPair(m: Marked)
    requires PairAt(m).Some?
    ensures StripRawLines(m) == m[..2] + StripRawLines(m[2..])
  {
    assert m[1..][1..] == m[2..];
    assert StripRawLines(m[1..]) == [m[1]] + StripRawLines(m[2..]);
    assert StripRawLines(m) == [m[0]] + StripRawLines(m[1..]);
  }

  lemma {:induction false} StripLinesEmitted(m: Marked)
    requires AllInline(m)
    ensures Emit(StripRawLines(m)) == StripLines(Emit(m))
    decreases |m|
  {
    if m == [] {
    } else if m[0].Live? {
      StripLinesEmitted(m[1..]);
      StripBehindInk(m[0].text, Emit(m[1..]));
      EmitLive(m[0].text, StripRawLines(m[1..]));
    } else if PairAt(m).Some? {
      StripLinesEmitted(m[2..]);
      EscapeIsInline(PairAt(m).value);
      StripBehindInk(Escape(PairAt(m).value), Emit(m[2..]));
      StripPair(m);
      EmitPair(m, StripRawLines(m[2..]));
    } else {
      StripLinesEmitted(m[1..]);
      StrippedIsInline(m[1..]);
      EmitStart(StripRawLines(m[1..]));
      assert Emit(m)[1..] == Emit(m[1..]);
      if |m| > 1 {
        StrippedHead(m[1..]);
      }
      assert PairAt([m[0]] + StripRawLines(m[1..])).None?;
      EmitSingle(m[0], StripRawLines(m[1..]));
    }
  }

  lemma {:induction false} StripNewlinesEmitted(m: Marked)
    requires AllInline(m)
    ensures Emit(StripRawNewlines(m)) == StripNewlines(Emit(m))
    decreases |m|
  {
    EmitStart(m);
    if m != [] && m[0] == Raw('\n') {
      assert Emit(m)[1..] == Emit(m[1..]);
      StripNewlinesEmitted(m[1..]);
    }
  }

  /** What the dumper strips from emitted text, it strips from the original text in it. */
  lemma TidyEmitted(m: Marked)
    requires AllInline(m)
    ensures Tidy(Emit(m)) == Emit(TidyRaw(m))
  {
    StripLinesEmitted(m);
    StrippedIsInline(m);
    StripNewlinesEmitted(StripRawLines(m));
  }

  // ----- What becomes of a marked string when it is written -----

  predicate IsWholeField(m: Marked) {
    |m| == 1 && m[0].Live?
  }

  function Settle(m: Marked): Marked {
    if IsSettled(Emit(m)) then m
    else if IsWholeField(m) then [Live(Dump(m[0].text))]
    else TidyRaw(m)
  }

  /** Either nothing is stripped, or only from text that is all original or all put in. */
  predicate IsShippable(m: Marked) {
    IsSettled(Emit(m)) || IsWholeField(m) || AllInline(m)
  }

  lemma EmitWholeField(w: string)
    ensures Emit([Live(w)]) == w
  {
    assert [Live(w)][1..] == [] && Emit([]) == "" && w + "" == w;
  }

  lemma DumpEmitted(m: Marked)
    requires IsShippable(m)
    ensures Dump(Emit(m)) == Emit(Settle(m))
  {
    DumpedAsItIsExactly(Emit(m));
    if IsSettled(Emit(m)) {
    } else if IsWholeField(m) {
      assert m == [Live(m[0].text)];
      EmitWholeField(m[0].text);
      EmitWholeField(Dump(m[0].text));
    } else {
      TidyEmitted(m);
    }
  }

  // ----- An untouched string -----

  lemma {:induction false} StripMarkedLines(s: string)
    ensures StripRawLines(Mark(s)) == Mark(StripLines(s))
  {
    if s != "" {
      assert Mark(s)[1..] == Mark(s[1..]);
      StripMarkedLines(s[1..]);
      var rest := StripLines(s[1..]);
      assert EndsRawLine(Mark(rest)) <==> EndsLine(rest);
      assert [Raw(s[0])] + Mark(rest) == Mark([s[0]] + rest);
    }
  }

  lemma {:induction false} StripMarkedNewlines(s: string)
    ensures StripRawNewlines(Mark(s)) == Mark(StripNewlines(s))
  {
    if s != "" && s[0] == '\n' {
      assert Mark(s)[1..] == Mark(s[1..]);
      StripMarkedNewlines(s[1..]);
    }
  }

  lemma TidyMark(s: string)
    ensures TidyRaw(Mark(s)) == Mark(Tidy(s))
  {
    StripMarkedLines(s);
    StripMarkedNewlines(StripLines(s));
  }

  /** What the packager writes for an untouched string, and what Helm makes of it. */
  lemma DumpProtected(s: string, values: Values)
    ensures Placed(Settle(Mark(s)), values)
    ensures Render(Dump(Protect(s)), values) ==
      if NoStray(Settle(Mark(s))) then Some(if IsSettled(Protect(s)) then s else Tidy(s)) else None
  {
    EmitMark(s);
    DumpEmitted(Mark(s));
    TidyMark(s);
    RenderEmitted(Settle(Mark(s)), values);
    MeaningOfMark(s, values);
    MeaningOfMark(Tidy(s), values);
  }

  lemma {:induction false} NoStrayMark(s: string)
    ensures NoStray(Mark(s)) <==> !LeavesBrace(s)
    decreases |s|
  {
    if s != "" {
      PairOfMark(s);
      if PairAt(Mark(s)).Some? {
        assert Mark(s)[2..] == Mark(s[2..]);
        NoStrayMark(s[2..]);
      } else {
        assert Mark(s)[1..] == Mark(s[1..]);
        NoStrayMark(s[1..]);
        PairOfMark(s[1..]);
        HeadOf(s[1..], OPEN);
      }
    }
  }

  /**
  A string survives being escaped, written and rendered if and only if no odd run of `{` is followed
  by `}}`, and the escaped text is one the dumper writes as it is.
  */
  lemma WrittenRoundTrip(s: string, values: Values)
    ensures Render(Dump(Protect(s)), values) == Some(s) <==> !OddRunCloses(s) && IsSettled(Protect(s))
  {
    DumpProtected(s, values);
    EmitMark(s);
    NoStrayMark(s);
    LeavesBraceIsOddRun(s);
    if !IsSettled(Protect(s)) {
      TidyIsShorter(s);
    }
  }

  lemma TidyIsShorter(s: string)
    requires !IsSettled(Protect(s))
    ensures Tidy(s) != s
  {
    if Tidy(s) == s {
      EmitMark(s);
      TidyMark(s);
      TidyEmitted(Mark(s));
      DumpedAsItIsExactly(Protect(s));
      assert false;
    }
  }

  lemma LeadingNewline(d: string)
    requires d == OPEN
    ensures Tidy("\n" + d) == d && Protect("\n" + d) == "\n" + Escape(d) && !LeavesBrace("\n" + d)
  {
    var s := "\n" + d;
    assert s[1..] == d && d[1..] == "{" && "{"[1..] == "" && d[2..] == "";
    assert StripLines("{") == "{" && StripLines(d) == d && StripLines(s) == s;
    assert StripNewlines(d) == d;
    assert s[0] == '\n' && !StartsWith(s, OPEN) && !StartsWith(s, CLOSE);
    assert Protect(d) == Escape(d) + "" == Escape(d);
  }

  lemma BlockBeginsWithNewline(e: string)
    requires |e| > 2 && e[0] == '\n' && StartsWith(e[1..], OPEN)
    ensures !IsSettled(e)
  {
    assert Contains(e, OPEN);
  }

  /** A leading newline before a delimiter is lost. */
  lemma LeadingNewlineIsLost(values: Values)
    ensures !OddRunCloses("\n" + OPEN) && Render(Dump(Protect("\n" + OPEN)), values) == Some(OPEN)
  {
    var s := "\n" + OPEN;
    LeadingNewline(OPEN);
    LeavesBraceIsOddRun(s);
    var e := Protect(s);
    assert e[0] == '\n' && e[1..][..2] == OPEN;
    BlockBeginsWithNewline(e);
    DumpProtected(s, values);
    EmitMark(s);
    TidyMark(s);
    NoStrayMark(OPEN);
    assert !LeavesBrace(OPEN);
  }
}
