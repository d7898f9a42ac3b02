/**
Packing documents into files and reading them back: `write_docs`, `_flush` and `documents` of
scripts/package/distribution.py, and the packing loop of scripts/package/split-rendered.py.
*/
module Packing {
  import opened Text

  const SEP := "\n---\n"

  /** Python's `text.split("\n---\n")`. */
  function Split(t: string): (chunks: seq<string>)
    ensures |chunks| >= 1
  {
    if t == "" then [""]
    else if StartsWith(t, SEP) then [""] + Split(t[5..])
    else
      var rest := Split(t[1..]);
      [[t[0]] + rest[0]] + rest[1..]
  }

  /** `"\n---\n".join(part)` */
  function Join(part: seq<string>): string {
    if part == [] then ""
    else if |part| == 1 then part[0]
    else part[0] + SEP + Join(part[1..])
  }

  predicate Blank(s: string) {
    forall i :: 0 <= i < |s| ==> IsPythonSpace(s[i])
  }

  function StripLeft(s: string): string {
    if s != "" && s[0] == '\n' then StripLeft(s[1..]) else s
  }

  function StripRight(s: string): string {
    if s != "" && s[|s| - 1] == '\n' then StripRight(s[..|s| - 1]) else s
  }

  /** `chunk.strip("\n")` for every chunk that is not blank. */
  function Kept(chunks: seq<string>): seq<string> {
    if chunks == [] then []
    else (if Blank(chunks[0]) then [] else [StripRight(StripLeft(chunks[0]))]) + Kept(chunks[1..])
  }

  /** Text mode: Python reads every line end, `\r\n` and a lone `\r` included, as `\n`. */
  function TextMode(t: string): (r: string)
    ensures '\r' !in r
  {
    if t == "" then ""
    else if t[0] != '\r' then [t[0]] + TextMode(t[1..])
    else if |t| > 1 && t[1] == '\n' then "\n" + TextMode(t[2..])
    else "\n" + TextMode(t[1..])
  }

  /** Every line end, in any of the three spellings, is read as one newline, and nothing else is touched. */
  lemma {:induction false} TextModeExactly(line: string, rest: string)
    requires '\r' !in line
    ensures TextMode(line) == line
    ensures TextMode(line + "\r\n" + rest) == line + "\n" + TextMode(rest)
    ensures rest == "" || rest[0] != '\n' ==> TextMode(line + "\r" + rest) == line + "\n" + TextMode(rest)
    ensures TextMode(line + "\n" + rest) == line + "\n" + TextMode(rest)
    decreases |line|
  {
    var a, b, c := line + "\r\n" + rest, line + "\r" + rest, line + "\n" + rest;
    if line == "" {
      assert a[2..] == rest && b[1..] == rest && c[1..] == rest;
    } else {
      assert a[1..] == line[1..] + "\r\n" + rest && b[1..] == line[1..] + "\r" + rest;
      assert c[1..] == line[1..] + "\n" + rest && line == [line[0]] + line[1..];
      TextModeExactly(line[1..], rest);
    }
  }

  /** The documents one file carries. */
  function ReadFile(text: string): seq<string> {
    Kept(Split(TextMode(text)))
  }

  /** What `_flush` writes for one part. */
  function FileText(part: seq<string>): string {
    Join(part) + "\n"
  }

  predicate NoSep(t: string) {
    t == "" || (!StartsWith(t, SEP) && NoSep(t[1..]))
  }

  /**
  A document that survives: not blank, no carriage return, no newline at either end, and no separator
  in it or made by the newline that follows it (so it does not end in "\n---" either).
  */
  predicate Clean(d: string) {
    !Blank(d) && '\r' !in d && d[0] != '\n' && d[|d| - 1] != '\n' && NoSep(d + "\n")
  }

  predicate AllClean(docs: seq<string>) {
    forall i :: 0 <= i < |docs| ==> Clean(docs[i])
  }

  // ----- Reading back what was written -----

  lemma {:induction false} NothingToTranslate(t: string)
    requires '\r' !in t
    ensures TextMode(t) == t
  {
    if t != "" {
      assert t == [t[0]] + t[1..];
      NothingToTranslate(t[1..]);
    }
  }

  lemma {:induction false} JoinedWithoutReturns(part: seq<string>)
    requires AllClean(part)
    ensures '\r' !in Join(part)
  {
    if |part| > 1 {
      JoinedWithoutReturns(part[1..]);
    }
  }

  lemma {:induction false} SplitWithoutSep(t: string)
    requires NoSep(t)
    ensures Split(t) == [t]
  {
    if t != "" {
      SplitWithoutSep(t[1..]);
      assert t == [t[0]] + t[1..];
    }
  }

  lemma PrefixStarts(s: string, p: string, k: nat)
    requires k <= |s|
    ensures StartsWith(s[..k], p) ==> StartsWith(s, p)
  {
    if StartsWith(s[..k], p) {
      assert s[..|p|] == s[..k][..|p|];
    }
  }

  /** A separator starting inside d lies within d and one newline: two separators never overlap by more. */
  lemma SepStartsInside(d: string, rest: string)
    requires d != ""
    ensures StartsWith(d + SEP + rest, SEP) ==> StartsWith(d + "\n", SEP)
  {
    var u := d + SEP + rest;
    if StartsWith(u, SEP) {
      assert forall k :: 0 <= k < 5 ==> u[k] == u[..5][k];
      assert u[|d|] == '\n';
      assert |d| >= 4;
      assert (d + "\n")[..5] == u[..5];
    }
  }

  lemma {:induction false} SplitAtSep(d: string, rest: string)
    requires NoSep(d + "\n")
    ensures Split(d + SEP + rest) == [d] + Split(rest)
  {
    var u := d + SEP + rest;
    if d == "" {
      assert u[..5] == SEP && u[5..] == rest;
    } else {
      SepStartsInside(d, rest);
      assert (d + "\n")[1..] == d[1..] + "\n";
      SplitAtSep(d[1..], rest);
      assert u[1..] == d[1..] + SEP + rest;
      assert [u[0]] + d[1..] == d;
    }
  }

  lemma CleanStrips(d: string)
    requires Clean(d)
    ensures StripRight(StripLeft(d)) == d && StripRight(StripLeft(d + "\n")) == d
    ensures !Blank(d + "\n")
  {
    var i :| 0 <= i < |d| && !IsPythonSpace(d[i]);
    assert (d + "\n")[i] == d[i];
    assert (d + "\n")[..|d|] == d;
  }

  lemma ReadsBackPart(part: seq<string>)
    requires part != [] && AllClean(part)
    ensures ReadFile(FileText(part)) == part
  {
    JoinedWithoutReturns(part);
    NothingToTranslate(FileText(part));
    SplitsBack(part);
  }

  lemma {:induction false} SplitsBack(part: seq<string>)
    requires part != [] && AllClean(part)
    ensures Kept(Split(FileText(part))) == part
    decreases |part|
  {
    CleanStrips(part[0]);
    if |part| == 1 {
      SplitWithoutSep(part[0] + "\n");
      assert Kept([part[0] + "\n"]) == [part[0]];
    } else {
      assert FileText(part) == part[0] + SEP + FileText(part[1..]);
      SplitAtSep(part[0], FileText(part[1..]));
      SplitsBack(part[1..]);
      var tail := Split(FileText(part[1..]));
      assert ([part[0]] + tail)[1..] == tail;
    }
  }

  // ----- What is read is always clean -----

  /** Where the first chunk of a text ends. */
  lemma {:induction false} FirstChunk(t: string)
    ensures |Split(t)| == 1 ==> Split(t)[0] == t
    ensures |Split(t)| > 1 ==> StartsWith(t, Split(t)[0] + SEP)
  {
    if t == "" {
    } else if StartsWith(t, SEP) {
      assert "" + SEP == SEP;
    } else {
      FirstChunk(t[1..]);
      SplitStep(t);
      if |Split(t)| > 1 {
        StartsWithOneMore(t, Split(t[1..])[0]);
      } else {
        assert t == [t[0]] + t[1..];
      }
    }
  }

  lemma SplitStep(t: string)
    requires t != "" && !StartsWith(t, SEP)
    ensures |Split(t)| == |Split(t[1..])| && Split(t)[0] == [t[0]] + Split(t[1..])[0]
  {
  }

  lemma StartsWithOneMore(t: string, c: string)
    requires t != "" && StartsWith(t[1..], c + SEP)
    ensures StartsWith(t, [t[0]] + c + SEP)
  {
    var p := c + SEP;
    assert [t[0]] + c + SEP == [t[0]] + p;
    assert t[..|p| + 1] == [t[0]] + t[1..][..|p|];
  }

  predicate Terminated(t: string) {
    t == "" || t[|t| - 1] == '\n'
  }

  /** Every chunk is free of separators together with the newline that follows it. */
  predicate SepFree(chunks: seq<string>)
    requires chunks != []
  {
    if |chunks| == 1 then NoSep(chunks[0]) && Terminated(chunks[0])
    else NoSep(chunks[0] + "\n") && SepFree(chunks[1..])
  }

  lemma {:induction false} SplitIsSepFree(t: string)
    requires Terminated(t)
    ensures SepFree(Split(t))
    decreases |t|
  {
    if t == "" {
    } else if StartsWith(t, SEP) {
      SplitIsSepFree(t[5..]);
      NoSepOfNewline();
      assert ([""] + Split(t[5..]))[1..] == Split(t[5..]);
    } else {
      var d := Split(t[1..]);
      SplitIsSepFree(t[1..]);
      FirstChunk(t[1..]);
      assert Split(t)[1..] == d[1..];
      if |d| == 1 {
        assert [t[0]] + d[0] == t;
      } else {
        ExtendChunk(t, d[0]);
      }
    }
  }

  lemma ExtendChunk(t: string, c: string)
    requires t != "" && !StartsWith(t, SEP) && StartsWith(t[1..], c + SEP) && NoSep(c + "\n")
    ensures NoSep([t[0]] + c + "\n")
  {
    var front := [t[0]] + c + "\n";
    assert front[1..] == c + "\n";
    assert t[1..][..|c| + 5][..|c| + 1] == (c + SEP)[..|c| + 1] == c + "\n";
    assert front == t[..|front|];
    PrefixStarts(t, SEP, |front|);
  }

  lemma NoSepOfNewline()
    ensures NoSep("" + "\n")
  {
    assert ("" + "\n")[1..] == "";
  }

  lemma {:induction false} NoSepOfSuffix(t: string, k: nat)
    requires NoSep(t) && k <= |t|
    ensures NoSep(t[k..])
  {
    if k > 0 {
      NoSepOfSuffix(t[1..], k - 1);
      assert t[1..][k - 1..] == t[k..];
    }
  }

  lemma {:induction false} NoSepOfPrefix(t: string, k: nat)
    requires NoSep(t) && k <= |t|
    ensures NoSep(t[..k])
    decreases |t|
  {
    if k > 0 {
      NoSepOfPrefix(t[1..], k - 1);
      assert t[..k][1..] == t[1..][..k - 1];
      PrefixStarts(t, SEP, k);
    }
  }

  /** Stripping cuts a piece out of the middle, and takes only newlines away. */
  lemma {:induction false} StripLeftCuts(s: string) returns (k: nat)
    ensures k <= |s| && StripLeft(s) == s[k..]
    ensures forall i :: 0 <= i < k ==> s[i] == '\n'
    ensures k < |s| ==> s[k] != '\n'
  {
    if s != "" && s[0] == '\n' {
      var j := StripLeftCuts(s[1..]);
      k := j + 1;
    } else {
      k := 0;
    }
  }

  lemma {:induction false} StripRightCuts(s: string) returns (k: nat)
    ensures k <= |s| && StripRight(s) == s[..k]
    ensures forall i :: k <= i < |s| ==> s[i] == '\n'
    ensures k > 0 ==> s[k - 1] != '\n'
  {
    if s != "" && s[|s| - 1] == '\n' {
      k := StripRightCuts(s[..|s| - 1]);
    } else {
      k := |s|;
    }
  }

  lemma NoSepOfMiddle(t: string, a: nat, b: nat)
    requires NoSep(t) && a <= b <= |t|
    ensures NoSep(t[a..b])
  {
    NoSepOfPrefix(t, b);
    NoSepOfSuffix(t[..b], a);
    assert t[..b][a..] == t[a..b];
  }

  lemma {:induction false} ChunksWithoutReturns(t: string)
    requires '\r' !in t
    ensures forall i :: 0 <= i < |Split(t)| ==> '\r' !in Split(t)[i]
    decreases |t|
  {
    if t == "" {
    } else if StartsWith(t, SEP) {
      ChunksWithoutReturns(t[5..]);
    } else {
      ChunksWithoutReturns(t[1..]);
    }
  }

  lemma {:induction false} TextModeKeepsTheEnd(t: string)
    requires Terminated(t)
    ensures Terminated(TextMode(t))
    decreases |t|
  {
    if t != "" {
      if t[0] == '\r' && |t| > 1 && t[1] == '\n' {
        TextModeKeepsTheEnd(t[2..]);
      } else {
        TextModeKeepsTheEnd(t[1..]);
      }
    }
  }

  /** What stripping leaves of a chunk that is not blank. */
  lemma StripCuts(c: string) returns (a: nat, b: nat)
    requires !Blank(c)
    ensures a < b <= |c| && StripRight(StripLeft(c)) == c[a..b]
    ensures c[a] != '\n' && c[b - 1] != '\n' && !Blank(c[a..b])
    ensures b < |c| ==> c[b] == '\n'
  {
    a := StripLeftCuts(c);
    var k := StripRightCuts(c[a..]);
    b := a + k;
    assert c[a..][..k] == c[a..b];
    var i :| 0 <= i < |c| && !IsPythonSpace(c[i]);
    assert i >= a;
    assert c[a..][i - a] == c[i];
    assert c[a..b][i - a] == c[i];
    assert c[b - 1] == c[a..][k - 1];
    assert b < |c| ==> c[b] == c[a..][k];
  }

  /** A non-blank chunk that a newline follows, or that ends in one itself, strips clean. */
  lemma StrippedIsClean(c: string)
    requires !Blank(c) && '\r' !in c
    requires NoSep(c + "\n") || (NoSep(c) && Terminated(c))
    ensures Clean(StripRight(StripLeft(c)))
  {
    var a, b := StripCuts(c);
    var d := c[a..b];
    assert d[0] == c[a] && d[|d| - 1] == c[b - 1];
    if NoSep(c + "\n") {
      var t := c + "\n";
      assert t[a..b] == d && t[b] == '\n';
      MiddleIsSepFree(t, a, b, d);
    } else {
      MiddleIsSepFree(c, a, b, d);
    }
  }

  lemma MiddleIsSepFree(t: string, a: nat, b: nat, d: string)
    requires NoSep(t) && a <= b < |t| && t[a..b] == d && t[b] == '\n'
    ensures NoSep(d + "\n")
  {
    NoSepOfMiddle(t, a, b + 1);
    assert t[a..b + 1] == d + "\n";
  }

  lemma {:induction false} KeptIsClean(chunks: seq<string>)
    requires chunks != [] && SepFree(chunks) && forall i :: 0 <= i < |chunks| ==> '\r' !in chunks[i]
    ensures AllClean(Kept(chunks))
    decreases |chunks|
  {
    if !Blank(chunks[0]) {
      StrippedIsClean(chunks[0]);
    }
    if |chunks| > 1 {
      KeptIsClean(chunks[1..]);
    }
  }

  lemma ReadsAreClean(text: string)
    requires Terminated(text)
    ensures AllClean(ReadFile(text))
  {
    TextModeKeepsTheEnd(text);
    SplitIsSepFree(TextMode(text));
    ChunksWithoutReturns(TextMode(text));
    KeptIsClean(Split(TextMode(text)));
  }
}
