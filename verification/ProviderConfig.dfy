/**
The provider configuration as text: the lines the template in
internal/assets/manifests/secrets/secret-encryption-config.yaml renders, and the two multi-line
patterns with which cmd/kakt/encryption_rotate.go cuts names and values out of them again.
*/
module ProviderConfig {
  import opened Options
  import opened Text

  /** `\s` of Go's regular expressions. */
  predicate IsSpace(c: char) {
    c == ' ' || c == '\t' || c == '\n' || c == '\U{C}' || c == '\r'
  }

  function SkipSpace(t: string): (r: string)
    ensures |r| <= |t| && (r != "" ==> !IsSpace(r[0]))
  {
    if t != "" && IsSpace(t[0]) then SkipSpace(t[1..]) else t
  }

  /** `\S*`, as far as it goes. */
  function Word(t: string): (w: string)
    ensures |w| <= |t| && t[..|w|] == w
    ensures forall i :: 0 <= i < |w| ==> !IsSpace(w[i])
    ensures |w| < |t| ==> IsSpace(t[|w|])
  {
    if t == "" || IsSpace(t[0]) then "" else [t[0]] + Word(t[1..])
  }

  /** What follows the first line. */
  function NextLine(t: string): (r: string)
    ensures |r| <= |t| && (t != "" ==> |r| < |t|)
  {
    if t == "" then "" else if t[0] == '\n' then t[1..] else NextLine(t[1..])
  }

  /** `\s*$` at this place, and what follows the last line end it takes in. */
  function LineEnd(t: string): (r: Option<string>)
    ensures r.Some? ==> |r.value| <= |t| && (t != "" ==> |r.value| < |t|)
  {
    if t == "" then Some("")
    else if !IsSpace(t[0]) then None
    else if LineEnd(t[1..]).Some? then LineEnd(t[1..])
    else if t[0] == '\n' then Some(t[1..])
    else None
  }

  /**
  A match of `^\s*<label>\s*(\S+)\s*$` from this line on: the captured word, and what follows the line
  the match ends in.  No part of the pattern can give back what it took: the label starts with
  something visible, and the word ends only where space begins.
  */
  function Match(t: string, tag: string): (m: Option<(string, string)>)
    requires tag != ""
    ensures m.Some? ==> |m.value.1| < |t|
  {
    var u := SkipSpace(t);
    if !StartsWith(u, tag) then None
    else
      var v := SkipSpace(u[|tag|..]);
      var w := Word(v);
      var end := LineEnd(v[|w|..]);
      if w == "" || end.None? then None else Some((w, end.value))
  }

  /** `FindAllStringSubmatch`: what every match captures, leftmost first. */
  function Captures(t: string, tag: string): seq<string>
    requires tag != ""
    decreases |t|
  {
    if t == "" then []
    else if Match(t, tag).Some? then [Match(t, tag).value.0] + Captures(Match(t, tag).value.1, tag)
    else Captures(NextLine(t), tag)
  }

  // ----- Lines -----

  datatype Line = Line(indent: nat, body: string)

  /** Something visible, and no line end in it. */
  predicate IsLine(l: Line) {
    l.body != "" && !IsSpace(l.body[0]) && '\n' !in l.body
  }

  function Blanks(n: nat): (s: string)
    ensures |s| == n && forall i :: 0 <= i < n ==> s[i] == ' '
  {
    seq(n, _ => ' ')
  }

  function Written(l: Line): string {
    Blanks(l.indent) + l.body
  }

  function Join(lines: seq<Line>): string {
    if lines == [] then "" else Written(lines[0]) + "\n" + Join(lines[1..])
  }

  /** A label and a word behind it. */
  predicate Carries(l: Line, tag: string, word: string) {
    l.body == tag + " " + word && word != "" && forall i :: 0 <= i < |word| ==> !IsSpace(word[i])
  }

  lemma {:induction false} SkipBlanks(n: nat, t: string)
    requires t != "" && !IsSpace(t[0])
    ensures SkipSpace(Blanks(n) + t) == t
  {
    if n == 0 {
      assert Blanks(0) + t == t;
    } else {
      assert (Blanks(n) + t)[1..] == Blanks(n - 1) + t;
      SkipBlanks(n - 1, t);
    }
  }

  lemma {:induction false} NextLineIs(a: string, rest: string)
    requires '\n' !in a
    ensures NextLine(a + "\n" + rest) == rest
  {
    var t := a + "\n" + rest;
    if a == "" {
      assert t[1..] == rest;
    } else {
      assert t[1..] == a[1..] + "\n" + rest;
      NextLineIs(a[1..], rest);
    }
  }

  lemma {:induction false} WordIs(w: string, rest: string)
    requires forall i :: 0 <= i < |w| ==> !IsSpace(w[i])
    requires rest == "" || IsSpace(rest[0])
    ensures Word(w + rest) == w
  {
    if w == "" {
      assert w + rest == rest;
    } else {
      assert (w + rest)[1..] == w[1..] + rest;
      WordIs(w[1..], rest);
    }
  }

  lemma {:induction false} NoLineEnd(n: nat, t: string)
    requires t != "" && !IsSpace(t[0])
    ensures LineEnd(Blanks(n) + t).None?
  {
    if n == 0 {
      assert Blanks(0) + t == t;
    } else {
      assert (Blanks(n) + t)[1..] == Blanks(n - 1) + t;
      NoLineEnd(n - 1, t);
    }
  }

  lemma LineEndAtBreak(rest: string)
    ensures LineEnd("\n" + rest) == if LineEnd(rest).Some? then LineEnd(rest) else Some(rest)
  {
    assert ("\n" + rest)[1..] == rest;
  }

  predicate AreLines(lines: seq<Line>) {
    forall i :: 0 <= i < |lines| ==> IsLine(lines[i])
  }

  /** A line ends where it ends: the next one shows something. */
  lemma LineEndIs(rest: seq<Line>)
    requires AreLines(rest)
    ensures LineEnd("\n" + Join(rest)) == Some(Join(rest))
  {
    LineEndAtBreak(Join(rest));
    if rest != [] {
      var tail := rest[0].body + "\n" + Join(rest[1..]);
      assert Join(rest) == Blanks(rest[0].indent) + tail;
      NoLineEnd(rest[0].indent, tail);
    }
  }

  lemma Visible(l: Line, rest: seq<Line>)
    requires IsLine(l)
    ensures SkipSpace(Join([l] + rest)) == l.body + "\n" + Join(rest)
    ensures NextLine(Join([l] + rest)) == Join(rest) && Join([l] + rest) != ""
  {
    assert ([l] + rest)[1..] == rest;
    var tail := l.body + "\n" + Join(rest);
    assert Join([l] + rest) == Blanks(l.indent) + tail;
    SkipBlanks(l.indent, tail);
    assert Join([l] + rest) == Written(l) + "\n" + Join(rest);
    NextLineIs(Written(l), Join(rest));
  }

  lemma LabelledLine(l: Line, rest: seq<Line>, tag: string, word: string)
    requires tag != "" && IsLine(l) && Carries(l, tag, word) && AreLines(rest)
    ensures Captures(Join([l] + rest), tag) == [word] + Captures(Join(rest), tag)
  {
    Visible(l, rest);
    var u, end := l.body + "\n" + Join(rest), "\n" + Join(rest);
    assert u[..|tag|] == tag && u[|tag|..] == Blanks(1) + (word + end);
    SkipBlanks(1, word + end);
    WordIs(word, end);
    assert (word + end)[|word|..] == end;
    LineEndIs(rest);
  }

  /** A line with a second word behind the first does not match. */
  lemma CrowdedLine(l: Line, rest: seq<Line>, tag: string, word: string, more: string)
    requires tag != "" && IsLine(l) && l.body == tag + " " + word + " " + more
    requires word != "" && forall i :: 0 <= i < |word| ==> !IsSpace(word[i])
    requires more != "" && !IsSpace(more[0])
    ensures Captures(Join([l] + rest), tag) == Captures(Join(rest), tag)
  {
    Visible(l, rest);
    var u, tail := l.body + "\n" + Join(rest), more + "\n" + Join(rest);
    var end := Blanks(1) + tail;
    assert u[..|tag|] == tag && u[|tag|..] == Blanks(1) + (word + end);
    SkipBlanks(1, word + end);
    WordIs(word, end);
    assert (word + end)[|word|..] == end;
    NoLineEnd(1, tail);
  }

  lemma OtherLine(l: Line, rest: seq<Line>, tag: string)
    requires tag != "" && '\n' !in tag && IsLine(l) && !StartsWith(l.body, tag)
    ensures Captures(Join([l] + rest), tag) == Captures(Join(rest), tag)
  {
    Visible(l, rest);
    StaysOther(l.body, Join(rest), tag);
  }

  lemma StaysOther(body: string, rest: string, tag: string)
    requires '\n' !in tag && !StartsWith(body, tag)
    ensures !StartsWith(body + "\n" + rest, tag)
  {
    var u := body + "\n" + rest;
    if |tag| > |body| {
      PrefixAgrees(u, tag, |body|);
      assert u[|body|] == '\n';
    } else {
      assert u[..|tag|] == body[..|tag|];
    }
  }

  /** The word a line carries behind the tag, if it starts with it. */
  function Picked(l: Line, tag: string): seq<string> {
    if StartsWith(l.body, tag + " ") then [l.body[|tag| + 1..]] else []
  }

  function AllPicked(lines: seq<Line>, tag: string): seq<string> {
    if lines == [] then [] else Picked(lines[0], tag) + AllPicked(lines[1..], tag)
  }

  /** A line that starts with the tag carries one word behind it and nothing else. */
  predicate IsPlainLine(l: Line, tag: string) {
    IsLine(l) && (StartsWith(l.body, tag) ==> Picked(l, tag) != [] && Carries(l, tag, Picked(l, tag)[0]))
  }

  predicate ArePlain(lines: seq<Line>, tag: string) {
    forall i :: 0 <= i < |lines| ==> IsPlainLine(lines[i], tag)
  }

  lemma TagOfPrefix(s: string, tag: string)
    ensures StartsWith(s, tag + " ") ==> StartsWith(s, tag)
  {
    if StartsWith(s, tag + " ") {
      assert s[..|tag|] == s[..|tag| + 1][..|tag|] == tag;
    }
  }

  /** The pattern captures, line by line, the words behind its tag. */
  lemma {:induction false} CapturesArePicked(lines: seq<Line>, tag: string)
    requires tag != "" && '\n' !in tag && ArePlain(lines, tag)
    ensures Captures(Join(lines), tag) == AllPicked(lines, tag)
  {
    if lines != [] {
      var l, rest := lines[0], lines[1..];
      assert lines == [l] + rest;
      CapturesArePicked(rest, tag);
      TagOfPrefix(l.body, tag);
      if StartsWith(l.body, tag) {
        LabelledLine(l, rest, tag, Picked(l, tag)[0]);
      } else {
        OtherLine(l, rest, tag);
      }
    }
  }

  lemma {:induction false} PickedConcat(a: seq<Line>, b: seq<Line>, tag: string)
    ensures AllPicked(a + b, tag) == AllPicked(a, tag) + AllPicked(b, tag)
  {
    if a == [] {
      assert a + b == b;
    } else {
      assert (a + b)[0] == a[0] && (a + b)[1..] == a[1..] + b;
      PickedConcat(a[1..], b, tag);
    }
  }

  // ----- The template -----

  const NAME := "- name:"
  const SECRET := "secret:"

  /** A key as it is written: its name and its base64 text. */
  datatype KeyText = KeyText(name: string, secret: string)

  predicate IsWord(s: string) {
    s != "" && forall i :: 0 <= i < |s| ==> !IsSpace(s[i])
  }

  predicate IsKeyText(k: KeyText) {
    IsWord(k.name) && IsWord(k.secret)
  }

  function KeyLines(k: KeyText): seq<Line> {
    [Line(12, NAME + " " + k.name), Line(14, SECRET + " " + k.secret)]
  }

  predicate AreComments(lines: seq<Line>) {
    forall i :: 0 <= i < |lines| ==> IsLine(lines[i]) && lines[i].body[0] == '#'
  }

  /** What stands in front of the key list. */
  const HEAD := [
    Line(0, "apiVersion: apiserver.config.k8s.io/v1"),
    Line(0, "kind: EncryptionConfiguration"),
    Line(0, "resources:"),
    Line(2, "- resources:"),
    Line(6, "- secrets"),
    Line(4, "providers:"),
    Line(6, "- secretbox:")]

  /** Up to the primary key, with comments on the order of the list. */
  function Front(primary: KeyText, order: seq<Line>): seq<Line> {
    HEAD + order + [Line(10, "keys:")] + KeyLines(primary)
  }

  /** The key that is kept for reads, and comments on that. */
  function Retained(fallback: Option<KeyText>, retained: seq<Line>): seq<Line> {
    if fallback.None? then [] else retained + KeyLines(fallback.value)
  }

  function Plaintext(plaintext: bool): seq<Line> {
    if plaintext then [Line(6, "- identity: {}")] else []
  }

  /** The rendered configuration, whatever its comments say. */
  function Rendered(
      primary: KeyText, fallback: Option<KeyText>, plaintext: bool, order: seq<Line>, retained: seq<Line>): seq<Line> {
    Front(primary, order) + Retained(fallback, retained) + Plaintext(plaintext)
  }

  /** A line that has nothing to do with the tag. */
  predicate IsOther(l: Line, tag: string) {
    IsLine(l) && !StartsWith(l.body, tag)
  }

  lemma {:induction false} OthersHaveNone(lines: seq<Line>, tag: string)
    requires forall i :: 0 <= i < |lines| ==> IsOther(lines[i], tag)
    ensures ArePlain(lines, tag) && AllPicked(lines, tag) == []
  {
    if lines != [] {
      OthersHaveNone(lines[1..], tag);
      TagOfPrefix(lines[0].body, tag);
    }
  }

  lemma Differs(s: string, tag: string, i: nat)
    requires i < |s| && i < |tag| && s[i] != tag[i]
    ensures !StartsWith(s, tag)
  {
    PrefixAgrees(s, tag, i);
  }

  lemma CarriesItsWord(l: Line, tag: string, word: string)
    requires IsLine(l) && l.body == tag + " " + word && IsWord(word)
    ensures IsPlainLine(l, tag) && Picked(l, tag) == [word]
  {
    assert l.body[..|tag| + 1] == tag + " " && l.body[|tag| + 1..] == word;
  }

  lemma CommentsHaveNone(lines: seq<Line>)
    requires AreComments(lines)
    ensures ArePlain(lines, NAME) && AllPicked(lines, NAME) == []
    ensures ArePlain(lines, SECRET) && AllPicked(lines, SECRET) == []
  {
    forall i | 0 <= i < |lines| ensures IsOther(lines[i], NAME) && IsOther(lines[i], SECRET) {
      Differs(lines[i].body, NAME, 0);
      Differs(lines[i].body, SECRET, 0);
    }
    OthersHaveNone(lines, NAME);
    OthersHaveNone(lines, SECRET);
  }

  /** A fixed line of the template: neither a name nor a value. */
  predicate IsFixed(l: Line) {
    IsLine(l) && (l.body[0] in "arkp" || (|l.body| > 2 && l.body[0] == '-' && l.body[2] in "rsi"))
  }

  lemma FixedLine(l: Line)
    requires IsFixed(l)
    ensures IsOther(l, NAME) && IsOther(l, SECRET)
  {
    if l.body[0] == '-' {
      Differs(l.body, NAME, 2);
      Differs(l.body, SECRET, 0);
    } else {
      Differs(l.body, NAME, 0);
      Differs(l.body, SECRET, 0);
    }
  }

  /** These lines hold exactly these words behind the tag. */
  predicate Yields(lines: seq<Line>, tag: string, words: seq<string>) {
    ArePlain(lines, tag) && AllPicked(lines, tag) == words
  }

  lemma YieldsConcat(a: seq<Line>, b: seq<Line>, tag: string, x: seq<string>, y: seq<string>)
    requires Yields(a, tag, x) && Yields(b, tag, y)
    ensures Yields(a + b, tag, x + y)
  {
    PickedConcat(a, b, tag);
  }

  lemma OneYields(l: Line, tag: string)
    requires IsPlainLine(l, tag)
    ensures Yields([l], tag, Picked(l, tag))
  {
    assert [l][1..] == [] && AllPicked([], tag) == [];
  }

  lemma NameLine(k: KeyText)
    requires IsKeyText(k)
    ensures Yields([Line(12, NAME + " " + k.name)], NAME, [k.name])
    ensures Yields([Line(12, NAME + " " + k.name)], SECRET, [])
  {
    var l := Line(12, NAME + " " + k.name);
    assert IsLine(l) && l.body[0] == '-';
    CarriesItsWord(l, NAME, k.name);
    Differs(l.body, SECRET, 0);
    TagOfPrefix(l.body, SECRET);
    OneYields(l, NAME);
    OneYields(l, SECRET);
  }

  lemma SecretLine(k: KeyText)
    requires IsKeyText(k)
    ensures Yields([Line(14, SECRET + " " + k.secret)], SECRET, [k.secret])
    ensures Yields([Line(14, SECRET + " " + k.secret)], NAME, [])
  {
    var l := Line(14, SECRET + " " + k.secret);
    assert IsLine(l) && l.body[0] == 's';
    CarriesItsWord(l, SECRET, k.secret);
    Differs(l.body, NAME, 0);
    TagOfPrefix(l.body, NAME);
    OneYields(l, SECRET);
    OneYields(l, NAME);
  }

  lemma KeyYields(k: KeyText)
    requires IsKeyText(k)
    ensures Yields(KeyLines(k), NAME, [k.name]) && Yields(KeyLines(k), SECRET, [k.secret])
  {
    NameLine(k);
    SecretLine(k);
    var a, b := [Line(12, NAME + " " + k.name)], [Line(14, SECRET + " " + k.secret)];
    YieldsConcat(a, b, NAME, [k.name], []);
    YieldsConcat(a, b, SECRET, [], [k.secret]);
    assert KeyLines(k) == a + b && [k.name] + [] == [k.name] && [] + [k.secret] == [k.secret];
  }

  lemma FixedYields(l: Line, tag: string)
    requires IsFixed(l) && (tag == NAME || tag == SECRET)
    ensures Yields([l], tag, [])
  {
    FixedLine(l);
    OthersHaveNone([l], tag);
  }

  lemma HeadIsFixed(i: nat)
    requires i < |HEAD|
    ensures IsFixed(HEAD[i])
  {
    var l := HEAD[i];
    if i == 0 {
      assert l == Line(0, "apiVersion: apiserver.config.k8s.io/v1");
    } else if i == 1 {
      assert l == Line(0, "kind: EncryptionConfiguration");
    }
  }

  lemma HeadYields(tag: string)
    requires tag == NAME || tag == SECRET
    ensures Yields(HEAD, tag, [])
  {
    forall i | 0 <= i < |HEAD| ensures IsOther(HEAD[i], tag) {
      HeadIsFixed(i);
      FixedLine(HEAD[i]);
    }
    OthersHaveNone(HEAD, tag);
  }

  lemma CommentsYield(lines: seq<Line>, tag: string)
    requires AreComments(lines) && (tag == NAME || tag == SECRET)
    ensures Yields(lines, tag, [])
  {
    CommentsHaveNone(lines);
  }

  /** The name of a key, or its value. */
  function WordOf(k: KeyText, tag: string): string {
    if tag == NAME then k.name else k.secret
  }

  function WordsOf(keys: seq<KeyText>, tag: string): seq<string> {
    seq(|keys|, i requires 0 <= i < |keys| => WordOf(keys[i], tag))
  }

  function KeysOf(primary: KeyText, fallback: Option<KeyText>): seq<KeyText> {
    if fallback.None? then [primary] else [primary, fallback.value]
  }

  lemma FrontYields(primary: KeyText, order: seq<Line>, tag: string)
    requires IsKeyText(primary) && AreComments(order) && (tag == NAME || tag == SECRET)
    ensures Yields(Front(primary, order), tag, [WordOf(primary, tag)])
  {
    var keys := Line(10, "keys:");
    HeadYields(tag);
    CommentsYield(order, tag);
    FixedYields(keys, tag);
    KeyYields(primary);
    YieldsConcat(HEAD, order, tag, [], []);
    YieldsConcat(HEAD + order, [keys], tag, [] + [], []);
    YieldsConcat(HEAD + order + [keys], KeyLines(primary), tag, [] + [] + [], [WordOf(primary, tag)]);
  }

  lemma RetainedYields(fallback: Option<KeyText>, retained: seq<Line>, tag: string)
    requires (fallback.Some? ==> IsKeyText(fallback.value)) && AreComments(retained) && (tag == NAME || tag == SECRET)
    ensures Yields(Retained(fallback, retained), tag, if fallback.None? then [] else [WordOf(fallback.value, tag)])
  {
    if fallback.Some? {
      CommentsYield(retained, tag);
      KeyYields(fallback.value);
      YieldsConcat(retained, KeyLines(fallback.value), tag, [], [WordOf(fallback.value, tag)]);
    }
  }

  lemma PlaintextYields(plaintext: bool, tag: string)
    requires tag == NAME || tag == SECRET
    ensures Yields(Plaintext(plaintext), tag, [])
  {
    if plaintext {
      FixedYields(Line(6, "- identity: {}"), tag);
    }
  }

  /**
  Of everything the template renders, comments and the plaintext provider included, the two patterns
  capture exactly the names and the values of the primary and the fallback key, in that order.
  */
  lemma RenderedIsRead(
      primary: KeyText, fallback: Option<KeyText>, plaintext: bool, order: seq<Line>, retained: seq<Line>, tag: string)
    requires IsKeyText(primary) && (fallback.Some? ==> IsKeyText(fallback.value))
    requires AreComments(order) && AreComments(retained) && (tag == NAME || tag == SECRET)
    ensures Captures(Join(Rendered(primary, fallback, plaintext, order, retained)), tag) ==
      WordsOf(KeysOf(primary, fallback), tag)
  {
    var a, b, c := Front(primary, order), Retained(fallback, retained), Plaintext(plaintext);
    var x, y := [WordOf(primary, tag)], if fallback.None? then [] else [WordOf(fallback.value, tag)];
    FrontYields(primary, order, tag);
    RetainedYields(fallback, retained, tag);
    PlaintextYields(plaintext, tag);
    YieldsConcat(a, b, tag, x, y);
    YieldsConcat(a + b, c, tag, x + y, []);
    CapturesArePicked(a + b + c, tag);
    assert x + y + [] == WordsOf(KeysOf(primary, fallback), tag);
  }

  const IDENTITY := Line(6, "- identity: {}")

  lemma NoIdentityAmong(k: KeyText, lines: seq<Line>)
    requires AreComments(lines)
    ensures IDENTITY !in KeyLines(k) && IDENTITY !in lines && IDENTITY !in HEAD && IDENTITY != Line(10, "keys:")
  {
    assert KeyLines(k)[0].indent == 12 && KeyLines(k)[1].indent == 14;
    forall i | 0 <= i < |HEAD| ensures HEAD[i] != IDENTITY {
      assert HEAD[6].body[2] == 's' && IDENTITY.body[2] == 'i';
      assert i == 6 || HEAD[i].indent != 6 || HEAD[i].body[2] == 's';
    }
  }

  /** The provider that reads plaintext is rendered exactly when it is asked for. */
  lemma PlaintextIsRendered(
      primary: KeyText, fallback: Option<KeyText>, plaintext: bool, order: seq<Line>, retained: seq<Line>)
    requires AreComments(order) && AreComments(retained)
    ensures IDENTITY in Rendered(primary, fallback, plaintext, order, retained) <==> plaintext
  {
    NoIdentityAmong(primary, order);
    if fallback.Some? {
      NoIdentityAmong(fallback.value, retained);
    }
    assert plaintext ==> Plaintext(plaintext)[0] == IDENTITY;
  }
}
