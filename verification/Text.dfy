/** What the Go and Python parts of the repository share about strings. */
module Text {

  predicate StartsWith(s: string, p: string) {
    |p| <= |s| && s[..|p|] == p
  }

  lemma PrefixAgrees(s: string, p: string, i: nat)
    requires i < |p|
    ensures StartsWith(s, p) ==> s[i] == p[i]
  {
    if StartsWith(s, p) {
      assert s[..|p|][i] == s[i];
    }
  }

  predicate Contains(s: string, lit: string) {
    exists i :: 0 <= i <= |s| && StartsWith(s[i..], lit)
  }

  lemma ContainsStep(s: string, lit: string)
    requires lit != ""
    ensures Contains(s, lit) <==> s != "" && (StartsWith(s, lit) || Contains(s[1..], lit))
  {
    if Contains(s, lit) {
      var i :| 0 <= i <= |s| && StartsWith(s[i..], lit);
      if i > 0 {
        assert s[1..][i - 1..] == s[i..];
      } else {
        assert s[0..] == s;
      }
    }
    if s != "" && StartsWith(s, lit) {
      assert s[0..] == s;
    }
    if s != "" && Contains(s[1..], lit) {
      var i :| 0 <= i <= |s[1..]| && StartsWith(s[1..][i..], lit);
      assert s[1..][i..] == s[i + 1..];
    }
  }

  /** The characters Go's `strings.TrimSpace` removes. */
  predicate IsGoSpace(c: char) {
    || '\t' <= c <= '\r' || c == ' ' || c == '\U{85}' || c == '\U{A0}' || c == '\U{1680}'
    || '\U{2000}' <= c <= '\U{200A}' || c == '\U{2028}' || c == '\U{2029}' || c == '\U{202F}'
    || c == '\U{205F}' || c == '\U{3000}'
  }

  /** Python's `str.strip` also removes the four separator controls. */
  predicate IsPythonSpace(c: char) {
    IsGoSpace(c) || '\U{1C}' <= c <= '\U{1F}'
  }

  // ----- Strings in order -----

  /** By code point, a prefix first, as both languages sort. */
  predicate Less(a: string, b: string) {
    if b == "" then false
    else if a == "" then true
    else a[0] < b[0] || (a[0] == b[0] && Less(a[1..], b[1..]))
  }

  predicate NotAfter(a: string, b: string) {
    a == b || Less(a, b)
  }

  /** At the first place where they differ, a is below b. */
  predicate BelowAt(a: string, b: string, k: nat) {
    k < |a| && k < |b| && a[..k] == b[..k] && a[k] < b[k]
  }

  lemma BelowTail(a: string, b: string, k: nat)
    requires a != "" && b != "" && a[0] == b[0]
    ensures BelowAt(a, b, k + 1) <==> BelowAt(a[1..], b[1..], k)
    ensures !BelowAt(a, b, 0)
  {
    if k < |a| - 1 && k < |b| - 1 {
      assert a[..k + 1] == [a[0]] + a[1..][..k] && b[..k + 1] == [b[0]] + b[1..][..k];
      assert a[1..][..k] == a[..k + 1][1..] && b[1..][..k] == b[..k + 1][1..];
    }
  }

  lemma BelowAtOnce(a: string, b: string, k: nat)
    requires a != "" && b != "" && a[0] != b[0]
    ensures BelowAt(a, b, k) <==> k == 0 && a[0] < b[0]
  {
    if k == 0 {
      assert a[..0] == b[..0];
    } else if k < |a| && k < |b| {
      assert a[..k][0] == a[0] && b[..k][0] == b[0];
    }
  }

  /** A string comes before another if it is a proper beginning of it, or is below it where they first differ. */
  lemma {:induction false} LessExactly(a: string, b: string)
    ensures Less(a, b) <==> a < b || exists k: nat :: BelowAt(a, b, k)
    decreases |a|
  {
    if a != "" && b != "" && a[0] == b[0] {
      LessExactly(a[1..], b[1..]);
      assert a == [a[0]] + a[1..] && b == [b[0]] + b[1..];
      assert a < b <==> a[1..] < b[1..];
      if k: nat :| BelowAt(a[1..], b[1..], k) {
        BelowTail(a, b, k);
      }
      if k: nat :| BelowAt(a, b, k) {
        BelowTail(a, b, if k == 0 then 0 else k - 1);
      }
    } else if a != "" && b != "" {
      BelowAtOnce(a, b, 0);
      if k: nat :| BelowAt(a, b, k) {
        BelowAtOnce(a, b, k);
      }
    }
  }

  lemma {:induction false} LessIsAsymmetric(a: string, b: string)
    requires Less(a, b)
    ensures !Less(b, a) && a != b
    decreases |a|
  {
    if a != "" && b != "" && a[0] == b[0] {
      LessIsAsymmetric(a[1..], b[1..]);
    }
  }

  lemma {:induction false} LessIsTotal(a: string, b: string)
    ensures Less(a, b) || a == b || Less(b, a)
    decreases |a|
  {
    if a != "" && b != "" && a[0] == b[0] {
      LessIsTotal(a[1..], b[1..]);
      assert a == [a[0]] + a[1..] && b == [b[0]] + b[1..];
    }
  }

  lemma {:induction false} LessIsTransitive(a: string, b: string, c: string)
    requires Less(a, b) && Less(b, c)
    ensures Less(a, c)
    decreases |a|
  {
    if a != "" && a[0] == b[0] == c[0] {
      LessIsTransitive(a[1..], b[1..], c[1..]);
    }
  }

  predicate Ascending(names: seq<string>) {
    forall i, j :: 0 <= i < j < |names| ==> Less(names[i], names[j])
  }
}
