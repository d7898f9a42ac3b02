/** Sorting by a total preorder, as Go's and Python's library sorts promise it. */
module Sorting {
  import opened Text

  ghost predicate IsPreorder<T(!new)>(le: (T, T) -> bool) {
    && (forall x, y :: le(x, y) || le(y, x))
    && (forall x, y, z :: le(x, y) && le(y, z) ==> le(x, z))
  }

  predicate Sorted<T>(s: seq<T>, le: (T, T) -> bool) {
    forall i, j :: 0 <= i < j < |s| ==> le(s[i], s[j])
  }

  lemma ConsIsSorted<T(!new)>(x: T, s: seq<T>, le: (T, T) -> bool)
    requires IsPreorder(le) && Sorted(s, le) && (s == [] || le(x, s[0]))
    ensures Sorted([x] + s, le)
  {
    forall j | 0 <= j < |s| ensures le(x, s[j]) {
      assert j > 0 ==> le(s[0], s[j]);
    }
  }

  /** Put an element in front of the first that is not below it. */
  function Insert<T(!new)>(s: seq<T>, x: T, le: (T, T) -> bool): (r: seq<T>)
    requires IsPreorder(le) && Sorted(s, le)
    ensures Sorted(r, le) && multiset(r) == multiset(s) + multiset{x}
    ensures r != [] && (r[0] == x || (s != [] && r[0] == s[0]))
  {
    if s == [] then [x]
    else if le(x, s[0]) then
      ConsIsSorted(x, s, le);
      [x] + s
    else
      var rest := Insert(s[1..], x, le);
      assert s == [s[0]] + s[1..];
      ConsIsSorted(s[0], rest, le);
      [s[0]] + rest
  }

  method Sort<T(!new)>(s: seq<T>, le: (T, T) -> bool) returns (r: seq<T>)
    requires IsPreorder(le)
    ensures Sorted(r, le) && multiset(r) == multiset(s)
  {
    r := [];
    for k := 0 to |s|
      invariant Sorted(r, le) && multiset(r) == multiset(s[..k])
    {
      assert s[..k + 1] == s[..k] + [s[k]];
      r := Insert(r, s[k], le);
    }
    assert s[..|s|] == s;
  }

  lemma SameMembers<T>(a: seq<T>, b: seq<T>, x: T)
    requires multiset(a) == multiset(b)
    ensures x in a <==> x in b
  {
    assert x in a <==> x in multiset(a);
    assert x in b <==> x in multiset(b);
  }

  // ----- Without repeats -----

  predicate NoRepeats<T(==)>(s: seq<T>) {
    forall i, j :: 0 <= i < j < |s| ==> s[i] != s[j]
  }

  lemma {:induction false} NoRepeatsCounts<T>(s: seq<T>, x: T)
    requires NoRepeats(s)
    ensures multiset(s)[x] == if x in s then 1 else 0
  {
    if s != [] {
      var front, last := s[..|s| - 1], s[|s| - 1];
      assert s == front + [last];
      NoRepeatsCounts(front, x);
    }
  }

  lemma CountsTwice<T>(s: seq<T>, i: nat, j: nat)
    requires i < j < |s| && s[i] == s[j]
    ensures multiset(s)[s[i]] >= 2
  {
    assert s == s[..j] + s[j..];
    assert s[..j][i] == s[i] && s[j..][0] == s[j];
    assert s[i] in multiset(s[..j]) && s[i] in multiset(s[j..]);
  }

  /** Rearranging repeats nothing. */
  lemma PermutedHasNoRepeats<T>(s: seq<T>, r: seq<T>)
    requires NoRepeats(s) && multiset(r) == multiset(s)
    ensures NoRepeats(r)
  {
    forall i, j | 0 <= i < j < |r| ensures r[i] != r[j] {
      NoRepeatsCounts(s, r[i]);
      if r[i] == r[j] {
        CountsTwice(r, i, j);
        assert false;
      }
    }
  }

  // ----- Strings -----

  lemma NotAfterIsPreorder()
    ensures IsPreorder(NotAfter)
  {
    forall a, b ensures NotAfter(a, b) || NotAfter(b, a) {
      LessIsTotal(a, b);
    }
    forall a, b, c | NotAfter(a, b) && NotAfter(b, c) ensures NotAfter(a, c) {
      if a != b && b != c {
        LessIsTransitive(a, b, c);
      }
    }
  }

  lemma SortedOnceAscends(s: seq<string>)
    requires Sorted(s, NotAfter) && NoRepeats(s)
    ensures Ascending(s)
  {
    forall i, j | 0 <= i < j < |s| ensures Less(s[i], s[j]) {
      assert NotAfter(s[i], s[j]);
    }
  }
}
