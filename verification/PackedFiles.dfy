/**
The files a packed chart holds: greedy packing under a size limit, the three-digit names the
parts get, and reading the directory back in the order of those names.
*/
module PackedFiles {
  import opened Digits
  import opened Text
  import opened Packing
  import opened Sorting

  // ----- Greedy packing -----

  function Flatten(parts: seq<seq<string>>): seq<string> {
    if parts == [] then [] else Flatten(parts[..|parts| - 1]) + parts[|parts| - 1]
  }

  /** Five characters are charged per document for the separator. */
  function Size(part: seq<string>): nat {
    if part == [] then 0 else Size(part[..|part| - 1]) + |part[|part| - 1]| + 5
  }

  /**
  What packing means: the same documents in the same order, none divided; a part goes over the
  limit only if it is a single document; and a new part is started only when it had to be.
  */
  ghost predicate IsPacking(docs: seq<string>, parts: seq<seq<string>>, limit: nat) {
    && Flatten(parts) == docs
    && (forall i :: 0 <= i < |parts| ==> parts[i] != [] && (|parts[i]| > 1 ==> Size(parts[i]) <= limit))
    && (forall i :: 0 <= i < |parts| - 1 ==> Size(parts[i]) + |parts[i + 1][0]| + 5 > limit)
  }

  lemma FlattenSnoc(parts: seq<seq<string>>, part: seq<string>)
    ensures Flatten(parts + [part]) == Flatten(parts) + part
  {
    assert (parts + [part])[..|parts|] == parts;
  }

  lemma SizeSnoc(part: seq<string>, d: string)
    ensures Size(part + [d]) == Size(part) + |d| + 5
  {
    assert (part + [d])[..|part|] == part;
  }

  /** The closed parts and the open one, part-way through the loop. */
  ghost predicate Packed(docs: seq<string>, parts: seq<seq<string>>, part: seq<string>, size: nat, limit: nat) {
    && (part == [] ==> parts == [])
    && size == Size(part)
    && Flatten(parts) + part == docs
    && (part != [] ==> IsPacking(docs, parts + [part], limit))
  }

  lemma PackedFlush(docs: seq<string>, parts: seq<seq<string>>, part: seq<string>, size: nat, limit: nat, d: string)
    requires Packed(docs, parts, part, size, limit) && size + |d| + 5 > limit && part != []
    ensures Packed(docs + [d], parts + [part], [d], |d| + 5, limit)
  {
    SizeSnoc([], d);
    assert [] + [d] == [d];
    FlattenSnoc(parts, part);
    FlattenSnoc(parts + [part], [d]);
  }

  lemma PackedAppend(docs: seq<string>, parts: seq<seq<string>>, part: seq<string>, size: nat, limit: nat, d: string)
    requires Packed(docs, parts, part, size, limit) && (size + |d| + 5 <= limit || part == [])
    ensures Packed(docs + [d], parts, part + [d], size + |d| + 5, limit)
  {
    SizeSnoc(part, d);
    FlattenSnoc(parts, part + [d]);
    assert Flatten(parts) + (part + [d]) == docs + [d];
  }

  /** One file per part, holding that part. */
  ghost predicate Written(files: seq<string>, parts: seq<seq<string>>) {
    |files| == |parts| && forall i :: 0 <= i < |parts| ==> files[i] == FileText(parts[i])
  }

  /** The files are a packing of the documents, one file per part. */
  ghost predicate PackedInto(docs: seq<string>, limit: nat, files: seq<string>) {
    exists parts :: IsPacking(docs, parts, limit) && Written(files, parts)
  }

  // ----- A list of documents has only one packing -----

  lemma {:induction false} FlattenCons(parts: seq<seq<string>>)
    requires parts != []
    ensures Flatten(parts) == parts[0] + Flatten(parts[1..])
    decreases |parts|
  {
    var n := |parts| - 1;
    if n > 0 {
      FlattenCons(parts[..n]);
      assert parts[..n][1..] == parts[1..][..n - 1];
      assert parts[1..][n - 1] == parts[n];
    }
  }

  lemma {:induction false} SizeOfPrefix(part: seq<string>, k: nat)
    requires k <= |part|
    ensures Size(part[..k]) <= Size(part)
    decreases |part|
  {
    if k == |part| {
      assert part[..k] == part;
    } else {
      SizeOfPrefix(part[..|part| - 1], k);
      assert part[..|part| - 1][..k] == part[..k];
    }
  }

  /** What follows the first part is packed too. */
  lemma RestIsPacked(docs: seq<string>, parts: seq<seq<string>>, limit: nat)
    requires IsPacking(docs, parts, limit) && parts != []
    ensures parts[0] <= docs && IsPacking(docs[|parts[0]|..], parts[1..], limit)
  {
    FlattenCons(parts);
    var rest := parts[1..];
    assert docs[|parts[0]|..] == Flatten(rest);
    forall i | 0 <= i < |rest| - 1 ensures Size(rest[i]) + |rest[i + 1][0]| + 5 > limit {
      assert rest[i] == parts[i + 1] && rest[i + 1] == parts[i + 2];
    }
  }

  /** A part is closed only where the next document would not have fitted. */
  lemma FirstPartIsFull(docs: seq<string>, p: seq<seq<string>>, limit: nat)
    requires IsPacking(docs, p, limit) && p != [] && |p[0]| < |docs|
    ensures Size(docs[..|p[0]| + 1]) > limit
  {
    var k := |p[0]|;
    RestIsPacked(docs, p, limit);
    EmptyPacking(docs[k..], p[1..], limit);
    RestIsPacked(docs[k..], p[1..], limit);
    assert docs[k] == docs[k..][0] == p[1][0];
    assert docs[..k + 1] == p[0] + [docs[k]];
    SizeSnoc(p[0], docs[k]);
  }

  lemma FirstPartFits(docs: seq<string>, q: seq<seq<string>>, limit: nat, m: nat)
    requires IsPacking(docs, q, limit) && q != [] && 1 < m <= |q[0]|
    ensures |q[0]| <= |docs| && Size(docs[..m]) <= limit
  {
    RestIsPacked(docs, q, limit);
    assert docs[..m] == q[0][..m];
    SizeOfPrefix(q[0], m);
  }

  /** So no packing closes its first part earlier than another. */
  lemma FirstPartIsLongest(docs: seq<string>, p: seq<seq<string>>, q: seq<seq<string>>, limit: nat)
    requires IsPacking(docs, p, limit) && IsPacking(docs, q, limit) && p != [] && q != []
    ensures |p[0]| >= |q[0]|
  {
    if |p[0]| < |q[0]| {
      FirstPartFits(docs, q, limit, |p[0]| + 1);
      FirstPartIsFull(docs, p, limit);
      assert false;
    }
  }

  lemma {:induction false} PackingIsUnique(docs: seq<string>, p: seq<seq<string>>, q: seq<seq<string>>, limit: nat)
    requires IsPacking(docs, p, limit) && IsPacking(docs, q, limit)
    ensures p == q
    decreases |p|
  {
    if p == [] || q == [] {
      EmptyPacking(docs, p, limit);
      EmptyPacking(docs, q, limit);
    } else {
      FirstPartIsLongest(docs, p, q, limit);
      FirstPartIsLongest(docs, q, p, limit);
      RestIsPacked(docs, p, limit);
      RestIsPacked(docs, q, limit);
      assert p[0] == docs[..|p[0]|] == q[0];
      PackingIsUnique(docs[|p[0]|..], p[1..], q[1..], limit);
      assert p == [p[0]] + p[1..] && q == [q[0]] + q[1..];
    }
  }

  lemma EmptyPacking(docs: seq<string>, parts: seq<seq<string>>, limit: nat)
    requires IsPacking(docs, parts, limit)
    ensures docs == [] <==> parts == []
  {
    if parts != [] {
      RestIsPacked(docs, parts, limit);
    }
  }

  /** So both packagers write the very same texts for the same documents and limit. */
  lemma SameFiles(docs: seq<string>, limit: nat, files: seq<string>, others: seq<string>)
    requires PackedInto(docs, limit, files) && PackedInto(docs, limit, others)
    ensures files == others
  {
    var p :| IsPacking(docs, p, limit) && Written(files, p);
    var q :| IsPacking(docs, q, limit) && Written(others, q);
    PackingIsUnique(docs, p, q, limit);
  }

  // ----- The two loops -----

  /** `write_docs`: flush before the document that would not fit, and once more at the end. */
  method WriteDocs(docs: seq<string>, limit: nat) returns (files: seq<string>)
    ensures PackedInto(docs, limit, files)
  {
    ghost var parts: seq<seq<string>>;
    files, parts := [], [];
    var part: seq<string>, size: nat := [], 0;
    for i := 0 to |docs|
      invariant Packed(docs[..i], parts, part, size, limit)
      invariant Written(files, parts)
    {
      var d := docs[i];
      assert docs[..i + 1] == docs[..i] + [d];
      if size + |d| + 5 > limit && part != [] {
        PackedFlush(docs[..i], parts, part, size, limit, d);
        WrittenSnoc(files, parts, part);
        files, parts := files + [FileText(part)], parts + [part];
        part, size := [], 0;
      } else {
        PackedAppend(docs[..i], parts, part, size, limit, d);
      }
      part := part + [d];
      size := size + |d| + 5;
    }
    assert docs[..|docs|] == docs;
    if part != [] {
      WrittenSnoc(files, parts, part);
      PackedEnds(docs, limit, files + [FileText(part)], parts + [part]);
      files := files + [FileText(part)];
    } else {
      PackedEnds(docs, limit, files, parts);
    }
  }

  lemma PackedEnds(docs: seq<string>, limit: nat, files: seq<string>, parts: seq<seq<string>>)
    requires IsPacking(docs, parts, limit) && Written(files, parts)
    ensures PackedInto(docs, limit, files)
  {
  }

  lemma WrittenSnoc(files: seq<string>, parts: seq<seq<string>>, part: seq<string>)
    requires Written(files, parts)
    ensures Written(files + [FileText(part)], parts + [part])
  {
  }

  /** The variables split-rendered.py shares with its nested `flush`. */
  class Splitter {
    const limit: nat
    var part: seq<string>
    var size: nat
    var written: seq<string>
    ghost var parts: seq<seq<string>>

    constructor (limit: nat)
      ensures this.limit == limit && Holds([])
    {
      this.limit := limit;
      part, size, written, parts := [], 0, [], [];
    }

    ghost predicate Holds(docs: seq<string>)
      reads this
    {
      && Packed(docs, parts, part, size, limit)
      && Written(written, parts)
    }

    method Flush()
      requires Written(written, parts)
      modifies this
      ensures Written(written, parts)
      ensures part == [] && parts == if old(part) == [] then old(parts) else old(parts) + [old(part)]
      ensures size == if old(part) == [] then old(size) else 0
    {
      if part != [] {
        written, parts := written + [FileText(part)], parts + [part];
        part, size := [], 0;
      }
    }

    method Add(doc: string, ghost docs: seq<string>)
      requires Holds(docs)
      modifies this
      ensures Holds(docs + [doc])
    {
      var chunk := |doc| + 5;
      if size + chunk > limit && part != [] {
        PackedFlush(docs, parts, part, size, limit, doc);
        Flush();
      } else {
        PackedAppend(docs, parts, part, size, limit, doc);
      }
      part := part + [doc];
      size := size + chunk;
    }
  }

  /** `[d for d in text.split("\n---\n") if d.strip()]` */
  function NonBlank(chunks: seq<string>): seq<string> {
    if chunks == [] then []
    else
      var rest, last := NonBlank(chunks[..|chunks| - 1]), chunks[|chunks| - 1];
      if Blank(last) then rest else rest + [last]
  }

  /** The documents split-rendered.py finds in a text it was given, newlines and all. */
  function RenderedDocs(text: string): seq<string> {
    NonBlank(Split(TextMode(text)))
  }

  method FindDocs(text: string) returns (docs: seq<string>)
    ensures docs == RenderedDocs(text)
  {
    var chunks := Split(TextMode(text));
    docs := [];
    for k := 0 to |chunks|
      invariant docs == NonBlank(chunks[..k])
    {
      assert chunks[..k + 1][..k] == chunks[..k];
      if !Blank(chunks[k]) {
        docs := docs + [chunks[k]];
      }
    }
    assert chunks[..|chunks|] == chunks;
  }

  /** The packing loop. */
  method SplitDocs(docs: seq<string>, limit: nat) returns (written: seq<string>, ok: bool)
    ensures PackedInto(docs, limit, written)
    ensures ok <==> docs != []
  {
    var s := new Splitter(limit);
    for k := 0 to |docs|
      invariant s.Holds(docs[..k]) && s.limit == limit
    {
      assert docs[..k + 1] == docs[..k] + [docs[k]];
      s.Add(docs[k], docs[..k]);
    }
    assert docs[..|docs|] == docs;
    s.Flush();
    written := s.written;
    assert IsPacking(docs, s.parts, limit) && Written(written, s.parts);
    ok := written != [];
  }

  /** split-rendered.py: the documents of the text, packed to the same specification; none is an error. */
  method SplitRendered(text: string, limit: nat) returns (written: seq<string>, ok: bool)
    ensures PackedInto(RenderedDocs(text), limit, written)
    ensures ok <==> RenderedDocs(text) != []
  {
    var docs := FindDocs(text);
    written, ok := SplitDocs(docs, limit);
  }

  /** A file of several documents is shorter than the limit that was charged for it. */
  lemma {:induction false} JoinLength(part: seq<string>)
    requires part != []
    ensures |FileText(part)| + 4 == Size(part)
    decreases |part|
  {
    if |part| > 1 {
      JoinLength(part[1..]);
      SizeCons(part);
    }
  }

  lemma {:induction false} SizeCons(part: seq<string>)
    requires part != []
    ensures Size(part) == |part[0]| + 5 + Size(part[1..])
    decreases |part|
  {
    if |part| > 1 {
      SizeCons(part[..|part| - 1]);
      assert part[..|part| - 1][1..] == part[1..][..|part| - 2];
    }
  }

  // ----- File names -----

  /** `f"{index:03d}.yaml"` */
  function FileName(i: nat): string {
    (if i < 1000 then [Digit(i / 100), Digit(i / 10 % 10), Digit(i % 10)] else Decimal(i)) + ".yaml"
  }

  function FileNames(n: nat): (names: seq<string>)
    ensures |names| == n && forall i :: 0 <= i < n ==> names[i] == FileName(i)
  {
    seq(n, i requires 0 <= i < n => FileName(i))
  }

  /** A name is its index in decimal, filled up to three digits, and the ending. */
  lemma NameReadsItsIndex(i: nat)
    ensures var name := FileName(i);
      var stem := name[..|name| - 5];
      && |name| >= 8 && name[|name| - 5..] == ".yaml" && (i < 1000 ==> |name| == 8)
      && AllDigits(stem) && DecimalValue(stem) == i
  {
    var name := FileName(i);
    var stem := name[..|name| - 5];
    if i < 1000 {
      assert stem == [Digit(i / 100), Digit(i / 10 % 10), Digit(i % 10)];
      assert stem[..2] == [Digit(i / 100), Digit(i / 10 % 10)] && stem[..2][..1] == [Digit(i / 100)];
      assert stem[..2][..1][..0] == [];
      assert DecimalValue(stem[..2][..1]) == i / 100;
      assert DecimalValue(stem[..2]) == i / 100 * 10 + i / 10 % 10 == i / 10;
    } else {
      FourDigits(i);
      assert stem == Decimal(i);
      DecimalRoundTrip(i);
    }
  }

  lemma LessByHead(c: char, a: string, d: char, b: string)
    ensures Less([c] + a, [d] + b) <==> c < d || (c == d && Less(a, b))
  {
    assert ([c] + a)[1..] == a && ([d] + b)[1..] == b;
  }

  lemma DigitOrder(i: nat, j: nat)
    requires i < j < 1000
    ensures i / 100 < j / 100 || (i / 100 == j / 100 &&
      (i / 10 % 10 < j / 10 % 10 || (i / 10 % 10 == j / 10 % 10 && i % 10 < j % 10)))
  {
    assert i == 100 * (i / 100) + 10 * (i / 10 % 10) + i % 10;
    assert j == 100 * (j / 100) + 10 * (j / 10 % 10) + j % 10;
  }

  function ThreeDigits(a: nat, b: nat, c: nat): string
    requires a < 10 && b < 10 && c < 10
  {
    [Digit(a)] + ([Digit(b)] + ([Digit(c)] + ".yaml"))
  }

  lemma DigitsAscend(a: nat, b: nat, c: nat, d: nat, e: nat, f: nat)
    requires a < 10 && b < 10 && c < 10 && d < 10 && e < 10 && f < 10
    requires a < d || (a == d && (b < e || (b == e && c < f)))
    ensures Less(ThreeDigits(a, b, c), ThreeDigits(d, e, f))
  {
    LessByHead(Digit(a), [Digit(b)] + ([Digit(c)] + ".yaml"), Digit(d), [Digit(e)] + ([Digit(f)] + ".yaml"));
    LessByHead(Digit(b), [Digit(c)] + ".yaml", Digit(e), [Digit(f)] + ".yaml");
    LessByHead(Digit(c), ".yaml", Digit(f), ".yaml");
  }

  lemma ThreeDigitsAscend(i: nat, j: nat)
    requires i < j < 1000
    ensures Less(FileName(i), FileName(j))
  {
    DigitOrder(i, j);
    assert FileName(i) == ThreeDigits(i / 100, i / 10 % 10, i % 10);
    assert FileName(j) == ThreeDigits(j / 100, j / 10 % 10, j % 10);
    DigitsAscend(i / 100, i / 10 % 10, i % 10, j / 100, j / 10 % 10, j % 10);
  }

  lemma FourDigitsComeTooEarly()
    ensures Less(FileName(1000), FileName(101))
  {
    var y := ".yaml";
    assert Decimal(1000) == "1000" by {
      assert Decimal(1) == "1" && Decimal(10) == "10" && Decimal(100) == "100";
    }
    assert FileName(1000) == ['1'] + (['0'] + (['0'] + ("0" + y)));
    assert FileName(101) == ['1'] + (['0'] + (['1'] + y));
    LessByHead('1', ['0'] + (['0'] + ("0" + y)), '1', ['0'] + (['1'] + y));
    LessByHead('0', ['0'] + ("0" + y), '0', ['1'] + y);
    LessByHead('0', "0" + y, '1', y);
  }

  /** Sorting by name is sorting by index exactly up to a thousand parts. */
  lemma NamesSortByIndexExactly(n: nat)
    ensures Ascending(FileNames(n)) <==> n <= 1000
  {
    if n <= 1000 {
      forall i, j | 0 <= i < j < n ensures Less(FileNames(n)[i], FileNames(n)[j]) {
        ThreeDigitsAscend(i, j);
      }
    } else {
      FourDigitsComeTooEarly();
      LessIsAsymmetric(FileName(1000), FileName(101));
      assert FileNames(n)[101] == FileName(101) && FileNames(n)[1000] == FileName(1000);
    }
  }

  /** A set of names has only one sorted listing. */
  lemma {:induction false} SortedListingIsUnique(a: seq<string>, b: seq<string>)
    requires Ascending(a) && Ascending(b) && forall s :: s in a <==> s in b
    ensures a == b
    decreases |a|
  {
    NonEmptyHasHead(a);
    NonEmptyHasHead(b);
    if a != [] {
      SameLeast(a, b);
      var x, y := a[1..], b[1..];
      forall s ensures s in x <==> s in y {
        TailMembers(a, s);
        TailMembers(b, s);
      }
      SortedListingIsUnique(x, y);
      assert a == [a[0]] + x && b == [b[0]] + y;
    }
  }

  lemma NonEmptyHasHead(a: seq<string>)
    ensures a == [] <==> forall s :: s !in a
  {
    if a != [] {
      assert a[0] in a;
    }
  }

  lemma SameLeast(a: seq<string>, b: seq<string>)
    requires Ascending(a) && Ascending(b) && a != [] && b != [] && a[0] in b && b[0] in a
    ensures a[0] == b[0]
  {
    var i :| 0 <= i < |a| && a[i] == b[0];
    var j :| 0 <= j < |b| && b[j] == a[0];
    if i > 0 {
      LessIsAsymmetric(a[0], a[i]);
    }
  }

  lemma TailMembers(a: seq<string>, s: string)
    requires Ascending(a) && a != []
    ensures s in a[1..] <==> s in a && s != a[0]
  {
    if s in a[1..] {
      var k :| 0 <= k < |a[1..]| && a[1..][k] == s;
      LessIsAsymmetric(a[0], a[k + 1]);
    }
  }

  // ----- Reading the directory back -----

  /** The `files/` directory: one file per part, under its index's name. */
  predicate Holds(dir: map<string, string>, files: seq<string>) {
    && (forall i :: 0 <= i < |files| ==> FileName(i) in dir && dir[FileName(i)] == files[i])
    && (forall s :: s in dir ==> s in FileNames(|files|))
  }

  /** `documents`: every file in the order `sorted(os.listdir(...))` gives. */
  function ReadAll(dir: map<string, string>, order: seq<string>): seq<string>
    requires forall i :: 0 <= i < |order| ==> order[i] in dir
  {
    if order == [] then []
    else ReadAll(dir, order[..|order| - 1]) + ReadFile(dir[order[|order| - 1]])
  }

  lemma AllCleanConcat(a: seq<string>, b: seq<string>)
    ensures AllClean(a + b) <==> AllClean(a) && AllClean(b)
  {
    assert forall i :: 0 <= i < |a| ==> (a + b)[i] == a[i];
    assert forall i :: 0 <= i < |b| ==> (a + b)[|a| + i] == b[i];
  }

  lemma {:induction false} ReadsBackParts(dir: map<string, string>, names: seq<string>, parts: seq<seq<string>>)
    requires |names| == |parts|
    requires forall i :: 0 <= i < |names| ==> names[i] in dir
    requires forall i :: 0 <= i < |names| ==> parts[i] != [] && dir[names[i]] == FileText(parts[i])
    ensures AllClean(ReadAll(dir, names))
    ensures AllClean(Flatten(parts)) ==> ReadAll(dir, names) == Flatten(parts)
    decreases |names|
  {
    if names != [] {
      var n := |names| - 1;
      ReadsBackParts(dir, names[..n], parts[..n]);
      ReadsBackOneMore(ReadAll(dir, names[..n]), Flatten(parts[..n]), parts[n]);
      ReadAllLast(dir, names);
      assert dir[names[n]] == FileText(parts[n]);
    }
  }

  lemma ReadAllLast(dir: map<string, string>, names: seq<string>)
    requires names != [] && forall i :: 0 <= i < |names| ==> names[i] in dir
    ensures ReadAll(dir, names) == ReadAll(dir, names[..|names| - 1]) + ReadFile(dir[names[|names| - 1]])
  {
  }

  lemma ReadsBackOneMore(read: seq<string>, front: seq<string>, last: seq<string>)
    requires last != [] && AllClean(read) && (AllClean(front) ==> read == front)
    ensures AllClean(read + ReadFile(FileText(last)))
    ensures AllClean(front + last) ==> read + ReadFile(FileText(last)) == front + last
  {
    ReadsAreClean(FileText(last));
    AllCleanConcat(read, ReadFile(FileText(last)));
    AllCleanConcat(front, last);
    if AllClean(last) {
      ReadsBackPart(last);
    }
  }

  /**
  Pack/read round trip, in both directions: for any packing into at most a thousand parts, reading
  the directory in name order returns the documents exactly when every one of them is clean.
  */
  lemma PackReadRoundTrip(
      docs: seq<string>, limit: nat, files: seq<string>, dir: map<string, string>, order: seq<string>)
    requires PackedInto(docs, limit, files) && |files| <= 1000
    requires Holds(dir, files)
    requires Ascending(order) && forall s :: s in order <==> s in dir
    ensures ReadAll(dir, order) == docs <==> AllClean(docs)
  {
    ListingIsByIndex(files, dir, order);
    var parts :| IsPacking(docs, parts, limit) && Written(files, parts);
    forall i | 0 <= i < |order| ensures parts[i] != [] && dir[order[i]] == FileText(parts[i]) {
      assert order[i] == FileName(i);
    }
    ReadsBackParts(dir, order, parts);
  }

  /** Up to a thousand parts, the sorted directory lists them by index. */
  lemma ListingIsByIndex(files: seq<string>, dir: map<string, string>, order: seq<string>)
    requires |files| <= 1000 && Holds(dir, files)
    requires Ascending(order) && forall s :: s in order <==> s in dir
    ensures order == FileNames(|files|)
  {
    var names := FileNames(|files|);
    NamesSortByIndexExactly(|files|);
    forall s ensures s in order <==> s in names {
      assert s in names ==> exists i :: 0 <= i < |files| && s == FileName(i);
    }
    SortedListingIsUnique(order, names);
  }

  /** No file that holds more than one document exceeds the limit. */
  lemma SharedFilesFitTheLimit(docs: seq<string>, parts: seq<seq<string>>, limit: nat, i: nat)
    requires IsPacking(docs, parts, limit) && i < |parts| && |parts[i]| > 1
    ensures |FileText(parts[i])| <= limit
  {
    JoinLength(parts[i]);
  }

  // ----- More than a thousand parts, and a carriage return -----

  lemma {:induction false} InFlatten(parts: seq<seq<string>>, a: nat, d: string)
    requires a < |parts| && d in parts[a]
    ensures d in Flatten(parts)
    decreases |parts|
  {
    if a < |parts| - 1 {
      InFlatten(parts[..|parts| - 1], a, d);
    }
  }

  /** A document of two parts is there twice. */
  lemma {:induction false} SharedIsRepeated(parts: seq<seq<string>>, a: nat, b: nat, d: string)
    requires a < b < |parts| && d in parts[a] && d in parts[b]
    ensures !NoRepeats(Flatten(parts))
    decreases |parts|
  {
    var front, last := parts[..|parts| - 1], parts[|parts| - 1];
    var n := |Flatten(front)|;
    assert Flatten(parts) == Flatten(front) + last;
    if b == |parts| - 1 {
      InFlatten(front, a, d);
      var i :| 0 <= i < n && Flatten(front)[i] == d;
      var j :| 0 <= j < |last| && last[j] == d;
      assert Flatten(parts)[i] == d && Flatten(parts)[n + j] == d;
    } else {
      assert forall i :: 0 <= i < n ==> Flatten(parts)[i] == Flatten(front)[i];
      SharedIsRepeated(front, a, b, d);
    }
  }

  lemma SamePart(parts: seq<seq<string>>, a: nat, b: nat, d: string)
    requires NoRepeats(Flatten(parts)) && a < |parts| && b < |parts| && d in parts[a] && d in parts[b]
    ensures a == b
  {
    if a < b {
      SharedIsRepeated(parts, a, b, d);
    } else if b < a {
      SharedIsRepeated(parts, b, a, d);
    }
  }

  /** The parts that these positions name. */
  function Listed(parts: seq<seq<string>>, positions: seq<nat>): seq<seq<string>>
    requires forall j :: 0 <= j < |positions| ==> positions[j] < |parts|
  {
    seq(|positions|, j requires 0 <= j < |positions| => parts[positions[j]])
  }

  predicate IsFront(positions: seq<nat>, n: nat) {
    |positions| == n && forall j :: 0 <= j < n ==> positions[j] == j
  }

  lemma FlattenEnds(parts: seq<seq<string>>)
    requires parts != [] && parts[|parts| - 1] != []
    ensures var last, all := parts[|parts| - 1], Flatten(parts);
      && |all| >= |last| && all[|all| - 1] == last[|last| - 1]
      && Flatten(parts[..|parts| - 1]) == all[..|all| - |last|]
  {
  }

  ghost predicate AllFilled(parts: seq<seq<string>>) {
    forall i :: 0 <= i < |parts| ==> parts[i] != []
  }

  lemma FilledIsSomething(parts: seq<seq<string>>)
    requires AllFilled(parts)
    ensures Flatten(parts) == [] <==> parts == []
  {
    if parts != [] {
      FlattenEnds(parts);
    }
  }

  predicate EndsFilled(parts: seq<seq<string>>) {
    parts != [] && parts[|parts| - 1] != []
  }

  /** Parts that flatten to the same end in the same document. */
  lemma SameEnd(a: seq<seq<string>>, b: seq<seq<string>>)
    requires EndsFilled(a) && EndsFilled(b) && Flatten(a) == Flatten(b)
    ensures a[|a| - 1][|a[|a| - 1]| - 1] == b[|b| - 1][|b[|b| - 1]| - 1]
  {
    FlattenEnds(a);
    FlattenEnds(b);
  }

  lemma SameFront(a: seq<seq<string>>, b: seq<seq<string>>)
    requires EndsFilled(a) && EndsFilled(b) && Flatten(a) == Flatten(b) && a[|a| - 1] == b[|b| - 1]
    ensures Flatten(a[..|a| - 1]) == Flatten(b[..|b| - 1])
  {
    FlattenEnds(a);
    FlattenEnds(b);
  }

  /** Where they are parts of the same documents, they end in the same part. */
  lemma LastAgrees(parts: seq<seq<string>>, n: nat, listed: seq<seq<string>>, a: nat)
    requires NoRepeats(Flatten(parts)) && 0 < n <= |parts| && a < |parts| && AllFilled(parts)
    requires listed != [] && listed[|listed| - 1] == parts[a]
    requires Flatten(listed) == Flatten(parts[..n])
    ensures a == n - 1 && Flatten(listed[..|listed| - 1]) == Flatten(parts[..n - 1])
  {
    var front, p := parts[..n], parts[n - 1];
    assert front[n - 1] == p && front[..n - 1] == parts[..n - 1];
    SameEnd(front, listed);
    SamePart(parts, n - 1, a, p[|p| - 1]);
    SameFront(front, listed);
  }

  /** Without repeats, only the parts in their own order are the documents. */
  lemma {:induction false} OrderShows(parts: seq<seq<string>>, n: nat, positions: seq<nat>)
    requires NoRepeats(Flatten(parts)) && n <= |parts| && AllFilled(parts)
    requires forall j :: 0 <= j < |positions| ==> positions[j] < |parts|
    requires Flatten(Listed(parts, positions)) == Flatten(parts[..n])
    ensures IsFront(positions, n)
    decreases n
  {
    var listed, m := Listed(parts, positions), |positions| - 1;
    FilledIsSomething(listed);
    FilledIsSomething(parts[..n]);
    if n > 0 {
      LastAgrees(parts, n, listed, positions[m]);
      assert listed[..m] == Listed(parts, positions[..m]);
      OrderShows(parts, n - 1, positions[..m]);
    }
  }

  lemma CleanMember(docs: seq<string>, d: string)
    requires AllClean(docs) && d in docs
    ensures Clean(d)
  {
  }

  lemma CleanParts(parts: seq<seq<string>>, a: nat)
    requires AllClean(Flatten(parts)) && a < |parts|
    ensures AllClean(parts[a])
  {
    var docs, part := Flatten(parts), parts[a];
    forall i | 0 <= i < |part| ensures Clean(part[i]) {
      InFlatten(parts, a, part[i]);
      CleanMember(docs, part[i]);
    }
  }

  lemma {:induction false} FlattenIsClean(parts: seq<seq<string>>)
    requires forall a :: 0 <= a < |parts| ==> AllClean(parts[a])
    ensures AllClean(Flatten(parts))
  {
    if parts != [] {
      var n := |parts| - 1;
      FlattenIsClean(parts[..n]);
      AllCleanConcat(Flatten(parts[..n]), parts[n]);
    }
  }

  /** In whatever order files are listed, what is read is clean, and clean parts come back in that order. */
  lemma ReadsBackListed(
      parts: seq<seq<string>>, files: seq<string>, dir: map<string, string>, order: seq<string>, positions: seq<nat>)
    requires Written(files, parts) && Holds(dir, files) && AllFilled(parts)
    requires |positions| == |order|
    requires forall j :: 0 <= j < |order| ==> positions[j] < |parts| && order[j] == FileName(positions[j])
    ensures forall j :: 0 <= j < |order| ==> order[j] in dir
    ensures AllClean(ReadAll(dir, order))
    ensures AllClean(Flatten(parts)) ==> ReadAll(dir, order) == Flatten(Listed(parts, positions))
  {
    var listed := Listed(parts, positions);
    forall j | 0 <= j < |order| ensures order[j] in dir && listed[j] != [] && dir[order[j]] == FileText(listed[j]) {
    }
    ReadsBackParts(dir, order, listed);
    if AllClean(Flatten(parts)) {
      forall j | 0 <= j < |listed| ensures AllClean(listed[j]) {
        CleanParts(parts, positions[j]);
      }
      FlattenIsClean(listed);
    }
  }

  lemma PositionOf(files: seq<string>, dir: map<string, string>, name: string) returns (i: nat)
    requires Holds(dir, files) && name in dir
    ensures i < |files| && name == FileName(i)
  {
    assert name in FileNames(|files|);
    i :| 0 <= i < |files| && FileNames(|files|)[i] == name;
  }

  lemma {:induction false} Positions(files: seq<string>, dir: map<string, string>, order: seq<string>)
    returns (positions: seq<nat>)
    requires Holds(dir, files) && forall j :: 0 <= j < |order| ==> order[j] in dir
    ensures |positions| == |order|
    ensures forall j :: 0 <= j < |order| ==> positions[j] < |files| && order[j] == FileName(positions[j])
  {
    positions := [];
    if order != [] {
      var n := |order| - 1;
      var front := Positions(files, dir, order[..n]);
      var last := PositionOf(files, dir, order[n]);
      positions := front + [last];
    }
  }

  /** Only clean documents come back, and only from a listing by index. */
  lemma OnlyByIndex(parts: seq<seq<string>>, files: seq<string>, dir: map<string, string>, order: seq<string>)
    requires Written(files, parts) && NoRepeats(Flatten(parts)) && Holds(dir, files) && AllFilled(parts)
    requires forall j :: 0 <= j < |order| ==> order[j] in dir
    ensures ReadAll(dir, order) == Flatten(parts) ==> AllClean(Flatten(parts)) && order == FileNames(|files|)
  {
    var positions := Positions(files, dir, order);
    ReadsBackListed(parts, files, dir, order, positions);
    if ReadAll(dir, order) == Flatten(parts) {
      assert parts[..|parts|] == parts;
      OrderShows(parts, |parts|, positions);
    }
  }

  lemma NotByIndex(order: seq<string>, n: nat)
    requires Ascending(order) && n > 1000
    ensures order != FileNames(n)
  {
    NamesSortByIndexExactly(n);
  }

  lemma TooManyParts(docs: seq<string>, limit: nat, files: seq<string>, dir: map<string, string>, order: seq<string>)
    requires PackedInto(docs, limit, files) && NoRepeats(docs) && Holds(dir, files) && |files| > 1000
    requires Ascending(order) && forall j :: 0 <= j < |order| ==> order[j] in dir
    ensures ReadAll(dir, order) != docs
  {
    var parts :| IsPacking(docs, parts, limit) && Written(files, parts);
    OnlyByIndex(parts, files, dir, order);
    NotByIndex(order, |files|);
  }

  /**
  Pack/read round trip for any number of parts: documents without repeats come back from the directory,
  read in name order, if and only if each is clean and they take at most a thousand parts.
  */
  lemma RoundTripExactly(
      docs: seq<string>, limit: nat, files: seq<string>, dir: map<string, string>, order: seq<string>)
    requires PackedInto(docs, limit, files) && NoRepeats(docs) && Holds(dir, files)
    requires Ascending(order) && forall s :: s in order <==> s in dir
    ensures ReadAll(dir, order) == docs <==> AllClean(docs) && |files| <= 1000
  {
    if |files| <= 1000 {
      PackReadRoundTrip(docs, limit, files, dir, order);
    } else {
      TooManyParts(docs, limit, files, dir, order);
    }
  }

  lemma FourDigits(j: nat)
    requires j >= 1000
    ensures |Decimal(j)| >= 4
  {
    assert |Decimal(j / 1000)| >= 1;
    assert j / 10 / 10 == j / 100 && j / 10 / 10 / 10 == j / 1000;
    assert |Decimal(j / 10 / 10)| >= 2 && |Decimal(j / 10)| >= 3;
  }

  lemma NamesDiffer(i: nat, j: nat)
    requires i < j
    ensures FileName(i) != FileName(j)
  {
    if j < 1000 {
      ThreeDigitsAscend(i, j);
      LessIsAsymmetric(FileName(i), FileName(j));
    } else if i < 1000 {
      FourDigits(j);
    } else {
      DecimalRoundTrip(i);
      DecimalRoundTrip(j);
      assert FileName(i)[..|FileName(i)| - 5] == Decimal(i) && FileName(j)[..|FileName(j)| - 5] == Decimal(j);
    }
  }

  /** The directory `_flush` leaves. */
  method WriteDirectory(files: seq<string>) returns (dir: map<string, string>)
    ensures Holds(dir, files)
  {
    dir := map[];
    for k := 0 to |files|
      invariant Holds(dir, files[..k])
    {
      forall i | 0 <= i < k ensures FileName(i) != FileName(k) {
        NamesDiffer(i, k);
      }
      ghost var before := dir;
      dir := dir[FileName(k) := files[k]];
      forall s | s in dir ensures s in FileNames(k + 1) {
        if s != FileName(k) {
          var i := PositionOf(files[..k], before, s);
          assert FileNames(k + 1)[i] == s;
        } else {
          assert FileNames(k + 1)[k] == s;
        }
      }
      assert |files[..k + 1]| == k + 1 && files[..k + 1][..k] == files[..k];
    }
    assert files[..|files|] == files;
  }

  lemma {:induction false} NoDashNoSep(t: string)
    requires '-' !in t
    ensures NoSep(t)
  {
    if t != "" {
      NoDashNoSep(t[1..]);
      SepHoldsDash(t);
    }
  }

  lemma SepHoldsDash(t: string)
    ensures StartsWith(t, SEP) ==> '-' in t
  {
    if StartsWith(t, SEP) {
      assert t[1] == t[..5][1] == '-';
    }
  }

  lemma NumberIsClean(n: nat)
    ensures Clean(Decimal(n))
  {
    assert IsDigit(Decimal(n)[0]) && !IsPythonSpace(Decimal(n)[0]);
    NoDashNoSep(Decimal(n) + "\n");
  }

  lemma {:induction false} SingleDocuments(parts: seq<seq<string>>)
    requires forall i :: 0 <= i < |parts| ==> |parts[i]| == 1
    ensures |Flatten(parts)| == |parts|
  {
    if parts != [] {
      SingleDocuments(parts[..|parts| - 1]);
    }
  }

  lemma NoRoom(docs: seq<string>, files: seq<string>)
    requires PackedInto(docs, 0, files)
    ensures |files| == |docs|
  {
    var parts :| IsPacking(docs, parts, 0) && Written(files, parts);
    forall i | 0 <= i < |parts| ensures |parts[i]| == 1 {
      JoinLength(parts[i]);
    }
    SingleDocuments(parts);
  }

  /** A thousand and one documents, one to a file: they come back in another order. */
  method ThousandAndOneAreMisread()
    returns (docs: seq<string>, files: seq<string>, dir: map<string, string>, order: seq<string>)
    ensures AllClean(docs) && |files| == 1001 && PackedInto(docs, 0, files) && Holds(dir, files)
    ensures Ascending(order) && forall s :: s in order <==> s in dir
    ensures ReadAll(dir, order) != docs
  {
    docs := seq(1001, i requires 0 <= i < 1001 => Decimal(i));
    forall i | 0 <= i < 1001 ensures Clean(docs[i]) && DecimalValue(docs[i]) == i {
      NumberIsClean(i);
      DecimalRoundTrip(i);
    }
    files := WriteDocs(docs, 0);
    NoRoom(docs, files);
    dir := WriteDirectory(files);
    order := ListSorted(files, dir);
    RoundTripExactly(docs, 0, files, dir, order);
  }

  /** `sorted(os.listdir(...))` */
  method ListSorted(files: seq<string>, dir: map<string, string>) returns (order: seq<string>)
    requires Holds(dir, files)
    ensures Ascending(order) && forall s :: s in order <==> s in dir
  {
    var names := FileNames(|files|);
    forall i, j | 0 <= i < j < |names| ensures names[i] != names[j] {
      NamesDiffer(i, j);
    }
    NotAfterIsPreorder();
    order := Sort(names, NotAfter);
    PermutedHasNoRepeats(names, order);
    SortedOnceAscends(order);
    forall s ensures s in order <==> s in dir {
      SameMembers(names, order, s);
      assert s in names ==> exists i :: 0 <= i < |files| && s == FileName(i);
    }
  }

  /** A carriage return comes back as a newline. */
  lemma ReturnIsLost(dir: map<string, string>, order: seq<string>)
    requires Holds(dir, [FileText(["a\rb"])]) && Ascending(order) && forall s :: s in order <==> s in dir
    ensures PackedInto(["a\rb"], 0, [FileText(["a\rb"])]) && ReadAll(dir, order) != ["a\rb"]
    ensures ReadFile(FileText(["a\rb"])) == ["a\nb"]
  {
    var d := "a\rb";
    var docs, files, parts := [d], [FileText([d])], [[d]];
    assert parts[..0] == [] && Flatten(parts[..0]) == [] && Flatten(parts) == [] + [d] == docs;
    assert IsPacking(docs, parts, 0) && Written(files, parts);
    assert '\r' in d && !Clean(d);
    PackReadRoundTrip(docs, 0, files, dir, order);
    ReturnReadsAsNewline(d);
  }

  lemma ReturnReadsAsNewline(d: string)
    requires d == "a\rb"
    ensures ReadFile(FileText([d])) == ["a\nb"]
  {
    assert FileText([d]) == "a\rb\n";
    assert TextMode("a\rb\n") == "a\nb\n" by {
      assert "a\rb\n"[1..] == "\rb\n" && "\rb\n"[1..] == "b\n" && "b\n"[1..] == "\n" && "\n"[1..] == "";
      assert TextMode("\n") == "\n" && TextMode("b\n") == "b\n" && TextMode("\rb\n") == "\nb\n";
    }
    assert '-' !in "a\nb\n";
    NoDashNoSep("a\nb\n");
    SplitWithoutSep("a\nb\n");
    assert !IsPythonSpace('a') && !Blank("a\nb\n");
    assert StripRight("a\nb\n") == "a\nb" by {
      assert "a\nb\n"[..3] == "a\nb";
    }
  }
}
