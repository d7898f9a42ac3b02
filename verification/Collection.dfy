/**
One evidence collection run over an effective allowlist, and what its payload can reveal.
*/
module Collection {
  import opened Options
  import opened Allowlists

  type Fields = map<string, string>

  datatype Outcome<T> = Failed(reason: string) | Got(value: T)

  /** One line of a component's metrics: its name, its labels in order and its value. */
  datatype Sample = Sample(metric: string, labels: seq<(string, string)>, value: string)

  /** A metrics body: the samples that could be scanned, and the error that ended the scan early, if any. */
  datatype Body = Body(samples: seq<Sample>, scanError: Option<string>)

  /** How a collector reaches its source. An artefact is read as its `key: value` lines, in order. */
  datatype Reader = Reader(
    metrics: (string, string, int) -> Outcome<Body>,
    artefact: string -> Outcome<seq<(string, string)>>)

  datatype Record = Record(collector: string, fields: Fields)

  datatype Payload = Payload(cluster: string, collected: string, records: seq<Record>, skipped: map<string, string>)

  // ----- Projection -----

  /** The emitted part of an observation. */
  function Emitted(emit: seq<string>, o: Fields): Fields {
    map f | f in emit && f in o :: o[f]
  }

  method Project(c: Collector, o: Fields) returns (out: Fields)
    ensures out == Emitted(c.emit, o)
  {
    out := map[];
    for i := 0 to |c.emit|
      invariant out == Emitted(c.emit[..i], o)
    {
      assert c.emit[..i + 1] == c.emit[..i] + [c.emit[i]];
      if c.emit[i] in o {
        out := out[c.emit[i] := o[c.emit[i]]];
      }
    }
    assert c.emit[..|c.emit|] == c.emit;
  }

  // ----- Observations -----

  /** Later labels win over earlier ones of the same name. */
  function Labelled(labels: seq<(string, string)>): Fields {
    if labels == [] then map[]
    else
      var (k, v) := labels[|labels| - 1];
      Labelled(labels[..|labels| - 1])[k := v]
  }

  /** The sample's number is addressable as `value` and under the query's own name. */
  function SampleFields(query: string, s: Sample): Fields {
    Labelled(s.labels)["value" := s.value][query := s.value]
  }

  function Matching(query: string, samples: seq<Sample>): seq<Fields> {
    if samples == [] then []
    else
      var rest, s := Matching(query, samples[..|samples| - 1]), samples[|samples| - 1];
      if s.metric == query then rest + [SampleFields(query, s)] else rest
  }

  /** How many of the samples are of the query's name. */
  function MatchCount(query: string, samples: seq<Sample>): nat {
    if samples == [] then 0
    else MatchCount(query, samples[..|samples| - 1]) + if samples[|samples| - 1].metric == query then 1 else 0
  }

  /** One observation per sample of exactly that name, each in its place. */
  lemma {:induction false} MatchingIsExact(query: string, samples: seq<Sample>, i: nat)
    requires i < |samples|
    ensures |Matching(query, samples)| == MatchCount(query, samples)
    ensures samples[i].metric == query ==>
      MatchCount(query, samples[..i]) < |Matching(query, samples)|
      && Matching(query, samples)[MatchCount(query, samples[..i])] == SampleFields(query, samples[i])
    decreases |samples|
  {
    var n := |samples| - 1;
    MatchingLength(query, samples[..n]);
    if i < n {
      MatchingIsExact(query, samples[..n], i);
      assert samples[..n][..i] == samples[..i];
    }
  }

  lemma {:induction false} MatchingLength(query: string, samples: seq<Sample>)
    ensures |Matching(query, samples)| == MatchCount(query, samples)
  {
    if samples != [] {
      MatchingLength(query, samples[..|samples| - 1]);
    }
  }

  /** And every observation is of such a sample. */
  lemma {:induction false} MatchingComesFrom(query: string, samples: seq<Sample>, k: nat)
    requires k < |Matching(query, samples)|
    ensures exists i ::
      && 0 <= i < |samples| && samples[i].metric == query
      && Matching(query, samples)[k] == SampleFields(query, samples[i])
    decreases |samples|
  {
    var n := |samples| - 1;
    if k < |Matching(query, samples[..n])| {
      MatchingComesFrom(query, samples[..n], k);
      var i :| 0 <= i < n && samples[..n][i].metric == query
        && Matching(query, samples[..n])[k] == SampleFields(query, samples[..n][i]);
      assert samples[i] == samples[..n][i];
    } else {
      assert samples[n].metric == query;
    }
  }

  /** The value of the last label of a name. */
  function LastLabel(labels: seq<(string, string)>, f: string): Option<string> {
    if labels == [] then None
    else if labels[|labels| - 1].0 == f then Some(labels[|labels| - 1].1)
    else LastLabel(labels[..|labels| - 1], f)
  }

  function Field(o: Fields, f: string): Option<string> {
    if f in o then Some(o[f]) else None
  }

  /** What a sample says under a name: its number under two, otherwise its last label. */
  function Reported(query: string, s: Sample, f: string): Option<string> {
    if f == "value" || f == query then Some(s.value) else LastLabel(s.labels, f)
  }

  lemma {:induction false} LabelledIsLast(labels: seq<(string, string)>, f: string)
    ensures Field(Labelled(labels), f) == LastLabel(labels, f)
  {
    if labels != [] {
      LabelledIsLast(labels[..|labels| - 1], f);
    }
  }

  lemma SampleFieldsReport(query: string, s: Sample, f: string)
    ensures Field(SampleFields(query, s), f) == Reported(query, s, f)
  {
    LabelledIsLast(s.labels, f);
  }

  method CollectMetrics(r: Reader, c: Collector) returns (o: Outcome<seq<Fields>>)
    requires c.source.kind == METRICS
    ensures o == Observe(r, c)
  {
    var body := r.metrics(c.source.ns, c.source.service, c.source.port);
    if body.Failed? {
      return Failed(body.reason);
    }
    var out: seq<Fields> := [];
    var samples := body.value.samples;
    for i := 0 to |samples|
      invariant out == Matching(c.source.query, samples[..i])
    {
      var s := samples[i];
      assert samples[..i + 1][..i] == samples[..i];
      if s.metric == c.source.query {
        var observed: Fields := map[];
        for j := 0 to |s.labels|
          invariant observed == Labelled(s.labels[..j])
        {
          assert s.labels[..j + 1][..j] == s.labels[..j];
          observed := observed[s.labels[j].0 := s.labels[j].1];
        }
        assert s.labels[..|s.labels|] == s.labels;
        observed := observed["value" := s.value];
        observed := observed[c.source.query := s.value];
        out := out + [observed];
      }
    }
    assert samples[..|samples|] == samples;
    o := if body.value.scanError.Some? then Failed(body.value.scanError.value) else Got(out);
  }

  /** Fields of the schema only, and the first occurrence of each. */
  function FirstSeen(schema: seq<string>, lines: seq<(string, string)>): Fields {
    if lines == [] then map[]
    else
      var rest, (k, v) := FirstSeen(schema, lines[..|lines| - 1]), lines[|lines| - 1];
      if k in schema && k !in rest then rest[k := v] else rest
  }

  method CollectArtefact(r: Reader, c: Collector) returns (o: Outcome<seq<Fields>>)
    requires c.source.kind == ARTEFACT
    ensures o == Observe(r, c)
  {
    var lines := r.artefact(c.source.path);
    if lines.Failed? {
      return Failed(lines.reason);
    }
    var want := set f | f in c.schema;
    var observed: Fields := map[];
    for i := 0 to |lines.value|
      invariant observed == FirstSeen(c.schema, lines.value[..i])
    {
      var (k, v) := lines.value[i];
      assert lines.value[..i + 1][..i] == lines.value[..i];
      if k in want && k !in observed {
        observed := observed[k := v];
      }
    }
    assert lines.value[..|lines.value|] == lines.value;
    o := Got(if observed == map[] then [] else [observed]);
  }

  /** What a collector observes; the emit set has no part in it. */
  function Observe(r: Reader, c: Collector): Outcome<seq<Fields>> {
    if c.source.kind == METRICS then
      var body := r.metrics(c.source.ns, c.source.service, c.source.port);
      if body.Failed? then Failed(body.reason)
      else if body.value.scanError.Some? then Failed(body.value.scanError.value)
      else Got(Matching(c.source.query, body.value.samples))
    else if c.source.kind == ARTEFACT then
      var lines := r.artefact(c.source.path);
      if lines.Failed? then Failed(lines.reason)
      else
        var observed := FirstSeen(c.schema, lines.value);
        Got(if observed == map[] then [] else [observed])
    else Failed("unimplemented source kind \"" + c.source.kind + "\"")
  }

  /** An artefact yields exactly the schema's fields that occur in it. */
  lemma {:induction false} ArtefactIsBoundedBySchema(schema: seq<string>, lines: seq<(string, string)>, f: string)
    ensures f in FirstSeen(schema, lines) <==> f in schema && exists i :: 0 <= i < |lines| && lines[i].0 == f
  {
    if lines != [] {
      var init := lines[..|lines| - 1];
      ArtefactIsBoundedBySchema(schema, init, f);
      assert lines == init + [lines[|lines| - 1]];
    }
  }

  /** The value is that of the first line carrying the field: changing anything after it changes nothing. */
  lemma {:induction false} FirstOccurrenceWins(schema: seq<string>, lines: seq<(string, string)>, i: nat)
    requires i < |lines| && lines[i].0 in schema
    requires forall j :: 0 <= j < i ==> lines[j].0 != lines[i].0
    ensures lines[i].0 in FirstSeen(schema, lines) && FirstSeen(schema, lines)[lines[i].0] == lines[i].1
  {
    var init := lines[..|lines| - 1];
    if i < |init| {
      FirstOccurrenceWins(schema, init, i);
    } else {
      ArtefactIsBoundedBySchema(schema, init, lines[i].0);
    }
  }

  // ----- The run -----

  /** Why a collector contributes nothing, if it does not. */
  function SkipReason(o: Outcome<seq<Fields>>): Option<string> {
    if o.Failed? then Some(o.reason)
    else if o.value == [] then Some("the query matched nothing")
    else None
  }

  function RecordsFrom(c: Collector, o: Outcome<seq<Fields>>): (rs: seq<Record>)
    ensures o.Got? ==> |rs| == |o.value|
    ensures o.Failed? ==> rs == []
  {
    if o.Failed? then []
    else seq(|o.value|, i requires 0 <= i < |o.value| => Record(c.name, Emitted(c.emit, o.value[i])))
  }

  function Records(a: Allowlist, r: Reader): seq<Record> {
    if a == [] then []
    else Records(a[..|a| - 1], r) + RecordsFrom(a[|a| - 1], Observe(r, a[|a| - 1]))
  }

  function Skipped(a: Allowlist, r: Reader): map<string, string> {
    if a == [] then map[]
    else
      var c := a[|a| - 1];
      var reason := SkipReason(Observe(r, c));
      if reason.None? then Skipped(a[..|a| - 1], r) else Skipped(a[..|a| - 1], r)[c.name := reason.value]
  }

  method Collect(a: Allowlist, r: Reader, cluster: string, now: string) returns (p: Payload)
    ensures p == Payload(cluster, now, Records(a, r), Skipped(a, r))
  {
    var records: seq<Record> := [];
    var skipped: map<string, string> := map[];
    for i := 0 to |a|
      invariant records == Records(a[..i], r) && skipped == Skipped(a[..i], r)
    {
      var c := a[i];
      assert a[..i + 1][..i] == a[..i];
      var observed: Outcome<seq<Fields>>;
      if c.source.kind == METRICS {
        observed := CollectMetrics(r, c);
      } else if c.source.kind == ARTEFACT {
        observed := CollectArtefact(r, c);
      } else {
        observed := Failed("unimplemented source kind \"" + c.source.kind + "\"");
      }
      if observed.Failed? {
        skipped := skipped[c.name := observed.reason];
      } else if |observed.value| == 0 {
        skipped := skipped[c.name := "the query matched nothing"];
      } else {
        var own := Reduce(c, observed);
        records := records + own;
      }
    }
    assert a[..|a|] == a;
    p := Payload(cluster, now, records, skipped);
  }

  method Reduce(c: Collector, o: Outcome<seq<Fields>>) returns (rs: seq<Record>)
    requires o.Got?
    ensures rs == RecordsFrom(c, o)
  {
    rs := [];
    for i := 0 to |o.value|
      invariant rs == RecordsFrom(c, o)[..i]
    {
      var fields := Project(c, o.value[i]);
      rs := rs + [Record(c.name, fields)];
    }
  }

  // ----- What can leave -----

  /** Every field of every record may leave under the allowlist the run was given. */
  lemma {:induction false} RecordsStayInScope(a: Allowlist, r: Reader, k: nat, f: string)
    requires k < |Records(a, r)| && f in Records(a, r)[k].fields
    ensures MayLeave(a, Records(a, r)[k].collector, f)
  {
    var init, c := a[..|a| - 1], a[|a| - 1];
    var rest := Records(init, r);
    var record := Records(a, r)[k];
    assert a == init + [c];
    MayLeaveSnoc(init, c, record.collector, f);
    if k < |rest| {
      RecordsStayInScope(init, r, k, f);
    } else {
      assert record == RecordsFrom(c, Observe(r, c))[k - |rest|];
    }
  }

  /** Under an effective scope: reviewed for its collector, and denied in no form. */
  lemma RecordsAreReviewedAndNotDenied(a: Allowlist, deny: seq<string>, r: Reader, k: nat, f: string)
    requires k < |Records(Scope(a, Denied(deny)), r)|
    requires f in Records(Scope(a, Denied(deny)), r)[k].fields
    ensures var name := Records(Scope(a, Denied(deny)), r)[k].collector;
            && MayLeave(a, name, f)
            && name !in Denied(deny) && f !in Denied(deny) && name + "." + f !in Denied(deny)
  {
    var s := Scope(a, Denied(deny));
    RecordsStayInScope(s, r, k, f);
    ScopeIsSubtraction(a, Denied(deny), Records(s, r)[k].collector, f);
  }

  // ----- Noninterference -----

  /** Two observations agree on the emitted fields: present in both with one value, or in neither. */
  predicate AgreeOn(emit: seq<string>, o1: Fields, o2: Fields) {
    forall f :: f in emit ==> (f in o1 <==> f in o2) && (f in o1 && f in o2 ==> o1[f] == o2[f])
  }

  lemma EmittedTellsApart(emit: seq<string>, o1: Fields, o2: Fields)
    ensures Emitted(emit, o1) == Emitted(emit, o2) <==> AgreeOn(emit, o1, o2)
  {
    var e1, e2 := Emitted(emit, o1), Emitted(emit, o2);
    if e1 == e2 {
      forall f | f in emit
        ensures (f in o1 <==> f in o2) && (f in o1 && f in o2 ==> o1[f] == o2[f])
      {
        assert (f in e1 <==> f in o1) && (f in e2 <==> f in o2);
      }
    }
  }

  /** The same number of observations, agreeing on emitted fields one by one; or skipped for one reason. */
  predicate LookAlike(c: Collector, o1: Outcome<seq<Fields>>, o2: Outcome<seq<Fields>>) {
    && SkipReason(o1) == SkipReason(o2)
    && (SkipReason(o1).None? ==> SameEmitted(c, o1.value, o2.value))
  }

  predicate SameEmitted(c: Collector, v1: seq<Fields>, v2: seq<Fields>) {
    |v1| == |v2| && forall i :: 0 <= i < |v1| ==> AgreeOn(c.emit, v1[i], v2[i])
  }

  lemma LookAlikeGivesSameRecords(c: Collector, o1: Outcome<seq<Fields>>, o2: Outcome<seq<Fields>>)
    requires LookAlike(c, o1, o2)
    ensures RecordsFrom(c, o1) == RecordsFrom(c, o2)
  {
    if SkipReason(o1).None? {
      forall i | 0 <= i < |o1.value| ensures RecordsFrom(c, o1)[i] == RecordsFrom(c, o2)[i] {
        EmittedTellsApart(c.emit, o1.value[i], o2.value[i]);
      }
    }
  }

  lemma SameRecordsLookAlike(c: Collector, o1: Outcome<seq<Fields>>, o2: Outcome<seq<Fields>>)
    requires RecordsFrom(c, o1) == RecordsFrom(c, o2) && SkipReason(o1) == SkipReason(o2)
    ensures LookAlike(c, o1, o2)
  {
    if SkipReason(o1).None? {
      forall i | 0 <= i < |o1.value| ensures AgreeOn(c.emit, o1.value[i], o2.value[i]) {
        assert RecordsFrom(c, o1)[i] == RecordsFrom(c, o2)[i];
        EmittedTellsApart(c.emit, o1.value[i], o2.value[i]);
      }
    }
  }

  predicate AllLookAlike(a: Allowlist, r1: Reader, r2: Reader) {
    forall i :: 0 <= i < |a| ==> LookAlike(a[i], Observe(r1, a[i]), Observe(r2, a[i]))
  }

  lemma {:induction false} LookAlikeIsEnough(a: Allowlist, r1: Reader, r2: Reader)
    requires AllLookAlike(a, r1, r2)
    ensures Records(a, r1) == Records(a, r2) && Skipped(a, r1) == Skipped(a, r2)
  {
    if a != [] {
      var init, c := a[..|a| - 1], a[|a| - 1];
      LookAlikeIsEnough(init, r1, r2);
      LookAlikeGivesSameRecords(c, Observe(r1, c), Observe(r2, c));
    }
  }

  /** The records of one collector, in order. */
  function Own(rs: seq<Record>, name: string): seq<Record> {
    if rs == [] then []
    else
      var rest := Own(rs[..|rs| - 1], name);
      if rs[|rs| - 1].collector == name then rest + [rs[|rs| - 1]] else rest
  }

  lemma {:induction false} OwnConcat(x: seq<Record>, y: seq<Record>, name: string)
    ensures Own(x + y, name) == Own(x, name) + Own(y, name)
  {
    if y == [] {
      assert x + y == x;
    } else {
      OwnConcat(x, y[..|y| - 1], name);
      assert (x + y)[..|x + y| - 1] == x + y[..|y| - 1];
    }
  }

  lemma {:induction false} OwnUniform(rs: seq<Record>, owner: string, name: string)
    requires forall i :: 0 <= i < |rs| ==> rs[i].collector == owner
    ensures Own(rs, name) == if owner == name then rs else []
  {
    if rs != [] {
      OwnUniform(rs[..|rs| - 1], owner, name);
      assert rs == rs[..|rs| - 1] + [rs[|rs| - 1]];
    }
  }

  lemma {:induction false} NoOwnRecords(a: Allowlist, r: Reader, name: string)
    requires forall i :: 0 <= i < |a| ==> a[i].name != name
    ensures Own(Records(a, r), name) == [] && name !in Skipped(a, r)
  {
    if a != [] {
      var init, c := a[..|a| - 1], a[|a| - 1];
      NoOwnRecords(init, r, name);
      OwnConcat(Records(init, r), RecordsFrom(c, Observe(r, c)), name);
      OwnUniform(RecordsFrom(c, Observe(r, c)), c.name, name);
    }
  }

  function SkippedAs(m: map<string, string>, name: string): Option<string> {
    if name in m then Some(m[name]) else None
  }

  lemma OwnOfLast(a: Allowlist, c: Collector, r: Reader, name: string)
    ensures Own(Records(a + [c], r), name) ==
            Own(Records(a, r), name) + (if c.name == name then RecordsFrom(c, Observe(r, c)) else [])
  {
    var last := RecordsFrom(c, Observe(r, c));
    assert (a + [c])[..|a|] == a;
    OwnConcat(Records(a, r), last, name);
    OwnUniform(last, c.name, name);
  }

  lemma OwnOfOther(a: Allowlist, c: Collector, r: Reader, name: string)
    requires c.name != name
    ensures Own(Records(a + [c], r), name) == Own(Records(a, r), name)
  {
    OwnOfLast(a, c, r, name);
  }

  lemma OwnOfNew(a: Allowlist, c: Collector, r: Reader)
    requires forall i :: 0 <= i < |a| ==> a[i].name != c.name
    ensures Own(Records(a + [c], r), c.name) == RecordsFrom(c, Observe(r, c))
  {
    OwnOfLast(a, c, r, c.name);
    NoOwnRecords(a, r, c.name);
  }

  lemma {:induction false} RecordsSeparate(a: Allowlist, r: Reader, i: nat, n: nat)
    requires Distinct(a) && i < n <= |a|
    ensures Own(Records(a[..n], r), a[i].name) == RecordsFrom(a[i], Observe(r, a[i]))
    decreases n
  {
    var init, c := a[..n - 1], a[n - 1];
    assert a[..n] == init + [c];
    if i < n - 1 {
      OwnOfOther(init, c, r, a[i].name);
      RecordsSeparate(a, r, i, n - 1);
    } else {
      OwnOfNew(init, c, r);
    }
  }

  lemma {:induction false} ReasonsSeparate(a: Allowlist, r: Reader, i: nat)
    requires Distinct(a) && i < |a|
    ensures SkippedAs(Skipped(a, r), a[i].name) == SkipReason(Observe(r, a[i]))
  {
    var init, c := a[..|a| - 1], a[|a| - 1];
    if i < |init| {
      ReasonsSeparate(init, r, i);
      assert init[i] == a[i];
    } else {
      NoOwnRecords(init, r, c.name);
    }
  }

  /** With distinct names, a payload tells each collector's records and skip reason apart from the rest. */
  lemma PayloadSeparates(a: Allowlist, r: Reader, i: nat)
    requires Distinct(a) && i < |a|
    ensures Own(Records(a, r), a[i].name) == RecordsFrom(a[i], Observe(r, a[i]))
    ensures SkippedAs(Skipped(a, r), a[i].name) == SkipReason(Observe(r, a[i]))
  {
    RecordsSeparate(a, r, i, |a|);
    assert a[..|a|] == a;
    ReasonsSeparate(a, r, i);
  }

  /** A payload reveals, of each collector, exactly why it was skipped, how many observations it made
      and their emitted fields: two readers give one payload if and only if they agree on those. */
  lemma PayloadRevealsExactlyTheScope(a: Allowlist, r1: Reader, r2: Reader)
    requires Distinct(a)
    ensures Records(a, r1) == Records(a, r2) && Skipped(a, r1) == Skipped(a, r2) <==> AllLookAlike(a, r1, r2)
  {
    if AllLookAlike(a, r1, r2) {
      LookAlikeIsEnough(a, r1, r2);
    }
    if Records(a, r1) == Records(a, r2) && Skipped(a, r1) == Skipped(a, r2) {
      forall i | 0 <= i < |a| ensures LookAlike(a[i], Observe(r1, a[i]), Observe(r2, a[i])) {
        PayloadSeparates(a, r1, i);
        PayloadSeparates(a, r2, i);
        SameRecordsLookAlike(a[i], Observe(r1, a[i]), Observe(r2, a[i]));
      }
    }
  }

  // ----- Noninterference, over what the readers return -----

  /** The samples of the query's name, in order. */
  function OfQuery(query: string, samples: seq<Sample>): seq<Sample> {
    if samples == [] then []
    else
      var rest, s := OfQuery(query, samples[..|samples| - 1]), samples[|samples| - 1];
      if s.metric == query then rest + [s] else rest
  }

  /** The samples of the query correspond one to one and agree on every emitted field, whatever others there are. */
  predicate SamplesAgree(c: Collector, s1: seq<Sample>, s2: seq<Sample>) {
    var q := c.source.query;
    && |OfQuery(q, s1)| == |OfQuery(q, s2)|
    && forall i :: 0 <= i < |OfQuery(q, s1)| ==> SampleAgrees(c, OfQuery(q, s1)[i], OfQuery(q, s2)[i])
  }

  predicate SampleAgrees(c: Collector, s1: Sample, s2: Sample) {
    forall f :: f in c.emit ==> Reported(c.source.query, s1, f) == Reported(c.source.query, s2, f)
  }

  /** The value on the first line carrying a key. */
  function FirstLine(lines: seq<(string, string)>, f: string): Option<string> {
    if lines == [] then None
    else if FirstLine(lines[..|lines| - 1], f).Some? then FirstLine(lines[..|lines| - 1], f)
    else if lines[|lines| - 1].0 == f then Some(lines[|lines| - 1].1)
    else None
  }

  predicate LinesAgree(c: Collector, l1: seq<(string, string)>, l2: seq<(string, string)>) {
    forall f :: f in c.emit ==> FirstLine(l1, f) == FirstLine(l2, f)
  }

  predicate HoldsSchemaField(c: Collector, lines: seq<(string, string)>) {
    exists i :: 0 <= i < |lines| && lines[i].0 in c.schema
  }

  function MetricsFor(c: Collector, r: Reader): Outcome<Body> {
    r.metrics(c.source.ns, c.source.service, c.source.port)
  }

  function LinesFor(c: Collector, r: Reader): Outcome<seq<(string, string)>> {
    r.artefact(c.source.path)
  }

  /** Two readers fail one collector for one reason, or return the same to it as far as its emitted fields go. */
  predicate ReadersAgree(c: Collector, r1: Reader, r2: Reader) {
    if c.source.kind == METRICS then
      var b1, b2 := MetricsFor(c, r1), MetricsFor(c, r2);
      if b1.Failed? || b2.Failed? then b1 == b2
      else b1.value.scanError == b2.value.scanError && SamplesAgree(c, b1.value.samples, b2.value.samples)
    else if c.source.kind == ARTEFACT then
      var l1, l2 := LinesFor(c, r1), LinesFor(c, r2);
      if l1.Failed? || l2.Failed? then l1 == l2 else LinesAgree(c, l1.value, l2.value)
    else true
  }

  /** Of two artefacts that were read, both hold some field of the schema or neither does. */
  predicate SamePresence(c: Collector, r1: Reader, r2: Reader) {
    c.source.kind == ARTEFACT && LinesFor(c, r1).Got? && LinesFor(c, r2).Got? ==>
      (HoldsSchemaField(c, LinesFor(c, r1).value) <==> HoldsSchemaField(c, LinesFor(c, r2).value))
  }

  lemma {:induction false} MatchingIsOfQuery(query: string, samples: seq<Sample>)
    ensures |Matching(query, samples)| == |OfQuery(query, samples)|
    ensures forall i :: 0 <= i < |Matching(query, samples)| ==>
      Matching(query, samples)[i] == SampleFields(query, OfQuery(query, samples)[i])
  {
    if samples != [] {
      MatchingIsOfQuery(query, samples[..|samples| - 1]);
    }
  }

  lemma AgreeingSamples(c: Collector, s1: Sample, s2: Sample)
    requires SampleAgrees(c, s1, s2)
    ensures AgreeOn(c.emit, SampleFields(c.source.query, s1), SampleFields(c.source.query, s2))
  {
    var q := c.source.query;
    forall f | f in c.emit ensures Field(SampleFields(q, s1), f) == Field(SampleFields(q, s2), f) {
      SampleFieldsReport(q, s1, f);
      SampleFieldsReport(q, s2, f);
    }
    FieldsAgree(c.emit, SampleFields(q, s1), SampleFields(q, s2));
  }

  lemma MatchingAgrees(c: Collector, s1: seq<Sample>, s2: seq<Sample>)
    requires SamplesAgree(c, s1, s2)
    ensures SameEmitted(c, Matching(c.source.query, s1), Matching(c.source.query, s2))
  {
    var q := c.source.query;
    MatchingIsOfQuery(q, s1);
    MatchingIsOfQuery(q, s2);
    forall i | 0 <= i < |Matching(q, s1)| ensures AgreeOn(c.emit, Matching(q, s1)[i], Matching(q, s2)[i]) {
      AgreeingSamples(c, OfQuery(q, s1)[i], OfQuery(q, s2)[i]);
    }
  }

  lemma FieldsAgree(emit: seq<string>, o1: Fields, o2: Fields)
    requires forall f :: f in emit ==> Field(o1, f) == Field(o2, f)
    ensures AgreeOn(emit, o1, o2)
  {
    forall f | f in emit ensures (f in o1 <==> f in o2) && (f in o1 && f in o2 ==> o1[f] == o2[f]) {
      assert Field(o1, f) == Field(o2, f);
    }
  }

  lemma {:induction false} FirstSeenIsFirstLine(schema: seq<string>, lines: seq<(string, string)>, f: string)
    requires f in schema
    ensures Field(FirstSeen(schema, lines), f) == FirstLine(lines, f)
  {
    if lines != [] {
      FirstSeenIsFirstLine(schema, lines[..|lines| - 1], f);
    }
  }

  lemma SeenExactly(c: Collector, lines: seq<(string, string)>)
    ensures FirstSeen(c.schema, lines) != map[] <==> HoldsSchemaField(c, lines)
  {
    var o := FirstSeen(c.schema, lines);
    if o != map[] {
      var f :| f in o;
      ArtefactIsBoundedBySchema(c.schema, lines, f);
    }
    if HoldsSchemaField(c, lines) {
      var i :| 0 <= i < |lines| && lines[i].0 in c.schema;
      ArtefactIsBoundedBySchema(c.schema, lines, lines[i].0);
    }
  }

  lemma ArtefactsLookAlikeExactly(c: Collector, r1: Reader, r2: Reader)
    requires c.source.kind == ARTEFACT && ReadersAgree(c, r1, r2) && forall f :: f in c.emit ==> f in c.schema
    ensures LookAlike(c, Observe(r1, c), Observe(r2, c)) <==> SamePresence(c, r1, r2)
  {
    var l1, l2 := LinesFor(c, r1), LinesFor(c, r2);
    if l1.Got? && l2.Got? {
      SeenExactly(c, l1.value);
      SeenExactly(c, l2.value);
      forall f | f in c.emit
        ensures Field(FirstSeen(c.schema, l1.value), f) == Field(FirstSeen(c.schema, l2.value), f)
      {
        FirstSeenIsFirstLine(c.schema, l1.value, f);
        FirstSeenIsFirstLine(c.schema, l2.value, f);
      }
      FieldsAgree(c.emit, FirstSeen(c.schema, l1.value), FirstSeen(c.schema, l2.value));
    }
  }

  lemma AgreeingLookAlikeExactly(c: Collector, r1: Reader, r2: Reader)
    requires ReadersAgree(c, r1, r2) && forall f :: f in c.emit ==> f in c.schema
    ensures LookAlike(c, Observe(r1, c), Observe(r2, c)) <==> SamePresence(c, r1, r2)
  {
    if c.source.kind == METRICS {
      var b1, b2 := MetricsFor(c, r1), MetricsFor(c, r2);
      if b1.Got? && b2.Got? {
        MatchingAgrees(c, b1.value.samples, b2.value.samples);
      }
    } else if c.source.kind == ARTEFACT {
      ArtefactsLookAlikeExactly(c, r1, r2);
    }
  }

  predicate SamePayload(a: Allowlist, r1: Reader, r2: Reader) {
    Records(a, r1) == Records(a, r2) && Skipped(a, r1) == Skipped(a, r2)
  }

  predicate AllAgree(a: Allowlist, r1: Reader, r2: Reader) {
    forall i :: 0 <= i < |a| ==> ReadersAgree(a[i], r1, r2)
  }

  predicate AllSamePresence(a: Allowlist, r1: Reader, r2: Reader) {
    forall i :: 0 <= i < |a| ==> SamePresence(a[i], r1, r2)
  }

  lemma AgreeingReadersExactly(a: Allowlist, r1: Reader, r2: Reader)
    requires Reviewed(a) && AllAgree(a, r1, r2)
    ensures SamePayload(a, r1, r2) <==> AllSamePresence(a, r1, r2)
  {
    PayloadRevealsExactlyTheScope(a, r1, r2);
    forall i | 0 <= i < |a|
      ensures LookAlike(a[i], Observe(r1, a[i]), Observe(r2, a[i])) <==> SamePresence(a[i], r1, r2)
    {
      assert WellFormed(a[i]) && ReadersAgree(a[i], r1, r2);
      AgreeingLookAlikeExactly(a[i], r1, r2);
    }
  }

  /**
  Noninterference: for every reviewed allowlist and every denylist, readers that agree on what is
  still emitted give one payload -- if and only if, of every artefact, both or neither holds some
  field of the schema.  That much a denied field does show: an artefact is observed by its schema,
  and whether anything was observed is in the payload.
  */
  lemma DeniedFieldsShowOnlyPresence(a: Allowlist, deny: seq<string>, r1: Reader, r2: Reader)
    requires Reviewed(a) && AllAgree(Scope(a, Denied(deny)), r1, r2)
    ensures SamePayload(Scope(a, Denied(deny)), r1, r2) <==> AllSamePresence(Scope(a, Denied(deny)), r1, r2)
  {
    ScopeStaysReviewed(a, Denied(deny));
    AgreeingReadersExactly(Scope(a, Denied(deny)), r1, r2);
  }

  /** Metrics collectors show nothing of what is not emitted. */
  lemma MetricsDoNotInterfere(a: Allowlist, deny: seq<string>, r1: Reader, r2: Reader)
    requires Reviewed(a) && forall i :: 0 <= i < |a| ==> a[i].source.kind == METRICS
    requires AllAgree(Scope(a, Denied(deny)), r1, r2)
    ensures SamePayload(Scope(a, Denied(deny)), r1, r2)
  {
    var s := Scope(a, Denied(deny));
    DeniedFieldsShowOnlyPresence(a, deny, r1, r2);
    forall i | 0 <= i < |s| ensures SamePresence(s[i], r1, r2) {
      ScopeComesFrom(a, Denied(deny), i);
    }
  }

  /** A denied field that shows: its presence alone decides between one empty record and none. */
  lemma DeniedFieldShowsItsPresence() returns (a: Allowlist, deny: seq<string>, r1: Reader, r2: Reader)
    ensures Reviewed(a) && |Scope(a, Denied(deny))| == 1
    ensures ReadersAgree(Scope(a, Denied(deny))[0], r1, r2)
    ensures !SamePayload(Scope(a, Denied(deny)), r1, r2)
  {
    var source := Source(ARTEFACT, "", "", 0, "", "p");
    var c, left := Collector("c", source, ["f", "g"], ["f", "g"]), Collector("c", source, ["f", "g"], ["g"]);
    a, deny := [c], ["f"];
    r1 := Reader((n, s, p) => Failed(""), p => Got([("f", "1")]));
    r2 := Reader((n, s, p) => Failed(""), p => Got([]));
    OnlyFDenied(c, left);
    assert LinesFor(left, r1).value[0].0 in left.schema;
    assert HoldsSchemaField(left, LinesFor(left, r1).value) && !HoldsSchemaField(left, LinesFor(left, r2).value);
    assert LinesFor(left, r1).value[..0] == [];
    assert FirstLine([("f", "1")], "g") == None;
    assert !SamePresence(left, r1, r2);
    DeniedFieldsShowOnlyPresence(a, deny, r1, r2);
  }

  lemma OnlyFDenied(c: Collector, left: Collector)
    requires c.name == "c" && c.emit == ["f", "g"] && left == c.(emit := ["g"])
    ensures Scope([c], Denied(["f"])) == [left]
  {
    var d := Denied(["f"]);
    assert Trim("f") == "f" && d == {"f"};
    assert |"c" + "." + "f"| == 3 && |"c" + "." + "g"| == 3;
    assert ["f", "g"][..1] == ["f"] && ["f"][..0] == [];
    assert Kept("c", ["f"], d) == [] && Kept("c", ["f", "g"], d) == ["g"];
    assert [c][..0] == [];
  }

  /** Every collector of the run is accounted for: it has records or a reason, never both. */
  lemma NothingIsSilentlyOmitted(a: Allowlist, r: Reader, i: nat)
    requires Distinct(a) && i < |a|
    ensures a[i].name in Skipped(a, r) <==> Own(Records(a, r), a[i].name) == []
  {
    PayloadSeparates(a, r, i);
  }

  // ----- What no allowlist bounds -----

  /** The error text a collector's reader ended with, if it did. */
  function ReaderError(c: Collector, r: Reader): Option<string> {
    if c.source.kind == METRICS then
      var b := MetricsFor(c, r);
      if b.Failed? then Some(b.reason) else b.value.scanError
    else if c.source.kind == ARTEFACT && LinesFor(c, r).Failed? then Some(LinesFor(c, r).reason)
    else None
  }

  /** The texts of the program's own that a collector may be skipped with. */
  predicate IsOwnReason(c: Collector, reason: string) {
    reason == "the query matched nothing" || reason == "unimplemented source kind \"" + c.source.kind + "\""
  }

  /**
  The payload carries a reader's error text, as it came, exactly when its collector fails with it;
  otherwise a collector is skipped only with a text of the program's own.
  */
  lemma SkippedCarriesErrorsExactly(a: Allowlist, r: Reader, i: nat)
    requires Distinct(a) && i < |a|
    ensures var skipped, error := SkippedAs(Skipped(a, r), a[i].name), ReaderError(a[i], r);
      && (error.Some? ==> skipped == error)
      && (error.None? && skipped.Some? ==> IsOwnReason(a[i], skipped.value))
  {
    ReasonsSeparate(a, r, i);
  }

  /** Any text at all leaves that way, whatever is denied of the one collector. */
  lemma AnyErrorTextLeaves(text: string) returns (a: Allowlist, deny: seq<string>, r: Reader)
    ensures Reviewed(a) && Records(Scope(a, Denied(deny)), r) == []
    ensures Skipped(Scope(a, Denied(deny)), r) == map["c" := text]
  {
    var source := Source(ARTEFACT, "", "", 0, "", "p");
    var c, left := Collector("c", source, ["f", "g"], ["f", "g"]), Collector("c", source, ["f", "g"], ["g"]);
    a, deny := [c], ["f"];
    r := Reader((n, s, p) => Failed(""), p => Failed(text));
    OnlyFDenied(c, left);
    assert [left][..0] == [] && Records([], r) == [] && Skipped([], r) == map[];
    assert Observe(r, left) == Failed(text);
  }
}
