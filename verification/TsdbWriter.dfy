/**
  * The TSDB writer (backends/tsdb/writer.go): a writer that looks a series up once and then appends
  * to it by reference must store the same samples as one that looks it up for every sample.
  */
module TsdbWriter {
  import opened Wrappers
  import opened Values
  import opened Columns
  import opened Decimal
  import opened Frames
  import opened RowIter

  // --- Label sets ----------------------------------------------------------------------------------

  datatype Label = Label(name: string, value: string)

  /** A sorted label list, up to the order of labels with the same name, which the sort leaves open. */
  type Lset = multiset<Label>

  const NAME := "__name__"

  /** The code overwrites the value of a `__name__` label with the label's own name. */
  function LabelFor(labels: map<string, string>, name: string): Label
    requires name in labels
  {
    Label(name, if name == NAME then NAME else labels[name])
  }

  function FixedLabels(labels: map<string, string>, names: set<string>): set<Label>
    requires names <= labels.Keys
  {
    set name | name in names :: LabelFor(labels, name)
  }

  function Fixed(labels: map<string, string>, names: set<string>): Lset
    requires names <= labels.Keys
  {
    multiset(FixedLabels(labels, names))
  }

  function Zipped(names: seq<string>, values: seq<string>): seq<Label>
    requires |names| == |values|
  {
    seq(|names|, i requires 0 <= i < |names| => Label(names[i], values[i]))
  }

  function LsetOf(labels: map<string, string>, name: string, extraNames: seq<string>, extra: seq<string>): Lset
    requires |extraNames| == |extra|
  {
    Fixed(labels, labels.Keys)
    + (if NAME in labels then multiset{} else multiset{Label(NAME, name)})
    + multiset(Zipped(extraNames, extra))
  }

  /**
    * What a label set holds, label by label: each frame label once with its value, `__name__` with itself;
    * the column's name under `__name__` unless a frame label hides it; each extra index once; nothing else.
    */
  ghost predicate HasLabels(lset: Lset, labels: map<string, string>, name: string, extraNames: seq<string>, extra: seq<string>)
    requires |extraNames| == |extra|
  {
    forall l: Label :: lset[l] ==
      (if l.name in labels && l.value == (if l.name == "__name__" then "__name__" else labels[l.name]) then 1 else 0)
      + (if "__name__" !in labels && l.name == "__name__" && l.value == name then 1 else 0)
      + |IndicesWith(extraNames, extra, l)|
  }

  /** The extra indices that make this label. */
  ghost function IndicesWith(extraNames: seq<string>, extra: seq<string>, l: Label): set<int>
    requires |extraNames| == |extra|
  {
    set j | 0 <= j < |extra| && extraNames[j] == l.name && extra[j] == l.value
  }

  lemma {:induction false} ZippedLabels(names: seq<string>, values: seq<string>, l: Label)
    requires |names| == |values|
    ensures multiset(Zipped(names, values))[l] == |IndicesWith(names, values, l)|
    decreases |names|
  {
    if names == [] {
      assert Zipped(names, values) == [] && IndicesWith(names, values, l) == {};
    } else {
      var n := |names| - 1;
      ZippedLabels(names[..n], values[..n], l);
      assert Zipped(names, values) == Zipped(names[..n], values[..n]) + [Label(names[n], values[n])];
      var before := IndicesWith(names[..n], values[..n], l);
      assert IndicesWith(names, values, l) == before + (if names[n] == l.name && values[n] == l.value then {n} else {});
      assert n !in before;
    }
  }

  lemma LsetHasLabels(labels: map<string, string>, name: string, extraNames: seq<string>, extra: seq<string>)
    requires |extraNames| == |extra|
    ensures HasLabels(LsetOf(labels, name, extraNames, extra), labels, name, extraNames, extra)
  {
    forall l: Label ensures LsetOf(labels, name, extraNames, extra)[l] ==
      (if l.name in labels && l.value == (if l.name == "__name__" then "__name__" else labels[l.name]) then 1 else 0)
      + (if "__name__" !in labels && l.name == "__name__" && l.value == name then 1 else 0)
      + |IndicesWith(extraNames, extra, l)|
    {
      ZippedLabels(extraNames, extra, l);
      hide Zipped, IndicesWith;
      if l.name in labels {
        assert l in FixedLabels(labels, labels.Keys) <==> l == LabelFor(labels, l.name);
      }
    }
  }

  /** NilPanic stands for a Go run-time panic on a nil pointer. */
  datatype Outcome = Ok | Refused(error: TsdbError) | StoreFailed | NilPanic

  datatype TsdbError = NoIndices | NoTimeIndex | BadType | OutOfOrder | NameLabel

  /** `newLset`: the keys of the label map come in any order. */
  method NewLset(labels: map<string, string>, name: string, singleCol: bool, extraNames: seq<string>, extra: seq<string>)
    returns (r: Result<Lset, TsdbError>)
    requires |extraNames| == |extra|
    ensures r == if NAME in labels && !singleCol then Failure(NameLabel) else Success(LsetOf(labels, name, extraNames, extra))
    ensures r.Success? ==> HasLabels(r.value, labels, name, extraNames, extra)
  {
    LsetHasLabels(labels, name, extraNames, extra);
    hide Fixed, LabelFor, HasLabels;
    var lset: Lset, hadName, todo := multiset{}, false, labels.Keys;
    NoLabels(labels);
    while todo != {}
      invariant todo <= labels.Keys
      invariant lset == Fixed(labels, labels.Keys - todo)
      invariant hadName <==> NAME in labels.Keys - todo
      invariant hadName ==> singleCol
    {
      var key :| key in todo;
      if key == NAME {
        if !singleCol {
          return Failure(NameLabel);
        }
        hadName := true;
      }
      OneLabelMore(labels, labels.Keys - todo, key);
      assert labels.Keys - (todo - {key}) == labels.Keys - todo + {key};
      lset, todo := lset + multiset{LabelFor(labels, key)}, todo - {key};
    }
    assert labels.Keys - todo == labels.Keys;
    if !hadName {
      lset := lset + multiset{Label(NAME, name)};
    }
    assert lset == Fixed(labels, labels.Keys) + (if NAME in labels then multiset{} else multiset{Label(NAME, name)});
    lset := WithExtra(lset, extraNames, extra);
    r := Success(lset);
  }

  method WithExtra(lset: Lset, extraNames: seq<string>, extra: seq<string>) returns (r: Lset)
    requires |extraNames| == |extra|
    ensures r == lset + multiset(Zipped(extraNames, extra))
  {
    r := lset;
    for i := 0 to |extraNames|
      invariant r == lset + multiset(Zipped(extraNames[..i], extra[..i]))
    {
      assert Zipped(extraNames[..i + 1], extra[..i + 1]) == Zipped(extraNames[..i], extra[..i]) + [Label(extraNames[i], extra[i])];
      r := r + multiset{Label(extraNames[i], extra[i])};
    }
    assert extraNames[..|extraNames|] == extraNames && extra[..|extra|] == extra;
  }

  lemma NoLabels(labels: map<string, string>)
    ensures Fixed(labels, labels.Keys - labels.Keys) == multiset{}
  {
    assert FixedLabels(labels, labels.Keys - labels.Keys) == {};
  }

  lemma OneLabelMore(labels: map<string, string>, names: set<string>, key: string)
    requires names <= labels.Keys && key in labels && key !in names
    ensures Fixed(labels, names + {key}) == Fixed(labels, names) + multiset{LabelFor(labels, key)}
  {
    var before, one := FixedLabels(labels, names), LabelFor(labels, key);
    assert FixedLabels(labels, names + {key}) == before + {one};
    assert one !in before;
  }

  /** A `__name__` label hides the name of the column: two frames that differ only there write one series. */
  lemma NameLabelHidesColumn(labels: map<string, string>, a: string, b: string, extraNames: seq<string>, extra: seq<string>)
    requires |extraNames| == |extra|
    ensures LsetOf(labels, a, extraNames, extra) == LsetOf(labels, b, extraNames, extra) <==> NAME in labels || a == b
  {
    if NAME !in labels && a != b {
      var rest := Fixed(labels, labels.Keys) + multiset(Zipped(extraNames, extra));
      var one := Label(NAME, a);
      assert LsetOf(labels, a, extraNames, extra)[one] == rest[one] + 1;
      assert LsetOf(labels, b, extraNames, extra)[one] == rest[one];
    }
  }

  // --- The store -------------------------------------------------------------------------------------

  datatype Sample = Sample(lset: Lset, time: int64, value: Float)

  /** The store resolves a reference to a series; any call may fail. */
  class Store {
    var series: map<nat, Lset>
    var samples: seq<Sample>
    var lookups: nat              // calls of Add
    var refused: nat

    constructor ()
      ensures series == map[] && samples == [] && lookups == 0 && refused == 0
    {
      series, samples, lookups, refused := map[], [], 0, 0;
    }

    /** Finds or makes the series of a label set, and says which reference it gave to it. */
    method Add(lset: Lset, time: int64, value: Float) returns (ref: Option<nat>)
      modifies this
      ensures lookups == old(lookups) + 1 && Extends(old(series))
      ensures ref.Some? ==> ref.value in series && series[ref.value] == lset
      ensures samples == if ref.Some? then old(samples) + [Sample(lset, time, value)] else old(samples)
      ensures refused == old(refused) + (if ref.Some? then 0 else 1)
    {
      var free: nat, up: bool := *, *;
      lookups := lookups + 1;
      if up && (free !in series || series[free] == lset) {
        series, samples := series[free := lset], samples + [Sample(lset, time, value)];
        return Some(free);
      }
      refused := refused + 1;
      ref := None;
    }

    /** Appends to the series of `ref`, whatever the label set says. */
    method AddFast(lset: Lset, ref: nat, time: int64, value: Float) returns (ok: bool)
      modifies this
      ensures lookups == old(lookups) && series == old(series)
      ensures ok ==> ref in series
      ensures samples == if ok then old(samples) + [Sample(series[ref], time, value)] else old(samples)
      ensures refused == old(refused) + (if ok then 0 else 1)
    {
      ok := *;
      ok := ok && ref in series;
      if ok {
        samples := samples + [Sample(series[ref], time, value)];
      } else {
        refused := refused + 1;
      }
    }

    /** References keep their series. */
    predicate Extends(was: map<nat, Lset>)
      reads `series
    {
      forall ref :: ref in was ==> ref in series && series[ref] == was[ref]
    }
  }

  // --- What is to be written ---------------------------------------------------------------------------

  /** The arrays that `Add` prepares from a frame before it writes anything. */
  datatype Job = Job(
    labels: map<string, string>, names: seq<string>, times: seq<int64>, values: seq<seq<Float>>,
    extraNames: seq<string>, extra: seq<seq<string>>)
  {
    predicate Valid() {
      && |values| == |names|
      && (forall c :: 0 <= c < |values| ==> |values[c]| == |times|)
      && |extra| == |extraNames|
      && (forall j :: 0 <= j < |extra| ==> |extra[j]| == |times|)
    }

    function Tuple(row: nat): seq<string>
      requires Valid() && row < |times|
    {
      seq(|extra|, j requires 0 <= j < |extra| => extra[j][row])
    }

    /** The label set of a cell, and the sample it is to become. */
    function LsetAt(row: nat, col: nat): Lset
      requires Valid() && row < |times| && col < |names|
    {
      LsetOf(labels, names[col], extraNames, Tuple(row))
    }

    function SampleAt(row: nat, col: nat): Sample
      requires Valid() && row < |times| && col < |names|
    {
      Sample(LsetAt(row, col), times[row], values[col][row])
    }

    function RowSamples(row: nat, cols: nat): seq<Sample>
      requires Valid() && row < |times| && cols <= |names|
    {
      seq(cols, col requires 0 <= col < cols => SampleAt(row, col))
    }

    /** What a writer that looks up every sample stores: row after row, column after column. */
    function Samples(rows: nat): seq<Sample>
      requires Valid() && rows <= |times|
    {
      if rows == 0 then [] else Samples(rows - 1) + RowSamples(rows - 1, |names|)
    }

    /** Runs of rows with the same extra index values. */
    function Runs(rows: nat): nat
      requires Valid() && rows <= |times|
    {
      if rows <= 1 then rows else Runs(rows - 1) + (if Tuple(rows - 1) == Tuple(rows - 2) then 0 else 1)
    }
  }

  lemma {:induction false} SampleCount(job: Job, rows: nat)
    requires job.Valid() && rows <= |job.times|
    ensures |job.Samples(rows)| == rows * |job.names|
  {
    if rows > 0 {
      SampleCount(job, rows - 1);
      OneRowMore(rows, |job.names|);
    }
  }

  lemma OneRowMore(rows: nat, width: nat)
    requires rows > 0
    ensures rows * width == (rows - 1) * width + width
  {
  }

  lemma {:induction false} RowsBelow(row: nat, rows: nat, width: nat)
    requires row < rows
    ensures 0 <= row * width <= rows * width - width
    decreases rows
  {
    OneRowMore(rows, width);
    if row < rows - 1 {
      RowsBelow(row, rows - 1, width);
    }
  }

  /** The samples row by row, and column by column within a row. */
  lemma {:induction false} RowMajor(job: Job, rows: nat, row: nat, col: nat)
    requires job.Valid() && row < rows <= |job.times| && col < |job.names|
    ensures 0 <= row * |job.names| + col < |job.Samples(rows)| == rows * |job.names|
    ensures job.Samples(rows)[row * |job.names| + col] == job.SampleAt(row, col)
  {
    hide Job.SampleAt;
    SampleCount(job, rows);
    SampleCount(job, rows - 1);
    RowsBelow(row, rows, |job.names|);
    if row < rows - 1 {
      RowMajor(job, rows - 1, row, col);
    } else {
      assert job.Samples(rows)[row * |job.names| + col] == job.RowSamples(row, |job.names|)[col];
    }
  }

  datatype MetricCtx = MetricCtx(lset: Lset, ref: nat)

  /** Every cached reference leads to the series that row `row` is to be written to. */
  ghost predicate Cached(store: Store, metrics: seq<MetricCtx>, job: Job, row: nat)
    requires job.Valid() && row < |job.times|
    reads store`series
  {
    |metrics| == |job.names| &&
    forall c :: 0 <= c < |metrics| ==> CachedOne(store, metrics[c], job, row, c)
  }

  ghost predicate CachedOne(store: Store, metric: MetricCtx, job: Job, row: nat, col: nat)
    requires job.Valid() && row < |job.times| && col < |job.names|
    reads store`series
  {
    metric.ref in store.series && metric.lset == store.series[metric.ref] == job.LsetAt(row, col)
  }

  /** A row that is appended by reference. */
  method FastRow(store: Store, job: Job, row: nat, metrics: seq<MetricCtx>) returns (ok: bool)
    requires job.Valid() && row < |job.times| && Cached(store, metrics, job, row)
    modifies store
    ensures store.lookups == old(store.lookups) && store.series == old(store.series)
    ensures ok ==> store.samples == old(store.samples) + job.RowSamples(row, |job.names|)
    ensures store.refused == old(store.refused) + (if ok then 0 else 1)
    ensures Between(old(store.samples), store.samples, job.RowSamples(row, |job.names|))
  {
    hide LsetOf;
    for c := 0 to |metrics|
      invariant store.lookups == old(store.lookups) && store.series == old(store.series) && store.refused == old(store.refused)
      invariant store.samples == old(store.samples) + job.RowSamples(row, c)
    {
      RowSnoc(job, row, c);
      assert CachedOne(store, metrics[c], job, row, c);
      ok := store.AddFast(metrics[c].lset, metrics[c].ref, job.times[row], job.values[c][row]);
      if !ok {
        return;
      }
    }
    ok := true;
  }

  /** `now` is `was` and a part of what was to follow. */
  predicate Between(was: seq<Sample>, now: seq<Sample>, more: seq<Sample>) {
    was <= now <= was + more
  }

  lemma RowSnoc(job: Job, row: nat, c: nat)
    requires job.Valid() && row < |job.times| && c < |job.names|
    ensures job.RowSamples(row, c + 1) == job.RowSamples(row, c) + [job.SampleAt(row, c)]
    ensures job.RowSamples(row, c) <= job.RowSamples(row, |job.names|)
  {
    assert job.RowSamples(row, |job.names|)[..c] == job.RowSamples(row, c);
  }

  /** References stay good for a row with the same extra index values. */
  lemma StillCached(store: Store, metrics: seq<MetricCtx>, job: Job, row: nat)
    requires job.Valid() && 0 < row < |job.times| && job.Tuple(row) == job.Tuple(row - 1)
    requires Cached(store, metrics, job, row - 1)
    ensures Cached(store, metrics, job, row)
  {
    hide LsetOf;
    forall c | 0 <= c < |metrics| ensures CachedOne(store, metrics[c], job, row, c) {
      assert CachedOne(store, metrics[c], job, row - 1, c);
    }
  }

  lemma SamplesSnoc(job: Job, row: nat, was: seq<Sample>)
    requires job.Valid() && row < |job.times|
    ensures was + job.Samples(row) + job.RowSamples(row, |job.names|) == was + job.Samples(row + 1)
    ensures job.Samples(row + 1) <= job.Samples(|job.times|)
    decreases |job.times| - row
  {
    if row + 1 < |job.times| {
      SamplesSnoc(job, row + 1, was);
    }
  }

  lemma AtTheStart(job: Job, was: seq<Sample>)
    requires job.Valid()
    ensures was + job.Samples(0) == was && |job.names| * job.Runs(0) == 0
  {
  }

  lemma RunsSnoc(job: Job, row: nat)
    requires job.Valid() && row < |job.times|
    ensures |job.names| * job.Runs(row + 1) == |job.names| * job.Runs(row) +
      (if row > 0 && job.Tuple(row) == job.Tuple(row - 1) then 0 else |job.names|)
  {
    hide Job.Tuple;
    if row > 0 && job.Tuple(row) == job.Tuple(row - 1) {
      assert job.Runs(row + 1) == job.Runs(row);
    } else {
      assert job.Runs(row + 1) == job.Runs(row) + 1;
    }
  }

  /** A row whose series are looked up: `newLset` and `Add` for each column. */
  method LookUpRow(store: Store, job: Job, row: nat, lastIndexes: seq<string>) returns (metrics: seq<MetricCtx>, outcome: Outcome)
    requires job.Valid() && row < |job.times| && |job.names| > 0 && lastIndexes == job.Tuple(row)
    modifies store
    ensures outcome == Refused(NameLabel) <==> NameClash(job)
    ensures outcome.Refused? ==> store.samples == old(store.samples) && store.lookups == old(store.lookups)
    ensures outcome == Ok || outcome == StoreFailed || outcome == Refused(NameLabel)
    ensures store.refused == old(store.refused) + (if outcome == StoreFailed then 1 else 0)
    ensures outcome == Ok ==>
              && Cached(store, metrics, job, row)
              && store.samples == old(store.samples) + job.RowSamples(row, |job.names|)
              && store.lookups == old(store.lookups) + |job.names|
    ensures Between(old(store.samples), store.samples, job.RowSamples(row, |job.names|))
  {
    hide LsetOf, Cached;
    metrics := [];
    for c := 0 to |job.names|
      invariant |metrics| == c && forall k :: 0 <= k < c ==> CachedOne(store, metrics[k], job, row, k)
      invariant c > 0 ==> !NameClash(job)
      invariant store.samples == old(store.samples) + job.RowSamples(row, c)
      invariant store.lookups == old(store.lookups) + c && store.refused == old(store.refused)
    {
      RowSnoc(job, row, c);
      var lset := NewLset(job.labels, job.names[c], |job.names| == 1, job.extraNames, lastIndexes);
      if lset.Failure? {
        return metrics, Refused(lset.error);
      }
      var ref := store.Add(lset.value, job.times[row], job.values[c][row]);
      if ref.None? {
        return metrics, StoreFailed;
      }
      metrics := metrics + [MetricCtx(lset.value, ref.value)];
    }
    AllCached(store, metrics, job, row);
    outcome := Ok;
  }

  lemma AllCached(store: Store, metrics: seq<MetricCtx>, job: Job, row: nat)
    requires job.Valid() && row < |job.times| && |metrics| == |job.names|
    requires forall c :: 0 <= c < |metrics| ==> CachedOne(store, metrics[c], job, row, c)
    ensures Cached(store, metrics, job, row)
  {
  }

  /** A `__name__` label is refused when there are several columns. */
  predicate NameClash(job: Job) {
    NAME in job.labels && |job.names| != 1
  }

  /** The extra index values that differ from `lastIndexes` replace them. */
  method Compare(job: Job, row: nat, lastIndexes: seq<string>) returns (last: seq<string>, sameIndex: bool)
    requires job.Valid() && row < |job.times| && |lastIndexes| == |job.extra|
    ensures |last| == |job.extra| && last == job.Tuple(row) && (sameIndex <==> lastIndexes == job.Tuple(row))
  {
    last, sameIndex := lastIndexes, true;
    for j := 0 to |job.extra|
      invariant |last| == |lastIndexes| && last[j..] == lastIndexes[j..] && last[..j] == job.Tuple(row)[..j]
      invariant sameIndex <==> lastIndexes[..j] == job.Tuple(row)[..j]
    {
      if job.extra[j][row] != last[j] {
        sameIndex := false;
        last := last[j := job.extra[j][row]];
      }
      assert job.Tuple(row)[..j + 1] == job.Tuple(row)[..j] + [job.extra[j][row]];
      assert lastIndexes[..j + 1] == lastIndexes[..j] + [lastIndexes[j]];
    }
    assert last[|last|..] == [] && last[..|last|] == last && lastIndexes[..|last|] == lastIndexes;
    assert job.Tuple(row)[..|last|] == job.Tuple(row);
  }

  /** The extra index values of the first row are what `lastIndexes` starts with: nothing looks up a series. */
  predicate StartsEmpty(job: Job)
    requires job.Valid() && |job.times| > 0
  {
    job.Tuple(0) == seq(|job.extra|, _ => "")
  }

  /** Several indices: the extra ones become labels. */
  method WriteMulti(store: Store, job: Job) returns (outcome: Outcome)
    requires job.Valid() && |job.times| > 0 && |job.names| > 0
    modifies store
    ensures outcome == NilPanic <==> StartsEmpty(job)
    ensures outcome.Refused? <==> !StartsEmpty(job) && NameClash(job)
    ensures outcome.Refused? ==> outcome.error == NameLabel
    ensures store.refused == old(store.refused) + (if outcome == StoreFailed then 1 else 0)
    ensures outcome.NilPanic? || outcome.Refused? ==> store.samples == old(store.samples) && store.lookups == old(store.lookups)
    ensures outcome.Ok? ==>
              && store.samples == old(store.samples) + job.Samples(|job.times|)
              && store.lookups == old(store.lookups) + |job.names| * job.Runs(|job.times|)
    ensures Between(old(store.samples), store.samples, job.Samples(|job.times|))
  {
    hide LsetOf, Cached, Job.Samples, Job.RowSamples, Job.Runs, Job.Tuple;
    var lastIndexes := seq(|job.extra|, _ => "");
    var metrics: Option<seq<MetricCtx>> := None;    // nil pointers until the first lookup
    AtTheStart(job, old(store.samples));
    for row := 0 to |job.times|
      invariant |lastIndexes| == |job.extra|
      invariant row == 0 ==> metrics == None && lastIndexes == seq(|job.extra|, _ => "")
      invariant row > 0 ==> !StartsEmpty(job) && !NameClash(job) && lastIndexes == job.Tuple(row - 1)
      invariant row > 0 ==> metrics.Some? && Cached(store, metrics.value, job, row - 1)
      invariant store.samples == old(store.samples) + job.Samples(row)
      invariant store.lookups == old(store.lookups) + |job.names| * job.Runs(row) && store.refused == old(store.refused)
    {
      var sameIndex;
      SamplesSnoc(job, row, old(store.samples));
      RunsSnoc(job, row);
      lastIndexes, sameIndex := Compare(job, row, lastIndexes);
      if sameIndex {
        if metrics.None? {
          return NilPanic;
        }
        StillCached(store, metrics.value, job, row);
        var ok := FastRow(store, job, row, metrics.value);
        if !ok {
          return StoreFailed;
        }
      } else {
        var found;
        found, outcome := LookUpRow(store, job, row, lastIndexes);
        if !outcome.Ok? {
          return;
        }
        metrics := Some(found);
      }
    }
    outcome := Ok;
  }

  /** One index: the series are looked up in the first row, and the first time must not be after the last. */
  method WriteSingle(store: Store, job: Job) returns (outcome: Outcome)
    requires job.Valid() && |job.times| > 0 && job.extra == []
    modifies store
    ensures outcome == Refused(OutOfOrder) <==> job.times[0] > job.times[|job.times| - 1]
    ensures outcome == Refused(NameLabel) <==> job.times[0] <= job.times[|job.times| - 1] && NameClash(job) && job.names != []
    ensures outcome.Refused? ==> outcome.error in {OutOfOrder, NameLabel}
    ensures outcome.Refused? ==> store.samples == old(store.samples) && store.lookups == old(store.lookups)
    ensures !outcome.NilPanic?
    ensures store.refused == old(store.refused) + (if outcome == StoreFailed then 1 else 0)
    ensures outcome.Ok? ==>
              && store.samples == old(store.samples) + job.Samples(|job.times|)
              && store.lookups == old(store.lookups) + |job.names|
    ensures Between(old(store.samples), store.samples, job.Samples(|job.times|))
  {
    hide LsetOf, Cached, Job.Samples, Job.RowSamples, Between;
    AtTheStart(job, old(store.samples));
    SamplesSnoc(job, 0, old(store.samples));
    if |job.times| > 1 && job.times[0] > job.times[|job.times| - 1] {
      NothingWritten(job, store.samples);
      return Refused(OutOfOrder);
    }
    var lsets := SingleLsets(job);
    if lsets.Failure? {
      NothingWritten(job, store.samples);
      return Refused(lsets.error);
    }
    var metrics;
    metrics, outcome := FirstRow(store, job, lsets.value);
    if !outcome.Ok? {
      Part(job, 0, old(store.samples), store.samples);
      return;
    }
    for row := 1 to |job.times|
      invariant store.lookups == old(store.lookups) + |job.names| && store.refused == old(store.refused)
      invariant Cached(store, metrics, job, row - 1)
      invariant store.samples == old(store.samples) + job.Samples(row)
    {
      SamplesSnoc(job, row, old(store.samples));
      StillCached(store, metrics, job, row);
      ghost var before := store.samples;
      var ok := FastRow(store, job, row, metrics);
      if !ok {
        Part(job, row, old(store.samples), store.samples);
        return StoreFailed;
      }
    }
    NothingWritten(job, old(store.samples));
    Whole(job, old(store.samples));
    outcome := Ok;
  }

  lemma NothingWritten(job: Job, was: seq<Sample>)
    requires job.Valid()
    ensures Between(was, was, job.Samples(|job.times|))
  {
  }

  lemma Whole(job: Job, was: seq<Sample>)
    requires job.Valid()
    ensures Between(was, was + job.Samples(|job.times|), job.Samples(|job.times|))
  {
  }

  /** A part of row `row` on top of the rows before it is a part of the whole. */
  lemma Part(job: Job, row: nat, was: seq<Sample>, now: seq<Sample>)
    requires job.Valid() && row < |job.times|
    requires Between(was + job.Samples(row), now, job.RowSamples(row, |job.names|))
    ensures Between(was, now, job.Samples(|job.times|))
  {
    SamplesSnoc(job, row, was);
    hide Job.Samples, Job.RowSamples;
    assert was <= was + job.Samples(row) <= now;
    assert now <= was + job.Samples(row + 1) <= was + job.Samples(|job.times|);
  }

  method SingleLsets(job: Job) returns (r: Result<seq<Lset>, TsdbError>)
    requires job.Valid() && |job.times| > 0 && job.extra == []
    ensures r.Failure? <==> NameClash(job) && job.names != []
    ensures r.Failure? ==> r.error == NameLabel
    ensures r.Success? ==> |r.value| == |job.names| && forall c :: 0 <= c < |r.value| ==> r.value[c] == job.LsetAt(0, c)
  {
    hide LsetOf;
    var lsets := [];
    assert job.extraNames == [] && job.Tuple(0) == [];
    for c := 0 to |job.names|
      invariant c > 0 ==> !NameClash(job)
      invariant |lsets| == c && forall k :: 0 <= k < c ==> lsets[k] == job.LsetAt(0, k)
    {
      var lset := NewLset(job.labels, job.names[c], |job.names| == 1, [], []);
      if lset.Failure? {
        return Failure(lset.error);
      }
      lsets := lsets + [lset.value];
    }
    r := Success(lsets);
  }

  method FirstRow(store: Store, job: Job, lsets: seq<Lset>) returns (metrics: seq<MetricCtx>, outcome: Outcome)
    requires job.Valid() && |job.times| > 0
    requires |lsets| == |job.names| && forall c :: 0 <= c < |lsets| ==> lsets[c] == job.LsetAt(0, c)
    modifies store
    ensures outcome == Ok || outcome == StoreFailed
    ensures store.refused == old(store.refused) + (if outcome == StoreFailed then 1 else 0)
    ensures outcome == Ok ==>
              && Cached(store, metrics, job, 0)
              && store.samples == old(store.samples) + job.RowSamples(0, |job.names|)
              && store.lookups == old(store.lookups) + |job.names|
    ensures Between(old(store.samples), store.samples, job.RowSamples(0, |job.names|))
  {
    hide LsetOf, Cached;
    metrics := [];
    for c := 0 to |job.names|
      invariant |metrics| == c && forall k :: 0 <= k < c ==> CachedOne(store, metrics[k], job, 0, k)
      invariant store.samples == old(store.samples) + job.RowSamples(0, c)
      invariant store.lookups == old(store.lookups) + c && store.refused == old(store.refused)
    {
      RowSnoc(job, 0, c);
      var ref := store.Add(lsets[c], job.times[0], job.values[c][0]);
      if ref.None? {
        return metrics, StoreFailed;
      }
      metrics := metrics + [MetricCtx(lsets[c], ref.value)];
    }
    AllCached(store, metrics, job, 0);
    outcome := Ok;
  }

  // --- From a frame to what is to be written ------------------------------------------------------------

  /** The time index: of several, the last. */
  function TimeIndex(indices: seq<ColVal>): (i: int)
    ensures -1 <= i < |indices|
    ensures i >= 0 ==> indices[i].dtype == TimeType
    ensures forall j :: i < j < |indices| ==> indices[j].dtype != TimeType
  {
    LastWhere(indices, (v: ColVal) => v.dtype == TimeType)
  }

  function Skip(t: nat, j: nat): nat {
    if j < t then j else j + 1
  }

  /** The extra indices: all but the time index. */
  function Others(indices: seq<ColVal>): seq<ColVal>
    requires TimeIndex(indices) >= 0
  {
    var t := TimeIndex(indices);
    seq(|indices| - 1, j requires 0 <= j < |indices| - 1 => indices[Skip(t, j)])
  }

  predicate Numeric(dtype: DType) {
    dtype == FloatType || dtype == IntType
  }

  function Number(cell: Cell): Float {
    match cell
    case IntCell(i) => Num(i as real)
    case FloatCell(f) => f
    case _ => NaN
  }

  /** Nanoseconds to milliseconds, in two truncating divisions. */
  function Millis(ns: int64): int64 {
    Quot(Quot(ns, 1000), 1000)
  }

  /** Two truncations are one: times before the epoch are rounded up to a millisecond, later ones down. */
  lemma MillisTruncate(ns: int64)
    ensures Millis(ns) == Quot(ns, 1_000_000)
    ensures ns >= 0 ==> Millis(ns) * 1_000_000 <= ns < (Millis(ns) + 1) * 1_000_000
    ensures ns < 0 ==> (Millis(ns) - 1) * 1_000_000 < ns <= Millis(ns) * 1_000_000
  {
    var n: int := ns;
    var size := if n >= 0 then n else -n;
    assert size / 1000 / 1000 == size / 1_000_000;
  }

  /** Why a frame with rows is refused before its labels are looked at. */
  function FrameRefusal(f: FrameVal): Option<TsdbError> {
    if f.indices == [] then Some(NoIndices)
    else if TimeIndex(f.indices) < 0 then Some(NoTimeIndex)
    else if exists c :: 0 <= c < |f.columns| && Resolved(f.columns)[c].dtype !in {IntType, FloatType} then Some(BadType)
    else None
  }

  function Names(vs: seq<ColVal>): seq<string> {
    seq(|vs|, i requires 0 <= i < |vs| => vs[i].name)
  }

  function TimesArray(time: ColVal): seq<int64> {
    seq(|time.cells|, r requires 0 <= r < |time.cells| =>
      if time.cells[r].TimeCell? then Millis(NSToTime(time.cells[r].ns).UnixNano()) else 0)
  }

  function Numbers(col: ColVal): seq<Float> {
    seq(|col.cells|, r requires 0 <= r < |col.cells| => Number(col.cells[r]))
  }

  function Texts(col: ColVal, fmt: Formats): seq<string> {
    seq(|col.cells|, r requires 0 <= r < |col.cells| => Text(fmt, col.cells[r]))
  }

  ghost function JobOf(f: FrameVal, labels: map<string, string>, fmt: Formats): (job: Job)
    requires FrameOk(f) && TimeIndex(f.indices) >= 0
    ensures job.Valid() && |job.times| == Height(f) && |job.names| == |f.columns|
    ensures |job.extra| == |f.indices| - 1
  {
    var others := Others(f.indices);
    Job(labels, Names(f.columns), TimesArray(f.indices[TimeIndex(f.indices)]),
        seq(|f.columns|, c requires 0 <= c < |f.columns| => Numbers(Resolved(f.columns)[c])),
        Names(others), seq(|others|, j requires 0 <= j < |others| => Texts(others[j], fmt)))
  }

  lemma TimeOfRow(f: FrameVal, row: nat)
    requires FrameOk(f) && TimeIndex(f.indices) >= 0 && row < Height(f)
    ensures var time := f.indices[TimeIndex(f.indices)];
      && |time.cells| == Height(f) && time.cells[row].TimeCell?
      && TimesArray(time)[row] == Quot(time.cells[row].ns, 1_000_000)
  {
    var time := f.indices[TimeIndex(f.indices)];
    assert time.cells[row].DType() == TimeType;
    NSToTimeExact(time.cells[row].ns);
    MillisTruncate(time.cells[row].ns);
  }

  lemma NumberOfCell(f: FrameVal, row: nat, col: nat)
    requires FrameOk(f) && FrameRefusal(f) == None && row < Height(f) && col < |f.columns|
    ensures var c := Resolved(f.columns)[col];
      && |c.cells| == Height(f) && c.name == f.columns[col].name
      && (c.cells[row].IntCell? || c.cells[row].FloatCell?)
  {
    var k := LastNamed(f.columns, f.columns[col].name);
    assert k >= col && Resolved(f.columns)[col] == f.columns[k] && Numeric(Resolved(f.columns)[col].dtype);
    assert f.columns[k].cells[row].DType() == f.columns[k].dtype;
  }

  /** The extra index values of a row, as text. */
  lemma TupleOfRow(f: FrameVal, labels: map<string, string>, fmt: Formats, row: nat)
    requires FrameOk(f) && TimeIndex(f.indices) >= 0 && row < Height(f)
    ensures JobOf(f, labels, fmt).Tuple(row) == seq(|f.indices| - 1, j requires 0 <= j < |f.indices| - 1 =>
      Text(fmt, f.indices[Skip(TimeIndex(f.indices), j)].cells[row]))
  {
  }

  // --- What the sample of a cell is ------------------------------------------------------------------------

  predicate IsLastTime(indices: seq<ColVal>, t: nat) {
    t < |indices| && indices[t].dtype == TimeType && forall d :: t < d < |indices| ==> indices[d].dtype != TimeType
  }

  /** The row's time in milliseconds, cut off toward the epoch. */
  predicate HasTime(f: FrameVal, row: nat, time: int64) {
    forall t :: 0 <= t < |f.indices| && IsLastTime(f.indices, t) ==>
      && row < |f.indices[t].cells| && f.indices[t].cells[row].TimeCell?
      && var ns := f.indices[t].cells[row].ns;
      && (ns >= 0 ==> time * 1_000_000 <= ns < (time + 1) * 1_000_000)
      && (ns < 0 ==> (time - 1) * 1_000_000 < ns <= time * 1_000_000)
  }

  /** The number in the row, of the last column with this column's name. */
  predicate HasNumber(f: FrameVal, row: nat, col: nat, value: Float)
    requires col < |f.columns|
  {
    forall k :: 0 <= k < |f.columns| && IsLastNamed(f.columns, k, f.columns[col].name) ==>
      row < |f.columns[k].cells| &&
      match f.columns[k].cells[row]
      case IntCell(i) => value == Num(i as real)
      case FloatCell(x) => value == x
      case _ => false
  }

  function OtherNames(indices: seq<ColVal>, t: nat): seq<string>
    requires t < |indices|
  {
    seq(|indices| - 1, j requires 0 <= j < |indices| - 1 => indices[if j < t then j else j + 1].name)
  }

  /** `texts` are the row's values in the other indices. */
  ghost predicate AreTexts(indices: seq<ColVal>, t: nat, fmt: Formats, row: nat, texts: seq<string>)
    requires t < |indices|
  {
    |texts| == |indices| - 1 &&
    forall j :: 0 <= j < |texts| ==>
      var index := indices[if j < t then j else j + 1];
      row < |index.cells| && IsText(fmt, index.cells[row], texts[j])
  }

  /** The frame's labels, the column's name, and the row's value in each other index under that index's name. */
  ghost predicate HasSeries(f: FrameVal, labels: map<string, string>, fmt: Formats, row: nat, col: nat, lset: Lset)
    requires col < |f.columns|
  {
    forall t :: 0 <= t < |f.indices| && IsLastTime(f.indices, t) ==>
      exists texts :: AreTexts(f.indices, t, fmt, row, texts)
                      && HasLabels(lset, labels, f.columns[col].name, OtherNames(f.indices, t), texts)
  }

  /** The sample that cell (row, col) of a frame is to become. */
  ghost predicate IsSampleOf(f: FrameVal, labels: map<string, string>, fmt: Formats, row: nat, col: nat, sample: Sample)
    requires col < |f.columns|
  {
    HasTime(f, row, sample.time) && HasNumber(f, row, col, sample.value) && HasSeries(f, labels, fmt, row, col, sample.lset)
  }

  lemma TimeOfSample(f: FrameVal, row: nat)
    requires FrameOk(f) && TimeIndex(f.indices) >= 0 && row < Height(f)
    ensures row < |TimesArray(f.indices[TimeIndex(f.indices)])|
    ensures HasTime(f, row, TimesArray(f.indices[TimeIndex(f.indices)])[row])
  {
    TimeOfRow(f, row);
    var t := TimeIndex(f.indices);
    MillisTruncate(f.indices[t].cells[row].ns);
    hide TimeIndex, TimesArray, Quot, Millis, FrameOk;
  }

  lemma NumberOfSample(f: FrameVal, row: nat, col: nat)
    requires FrameOk(f) && FrameRefusal(f) == None && row < Height(f) && col < |f.columns|
    ensures row < |Numbers(Resolved(f.columns)[col])|
    ensures HasNumber(f, row, col, Numbers(Resolved(f.columns)[col])[row])
  {
    NumberOfCell(f, row, col);
    var k := LastNamed(f.columns, f.columns[col].name);
    assert k >= col && Resolved(f.columns)[col] == f.columns[k];
    hide LastNamed, Resolved, FrameOk, FrameRefusal;
  }

  lemma SeriesOfSample(f: FrameVal, labels: map<string, string>, fmt: Formats, row: nat, col: nat)
    requires FrameOk(f) && TimeIndex(f.indices) >= 0 && row < Height(f) && col < |f.columns|
    ensures HasSeries(f, labels, fmt, row, col, JobOf(f, labels, fmt).LsetAt(row, col))
  {
    var t := TimeIndex(f.indices);
    var job := JobOf(f, labels, fmt);
    var texts := job.Tuple(row);
    TupleOfRow(f, labels, fmt, row);
    LsetHasLabels(labels, f.columns[col].name, job.extraNames, texts);
    assert job.names[col] == f.columns[col].name && job.extraNames == OtherNames(f.indices, t);
    forall j | 0 <= j < |texts|
      ensures var index := f.indices[if j < t then j else j + 1]; row < |index.cells| && IsText(fmt, index.cells[row], texts[j])
    {
      TextIsText(fmt, f.indices[Skip(t, j)].cells[row]);
    }
    assert AreTexts(f.indices, t, fmt, row, texts);
    hide TimeIndex, LsetOf, HasLabels, AreTexts, FrameOk;
  }

  /** Cell (row, col) of a frame and the sample it is prepared to become. */
  lemma SampleOfCell(f: FrameVal, labels: map<string, string>, fmt: Formats, row: nat, col: nat)
    requires FrameOk(f) && FrameRefusal(f) == None && row < Height(f) && col < |f.columns|
    ensures IsSampleOf(f, labels, fmt, row, col, JobOf(f, labels, fmt).SampleAt(row, col))
  {
    TimeOfSample(f, row);
    NumberOfSample(f, row, col);
    SeriesOfSample(f, labels, fmt, row, col);
    hide HasTime, HasNumber, HasSeries, TimeIndex, TimesArray, Numbers, Resolved, FrameOk, LsetOf, Texts, Names, Others;
  }

  lemma {:induction false} Position(q: nat, rows: nat, width: nat)
    requires width > 0 && q < rows * width
    ensures q / width < rows && q == q / width * width + q % width
  {
    if q / width >= rows {
      RowsBelow(rows - 1, q / width, width);
      OneRowMore(rows, width);
    }
  }

  /** Whatever was stored is, position by position, the sample of that cell. */
  lemma StoredSamples(f: FrameVal, labels: map<string, string>, fmt: Formats, was: seq<Sample>, now: seq<Sample>)
    requires FrameOk(f) && FrameRefusal(f) == None && Height(f) > 0
    requires Between(was, now, JobOf(f, labels, fmt).Samples(Height(f)))
    ensures AreSamplesOf(f, labels, fmt, now[|was|..])
    ensures now == was + JobOf(f, labels, fmt).Samples(Height(f)) ==> |now| == |was| + Height(f) * |f.columns|
  {
    var job, n, w := JobOf(f, labels, fmt), Height(f), |f.columns|;
    hide FrameOk, FrameRefusal, IsSampleOf, JobOf, Height;
    SampleCount(job, n);
    var stored := now[|was|..];
    forall q | 0 <= q < |stored| ensures IsSampleOf(f, labels, fmt, q / w, q % w, stored[q]) {
      assert stored[q] == job.Samples(n)[q];
      Position(q, n, w);
      RowMajor(job, n, q / w, q % w);
      SampleOfCell(f, labels, fmt, q / w, q % w);
    }
  }

  /** Samples of the frame's cells from the first on, row by row and column by column within a row. */
  ghost predicate AreSamplesOf(f: FrameVal, labels: map<string, string>, fmt: Formats, stored: seq<Sample>) {
    forall q :: 0 <= q < |stored| ==>
      f.columns != [] && IsSampleOf(f, labels, fmt, q / |f.columns|, q % |f.columns|, stored[q])
  }

  // --- The appender ----------------------------------------------------------------------------------------

  /** Labels come as text. */
  class TsdbAppender {
    const store: Store
    const fmt: Formats

    constructor (store: Store, fmt: Formats)
      ensures this.store == store && this.fmt == fmt
    {
      this.store, this.fmt := store, fmt;
    }

    /**
      * `Add`: what is stored is what a writer that looks up every sample would store, or on an error
      * from the store a beginning of it; there is one lookup per column and run of equal indices.
      */
    method Add(f: FrameVal, labels: map<string, string>) returns (outcome: Outcome)
      requires FrameOk(f)
      modifies store
      ensures Height(f) == 0 ==> outcome == Ok && Untouched(old(store.samples), old(store.lookups))
      ensures Height(f) > 0 && FrameRefusal(f).Some? ==>
                outcome == Refused(FrameRefusal(f).value) && Untouched(old(store.samples), old(store.lookups))
      ensures Height(f) > 0 && FrameRefusal(f).None? ==>
                && Written(JobOf(f, labels, fmt), old(store.samples), old(store.lookups), outcome)
                && old(store.samples) <= store.samples
                && AreSamplesOf(f, labels, fmt, store.samples[|old(store.samples)|..])
                && (outcome == Ok ==> |store.samples| == |old(store.samples)| + Height(f) * |f.columns|)
      ensures outcome == StoreFailed <==> store.refused > old(store.refused)
    {
      hide Job.Samples, Job.Runs, Job.RowSamples, LsetOf, TimeIndex, Resolved, Texts, Numbers, TimesArray, Between, Typed;
      hide AreSamplesOf;
      if Height(f) == 0 {
        return Ok;
      }
      if f.indices == [] {
        return Refused(NoIndices);
      }
      var timeColIndex := FindTimeIndex(f.indices);
      if timeColIndex == -1 {
        return Refused(NoTimeIndex);
      }
      forall r | 0 <= r < Height(f) ensures f.indices[timeColIndex].cells[r].TimeCell? {
        TimeOfRow(f, r);
      }
      var tarray := ReadTimes(f.indices[timeColIndex]);
      var values := ReadValues(f);
      if values.Failure? {
        return Refused(values.error);
      }
      var extraNames, extra := ReadIndices(f.indices, timeColIndex, fmt);
      var job := Job(labels, Names(f.columns), tarray, values.value, extraNames, extra);
      assert job == JobOf(f, labels, fmt);
      if |f.indices| == 1 {
        outcome := WriteSingle(store, job);
        OneRun(job, |job.times|);
      } else {
        outcome := WriteMulti(store, job);
      }
      BetweenStarts(old(store.samples), store.samples, job.Samples(|job.times|));
      StoredSamples(f, labels, fmt, old(store.samples), store.samples);
    }

    ghost predicate Untouched(samples: seq<Sample>, lookups: nat)
      reads store
    {
      store.samples == samples && store.lookups == lookups
    }

    /** The outcome of a write, and what it left in the store. */
    ghost predicate Written(job: Job, samples: seq<Sample>, lookups: nat, outcome: Outcome)
      requires job.Valid() && |job.times| > 0
      reads store
    {
      var n := |job.times|;
      && (outcome == NilPanic <==> job.extra != [] && StartsEmpty(job))
      && (outcome == Refused(OutOfOrder) <==> job.extra == [] && job.times[0] > job.times[n - 1])
      && (outcome == Refused(NameLabel) <==> NameClash(job) && outcome != NilPanic && outcome != Refused(OutOfOrder))
      && (outcome.Refused? ==> outcome.error in {OutOfOrder, NameLabel})
      && (outcome.Refused? || outcome.NilPanic? ==> Untouched(samples, lookups))
      && (outcome.Ok? ==> Untouched(samples + job.Samples(n), lookups + |job.names| * job.Runs(n)))
      && Between(samples, store.samples, job.Samples(n))
    }
  }

  lemma BetweenStarts(was: seq<Sample>, now: seq<Sample>, more: seq<Sample>)
    requires Between(was, now, more)
    ensures was <= now
  {
  }

  lemma {:induction false} OneRun(job: Job, rows: nat)
    requires job.Valid() && rows <= |job.times| && job.extra == []
    ensures job.Runs(rows) == if rows == 0 then 0 else 1
  {
    if rows > 1 {
      OneRun(job, rows - 1);
      assert job.Tuple(rows - 1) == [] == job.Tuple(rows - 2);
    }
  }

  method FindTimeIndex(indices: seq<ColVal>) returns (timeColIndex: int)
    ensures timeColIndex == TimeIndex(indices)
  {
    timeColIndex := -1;
    for i := 0 to |indices|
      invariant timeColIndex == TimeIndex(indices[..i])
    {
      assert indices[..i + 1][..i] == indices[..i];
      if indices[i].dtype == TimeType {
        timeColIndex := i;
      }
    }
    assert indices[..|indices|] == indices;
  }

  method ReadTimes(time: ColVal) returns (tarray: seq<int64>)
    requires forall r :: 0 <= r < |time.cells| ==> time.cells[r].TimeCell?
    ensures tarray == TimesArray(time)
  {
    tarray := [];
    for r := 0 to |time.cells|
      invariant tarray == TimesArray(time)[..r]
    {
      tarray := tarray + [Millis(NSToTime(time.cells[r].ns).UnixNano())];
    }
  }

  method ReadValues(f: FrameVal) returns (r: Result<seq<seq<Float>>, TsdbError>)
    ensures r.Failure? <==> exists c :: 0 <= c < |f.columns| && !Numeric(Resolved(f.columns)[c].dtype)
    ensures r.Failure? ==> r.error == BadType
    ensures r.Success? ==> r.value == seq(|f.columns|, c requires 0 <= c < |f.columns| => Numbers(Resolved(f.columns)[c]))
  {
    var values := [];
    for c := 0 to |f.columns|
      invariant |values| == c && forall k :: 0 <= k < c ==> values[k] == Numbers(Resolved(f.columns)[k])
      invariant forall k :: 0 <= k < c ==> Numeric(Resolved(f.columns)[k].dtype)
    {
      var col := f.columns[LastNamed(f.columns, f.columns[c].name)];
      assert col == Resolved(f.columns)[c];
      if !Numeric(col.dtype) {
        return Failure(BadType);
      }
      values := values + [Numbers(col)];
    }
    r := Success(values);
  }

  method ReadIndices(indices: seq<ColVal>, timeColIndex: nat, fmt: Formats)
    returns (names: seq<string>, extra: seq<seq<string>>)
    requires timeColIndex == TimeIndex(indices)
    ensures names == Names(Others(indices))
    ensures extra == seq(|indices| - 1, j requires 0 <= j < |indices| - 1 => Texts(Others(indices)[j], fmt))
  {
    hide TimeIndex, Texts;
    names, extra := [], [];
    for i := 0 to |indices|
      invariant |names| == |extra| == if i <= timeColIndex then i else i - 1
      invariant forall j :: 0 <= j < |names| ==>
        names[j] == indices[Skip(timeColIndex, j)].name && extra[j] == Texts(indices[Skip(timeColIndex, j)], fmt)
    {
      if i != timeColIndex {
        names, extra := names + [indices[i].name], extra + [Texts(indices[i], fmt)];
      }
    }
  }
}
