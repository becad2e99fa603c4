/** Totals of cron run logs: nested counts per job and per model, and the report rows. */
module CronUsage {
  import opened Options
  import opened Text

  /** A token count of the log: missing, null, or a number. */
  datatype Tokens = Absent | Null | Num(value: real)

  datatype Usage = Usage(input: Tokens, output: Tokens, total: Tokens)

  datatype Entry = Entry(ts: real, jobId: string, model: Option<string>, usage: Option<Usage>)

  /** A log line; `None` is a line that does not parse to a finished run. */
  type Line = Option<Entry>

  /** The time window and the optional filters ("" is no filter). */
  datatype Filter = Filter(from: real, to: real, jobId: string, model: string)

  datatype Stat = Stat(runs: nat, input: nat, output: nat, total: nat, missing: nat)

  datatype JobTotals = JobTotals(stat: Stat, models: map<string, Stat>)

  const ZERO := Stat(0, 0, 0, 0, 0)
  const UNKNOWN := "<unknown>"

  function Add(a: Stat, b: Stat): Stat {
    Stat(a.runs + b.runs, a.input + b.input, a.output + b.output, a.total + b.total, a.missing + b.missing)
  }

  function ModelOf(e: Entry): string {
    var name := Trim(if e.model.Some? then e.model.value else UNKNOWN);
    if name == "" then UNKNOWN else name
  }

  /** `(total ?? input ?? output) !== undefined`: a null output counts as usage, because it is not undefined. */
  predicate HasUsage(e: Entry) {
    e.usage.Some? && (e.usage.value.total.Num? || e.usage.value.input.Num? || !e.usage.value.output.Absent?)
  }

  function CountOr(t: Tokens, default: int): nat {
    Max(0, if t.Num? then Trunc(t.value) else default)
  }

  /** What one run adds to the totals of its job and of its model. */
  function Contribution(e: Entry): Stat {
    if !HasUsage(e) then Stat(1, 0, 0, 0, 1)
    else
      var input, output := CountOr(e.usage.value.input, 0), CountOr(e.usage.value.output, 0);
      Stat(1, input, output, CountOr(e.usage.value.total, input + output), 0)
  }

  predicate Kept(l: Line, f: Filter) {
    && l.Some?
    && f.from <= l.value.ts <= f.to
    && (f.jobId == "" || l.value.jobId == f.jobId)
    && (f.model == "" || ModelOf(l.value) == f.model)
  }

  /** The kept lines of a job, or of one model of a job. */
  predicate Selects(l: Line, f: Filter, job: string, model: Option<string>) {
    Kept(l, f) && l.value.jobId == job && (model.Some? ==> ModelOf(l.value) == model.value)
  }

  ghost function SumOf(lines: seq<Line>, f: Filter, job: string, model: Option<string>): Stat {
    if lines == [] then ZERO
    else
      var init, last := SumOf(lines[..|lines| - 1], f, job, model), lines[|lines| - 1];
      if Selects(last, f, job, model) then Add(init, Contribution(last.value)) else init
  }

  ghost predicate HasRun(lines: seq<Line>, f: Filter, job: string, model: Option<string>) {
    exists l :: l in lines && Selects(l, f, job, model)
  }

  /**
   The totals, said without the loops: a job or model is listed exactly when some kept line has it, and
   its numbers are a direct sum over the kept lines.
   */
  ghost predicate IsReport(totals: map<string, JobTotals>, lines: seq<Line>, f: Filter) {
    && (forall j :: j in totals <==> HasRun(lines, f, j, None))
    && (forall j :: j in totals ==> totals[j].stat == SumOf(lines, f, j, None))
    && (forall j, m :: j in totals ==> (m in totals[j].models <==> HasRun(lines, f, j, Some(m))))
    && (forall j, m :: j in totals && m in totals[j].models ==> totals[j].models[m] == SumOf(lines, f, j, Some(m)))
  }

  ghost function Flatten(files: seq<seq<Line>>): seq<Line> {
    if files == [] then [] else Flatten(files[..|files| - 1]) + files[|files| - 1]
  }

  function Record(totals: map<string, JobTotals>, e: Entry): map<string, JobTotals> {
    var job := if e.jobId in totals then totals[e.jobId] else JobTotals(ZERO, map[]);
    var model := ModelOf(e);
    var cell := if model in job.models then job.models[model] else ZERO;
    totals[e.jobId := JobTotals(Add(job.stat, Contribution(e)), job.models[model := Add(cell, Contribution(e))])]
  }

  /** The field updates of the loop body, on one of the two records it touches. */
  method CountRun(stat: Stat, e: Entry) returns (s: Stat)
    ensures s == Add(stat, Contribution(e))
  {
    s := stat.(runs := stat.runs + 1);
    if !HasUsage(e) {
      s := s.(missing := s.missing + 1);
      return;
    }
    var input, output := CountOr(e.usage.value.input, 0), CountOr(e.usage.value.output, 0);
    var total := CountOr(e.usage.value.total, input + output);
    s := s.(input := s.input + input, output := s.output + output, total := s.total + total);
  }

  /** The body of the loop, which updates the record of the job and, in it, the record of the model. */
  method AddRun(totals0: map<string, JobTotals>, e: Entry) returns (totals: map<string, JobTotals>)
    ensures totals == Record(totals0, e)
  {
    hide ModelOf, Contribution, Add;
    var jobAgg := if e.jobId in totals0 then totals0[e.jobId] else JobTotals(ZERO, map[]);
    var model := ModelOf(e);
    var modelAgg := if model in jobAgg.models then jobAgg.models[model] else ZERO;
    var job := CountRun(jobAgg.stat, e);
    var cell := CountRun(modelAgg, e);
    totals := totals0[e.jobId := JobTotals(job, jobAgg.models[model := cell])];
  }

  // ---------------------------------------------------------------- what the numbers count

  /** The number that a token field carries, cut off at zero, or else the default. */
  ghost predicate Counts(t: Tokens, default: nat, n: nat) {
    match t
    case Num(value) => if value < 1.0 then n == 0 else n as real <= value < n as real + 1.0
    case _ => n == default
  }

  lemma CountExactly(t: Tokens, default: nat)
    ensures Counts(t, default, CountOr(t, default))
  {
  }

  /** The log says nothing about tokens: no usage, or no number in any field and no output field. */
  predicate NoTokens(e: Entry) {
    match e.usage
    case None => true
    case Some(Usage(input, output, total)) => output == Absent && !input.Num? && !total.Num?
  }

  ghost function InputTokens(e: Entry): nat {
    if NoTokens(e) then 0 else CountOr(e.usage.value.input, 0)
  }

  ghost function OutputTokens(e: Entry): nat {
    if NoTokens(e) then 0 else CountOr(e.usage.value.output, 0)
  }

  /** The reported total, or the sum of both counts when none is reported. */
  ghost function TotalTokens(e: Entry): nat {
    if NoTokens(e) then 0 else CountOr(e.usage.value.total, InputTokens(e) + OutputTokens(e))
  }

  /** The line is a run in the window, of the job and the model asked for, and of this job and model. */
  ghost predicate Chosen(l: Line, f: Filter, job: string, model: Option<string>) {
    match l
    case None => false
    case Some(e) =>
      var name := if e.model.None? || Trim(e.model.value) == "" then "<unknown>" else Trim(e.model.value);
      && e.ts >= f.from && e.ts <= f.to
      && e.jobId == job && (f.jobId == "" || f.jobId == job)
      && (f.model == "" || f.model == name) && (model == None || model == Some(name))
  }

  lemma ChosenExactly(l: Line, f: Filter, job: string, model: Option<string>)
    ensures Selects(l, f, job, model) <==> Chosen(l, f, job, model)
  {
    hide Trim;
    if l.Some? && l.value.model.None? {
      UnknownIsTidy();
    }
  }

  lemma UnknownIsTidy()
    ensures Trim("<unknown>") == "<unknown>"
  {
    TrimFixpoint("<unknown>");
  }

  /** The sum of one number over the chosen lines. */
  ghost function SumBy(lines: seq<Line>, f: Filter, job: string, model: Option<string>, number: Entry -> nat): nat {
    if lines == [] then 0
    else
      var last := lines[|lines| - 1];
      SumBy(lines[..|lines| - 1], f, job, model, number)
      + if Chosen(last, f, job, model) then number(last.value) else 0
  }

  /** Each number of a total is the sum of that number over the runs it is about. */
  lemma {:induction false} TotalsAreSums(lines: seq<Line>, f: Filter, job: string, model: Option<string>)
    ensures var s := SumOf(lines, f, job, model);
            && s.runs == SumBy(lines, f, job, model, (e: Entry) => 1)
            && s.missing == SumBy(lines, f, job, model, (e: Entry) => if NoTokens(e) then 1 else 0)
            && s.input == SumBy(lines, f, job, model, InputTokens)
            && s.output == SumBy(lines, f, job, model, OutputTokens)
            && s.total == SumBy(lines, f, job, model, TotalTokens)
    decreases |lines|
  {
    hide Selects, Chosen, CountOr;
    if lines != [] {
      var n := |lines| - 1;
      TotalsAreSums(lines[..n], f, job, model);
      ChosenExactly(lines[n], f, job, model);
      assert Chosen(lines[n], f, job, model) ==> lines[n].Some? by {
        ChosenIsRun(lines[n], f, job, model);
      }
    }
  }

  lemma ChosenIsRun(l: Line, f: Filter, job: string, model: Option<string>)
    ensures Chosen(l, f, job, model) ==> l.Some?
  {
  }

  // ---------------------------------------------------------------- the loops

  lemma SumSnoc(lines: seq<Line>, l: Line, f: Filter, job: string, model: Option<string>)
    ensures SumOf(lines + [l], f, job, model)
         == if Selects(l, f, job, model) then Add(SumOf(lines, f, job, model), Contribution(l.value))
             else SumOf(lines, f, job, model)
    ensures HasRun(lines + [l], f, job, model) <==> HasRun(lines, f, job, model) || Selects(l, f, job, model)
  {
    assert (lines + [l])[..|lines|] == lines;
    assert forall x :: x in lines + [l] <==> x in lines || x == l;
  }

  lemma {:induction false} NoRunNoSum(lines: seq<Line>, f: Filter, job: string, model: Option<string>)
    requires !HasRun(lines, f, job, model)
    ensures SumOf(lines, f, job, model) == ZERO
    decreases |lines|
  {
    if lines != [] {
      assert lines[|lines| - 1] in lines;
      assert forall l :: l in lines[..|lines| - 1] ==> l in lines;
      NoRunNoSum(lines[..|lines| - 1], f, job, model);
    }
  }

  lemma ModelRunIsJobRun(lines: seq<Line>, f: Filter, job: string, model: string)
    ensures HasRun(lines, f, job, Some(model)) ==> HasRun(lines, f, job, None)
  {
    if HasRun(lines, f, job, Some(model)) {
      var l :| l in lines && Selects(l, f, job, Some(model));
      assert Selects(l, f, job, None);
    }
  }

  lemma RecordKeepsReport(totals: map<string, JobTotals>, lines: seq<Line>, f: Filter, e: Entry)
    requires IsReport(totals, lines, f) && Kept(Some(e), f)
    ensures IsReport(Record(totals, e), lines + [Some(e)], f)
  {
    hide HasRun, SumOf, Kept, Contribution, ModelOf, Add;
    var r, lines' := Record(totals, e), lines + [Some(e)];
    forall j
      ensures j in r <==> HasRun(lines', f, j, None)
      ensures j in r ==> r[j].stat == SumOf(lines', f, j, None)
    {
      SumSnoc(lines, Some(e), f, j, None);
      if !HasRun(lines, f, j, None) {
        NoRunNoSum(lines, f, j, None);
      }
    }
    forall j, m | j in r
      ensures m in r[j].models <==> HasRun(lines', f, j, Some(m))
      ensures m in r[j].models ==> r[j].models[m] == SumOf(lines', f, j, Some(m))
    {
      SumSnoc(lines, Some(e), f, j, Some(m));
      ModelRunIsJobRun(lines, f, j, m);
      if !HasRun(lines, f, j, Some(m)) {
        NoRunNoSum(lines, f, j, Some(m));
      }
    }
  }

  lemma SkipKeepsReport(totals: map<string, JobTotals>, lines: seq<Line>, f: Filter, l: Line)
    requires IsReport(totals, lines, f) && !Kept(l, f)
    ensures IsReport(totals, lines + [l], f)
  {
    hide HasRun, SumOf, Kept;
    forall j, m
      ensures HasRun(lines + [l], f, j, m) <==> HasRun(lines, f, j, m)
      ensures SumOf(lines + [l], f, j, m) == SumOf(lines, f, j, m)
    {
      SumSnoc(lines, l, f, j, m);
    }
  }

  lemma EmptyReport(f: Filter)
    ensures IsReport(map[], [], f)
  {
  }

  method Aggregate(files: seq<seq<Line>>, f: Filter) returns (totals: map<string, JobTotals>)
    ensures IsReport(totals, Flatten(files), f)
  {
    hide IsReport, Record;
    totals := map[];
    EmptyReport(f);
    for i := 0 to |files|
      invariant IsReport(totals, Flatten(files[..i]), f)
    {
      ghost var before := Flatten(files[..i]);
      var lines := files[i];
      assert before + lines[..0] == before;
      for k := 0 to |lines|
        invariant IsReport(totals, before + lines[..k], f)
      {
        var entry := lines[k];
        assert before + lines[..k + 1] == before + lines[..k] + [entry];
        if !Kept(entry, f) {
          SkipKeepsReport(totals, before + lines[..k], f, entry);
          continue;
        }
        RecordKeepsReport(totals, before + lines[..k], f, entry.value);
        totals := AddRun(totals, entry.value);
      }
      assert before + lines[..|lines|] == before + lines;
      assert files[..i + 1][..i] == files[..i];
    }
    assert files[..|files|] == files;
  }

  // ---------------------------------------------------------------- a job is the sum of its models

  ghost function SumOver(models: map<string, Stat>): Stat {
    if models == map[] then ZERO
    else
      var m :| m in models;
      Add(models[m], SumOver(models - {m}))
  }

  lemma {:induction false} SumOverRemove(models: map<string, Stat>, m: string)
    requires m in models
    ensures SumOver(models) == Add(models[m], SumOver(models - {m}))
    decreases |models|
  {
    var k :| k in models && SumOver(models) == Add(models[k], SumOver(models - {k}));
    if k != m {
      SumOverRemove(models - {k}, m);
      SumOverRemove(models - {m}, k);
      assert models - {k} - {m} == models - {m} - {k};
      AddSwap(models[k], models[m], SumOver(models - {m} - {k}));
    }
  }

  lemma AddSwap(a: Stat, b: Stat, c: Stat)
    ensures Add(a, Add(b, c)) == Add(b, Add(a, c))
    ensures Add(Add(a, b), c) == Add(a, Add(b, c))
  {
  }

  /** Adding to one model's cell adds to the sum over the models. */
  lemma SumOverAdd(models: map<string, Stat>, m: string, s: Stat)
    ensures SumOver(models[m := Add(if m in models then models[m] else ZERO, s)]) == Add(SumOver(models), s)
  {
    var updated := models[m := Add(if m in models then models[m] else ZERO, s)];
    SumOverRemove(updated, m);
    assert updated - {m} == models - {m};
    if m in models {
      SumOverRemove(models, m);
    } else {
      assert models - {m} == models;
    }
  }

  /** The cells of one job: the sum of each model that some kept line has. */
  ghost function Cells(lines: seq<Line>, f: Filter, job: string): map<string, Stat> {
    if lines == [] then map[]
    else
      var cells, last := Cells(lines[..|lines| - 1], f, job), lines[|lines| - 1];
      if Selects(last, f, job, None) then
        var m := ModelOf(last.value);
        cells[m := Add(if m in cells then cells[m] else ZERO, Contribution(last.value))]
      else cells
  }

  lemma {:induction false} CellsSumToJob(lines: seq<Line>, f: Filter, job: string)
    ensures SumOver(Cells(lines, f, job)) == SumOf(lines, f, job, None)
    decreases |lines|
  {
    if lines != [] {
      var n := |lines| - 1;
      CellsSumToJob(lines[..n], f, job);
      if Selects(lines[n], f, job, None) {
        SumOverAdd(Cells(lines[..n], f, job), ModelOf(lines[n].value), Contribution(lines[n].value));
      }
    }
  }

  lemma {:induction false} CellsExactly(lines: seq<Line>, f: Filter, job: string, m: string)
    ensures m in Cells(lines, f, job) <==> HasRun(lines, f, job, Some(m))
    ensures m in Cells(lines, f, job) ==> Cells(lines, f, job)[m] == SumOf(lines, f, job, Some(m))
    decreases |lines|
  {
    hide HasRun, Kept, ModelOf, Contribution, Add;
    if lines == [] {
      NoLines(f, job, m);
    } else {
      var n := |lines| - 1;
      assert lines == lines[..n] + [lines[n]];
      CellsExactly(lines[..n], f, job, m);
      SumSnoc(lines[..n], lines[n], f, job, Some(m));
      if !HasRun(lines[..n], f, job, Some(m)) {
        NoRunNoSum(lines[..n], f, job, Some(m));
      }
    }
  }

  lemma NoLines(f: Filter, job: string, m: string)
    ensures !HasRun([], f, job, Some(m))
  {
  }

  /** Conservation: every count of a job is the sum of that count over its models. */
  lemma JobIsSumOfModels(totals: map<string, JobTotals>, lines: seq<Line>, f: Filter, job: string)
    requires IsReport(totals, lines, f) && job in totals
    ensures totals[job].stat == SumOver(totals[job].models)
  {
    hide HasRun, SumOf, Cells;
    var cells := Cells(lines, f, job);
    forall m
      ensures m in cells <==> m in totals[job].models
      ensures m in cells ==> cells[m] == totals[job].models[m]
    {
      CellsExactly(lines, f, job, m);
    }
    assert cells == totals[job].models;
    CellsSumToJob(lines, f, job);
  }

  // ---------------------------------------------------------------- order does not matter

  lemma {:induction false} SumRemove(lines: seq<Line>, i: nat, f: Filter, job: string, model: Option<string>)
    requires i < |lines|
    ensures var rest := SumOf(lines[..i] + lines[i + 1..], f, job, model);
            SumOf(lines, f, job, model)
              == if Selects(lines[i], f, job, model) then Add(rest, Contribution(lines[i].value)) else rest
    decreases |lines|
  {
    hide Kept, Contribution, ModelOf;
    var n := |lines| - 1;
    assert lines == lines[..n] + [lines[n]];
    SumSnoc(lines[..n], lines[n], f, job, model);
    if i == n {
      assert lines[..i] + lines[i + 1..] == lines[..n];
    } else {
      SumRemove(lines[..n], i, f, job, model);
      var shorter := lines[..n][..i] + lines[..n][i + 1..];
      assert lines[..i] + lines[i + 1..] == shorter + [lines[n]];
      SumSnoc(shorter, lines[n], f, job, model);
    }
  }

  lemma {:induction false} SumOfPermuted(a: seq<Line>, b: seq<Line>, f: Filter, job: string, model: Option<string>)
    requires multiset(a) == multiset(b)
    ensures SumOf(a, f, job, model) == SumOf(b, f, job, model)
    decreases |a|
  {
    hide Kept, Contribution, ModelOf, Selects;
    if a == [] {
      assert |multiset(b)| == 0;
    } else {
      var n := |a| - 1;
      var last := a[n];
      assert last in multiset(b);
      var i :| 0 <= i < |b| && b[i] == last;
      var rest := b[..i] + b[i + 1..];
      assert a == a[..n] + [last];
      assert b == b[..i] + [last] + b[i + 1..];
      assert multiset(a[..n]) == multiset(a) - multiset{last};
      assert multiset(rest) == multiset(b) - multiset{last};
      SumOfPermuted(a[..n], rest, f, job, model);
      SumSnoc(a[..n], last, f, job, model);
      SumRemove(b, i, f, job, model);
    }
  }

  /** The totals depend on which lines there are, not on the order of files or of lines within them. */
  lemma ReportIsOrderFree(t: map<string, JobTotals>, u: map<string, JobTotals>, a: seq<Line>, b: seq<Line>, f: Filter)
    requires IsReport(t, a, f) && IsReport(u, b, f) && multiset(a) == multiset(b)
    ensures t == u
  {
    hide SumOf, Selects;
    assert forall l :: l in a <==> l in multiset(a);
    assert forall l :: l in b <==> l in multiset(b);
    assert forall j, m :: HasRun(a, f, j, m) <==> HasRun(b, f, j, m);
    forall j | j in t
      ensures j in u && t[j] == u[j]
    {
      SumOfPermuted(a, b, f, j, None);
      forall m
        ensures m in t[j].models <==> m in u[j].models
        ensures m in t[j].models ==> t[j].models[m] == u[j].models[m]
      {
        assert HasRun(a, f, j, Some(m)) <==> HasRun(b, f, j, Some(m));
        SumOfPermuted(a, b, f, j, Some(m));
      }
      assert t[j].models == u[j].models;
    }
  }

  // ---------------------------------------------------------------- the report rows

  /** A stable sort by descending key, what `toSorted((a, b) => b.key - a.key)` gives. */
  function SortDescending<T>(xs: seq<T>, key: T -> int): seq<T> {
    if xs == [] then [] else InsertLast(SortDescending(xs[..|xs| - 1], key), xs[|xs| - 1], key)
  }

  /** Insert after every element whose key is at least x's. */
  function InsertLast<T>(xs: seq<T>, x: T, key: T -> int): seq<T> {
    if xs == [] || key(xs[|xs| - 1]) >= key(x) then xs + [x]
    else InsertLast(xs[..|xs| - 1], x, key) + [xs[|xs| - 1]]
  }

  ghost predicate Descending<T>(xs: seq<T>, key: T -> int) {
    forall i, j :: 0 <= i < j < |xs| ==> key(xs[i]) >= key(xs[j])
  }

  /** The elements of one key, in order. */
  ghost function WithKey<T>(xs: seq<T>, key: T -> int, k: int): seq<T> {
    if xs == [] then [] else WithKey(xs[..|xs| - 1], key, k) + if key(xs[|xs| - 1]) == k then [xs[|xs| - 1]] else []
  }

  lemma {:induction false} InsertLastMembers<T>(xs: seq<T>, x: T, key: T -> int)
    ensures multiset(InsertLast(xs, x, key)) == multiset(xs) + multiset{x}
    decreases |xs|
  {
    if xs != [] && key(xs[|xs| - 1]) < key(x) {
      assert xs == xs[..|xs| - 1] + [xs[|xs| - 1]];
      InsertLastMembers(xs[..|xs| - 1], x, key);
    }
  }

  lemma {:induction false} InsertLastDescends<T>(xs: seq<T>, x: T, key: T -> int)
    requires Descending(xs, key)
    ensures Descending(InsertLast(xs, x, key), key)
    decreases |xs|
  {
    if xs != [] && key(xs[|xs| - 1]) < key(x) {
      var init, last := xs[..|xs| - 1], xs[|xs| - 1];
      var r := InsertLast(init, x, key);
      InsertLastDescends(init, x, key);
      InsertLastMembers(init, x, key);
      AllAtLeast(r, init, x, key, key(last));
    }
  }

  lemma AllAtLeast<T>(r: seq<T>, init: seq<T>, x: T, key: T -> int, least: int)
    requires multiset(r) == multiset(init) + multiset{x}
    requires key(x) >= least && forall i :: 0 <= i < |init| ==> key(init[i]) >= least
    ensures forall i :: 0 <= i < |r| ==> key(r[i]) >= least
  {
    forall i | 0 <= i < |r|
      ensures key(r[i]) >= least
    {
      assert r[i] in multiset(r);
      assert r[i] in multiset(init) || r[i] == x;
    }
  }

  lemma {:induction false} InsertLastIsStable<T>(xs: seq<T>, x: T, key: T -> int, k: int)
    requires Descending(xs, key)
    ensures WithKey(InsertLast(xs, x, key), key, k)
         == if key(x) == k then WithKey(xs, key, k) + [x] else WithKey(xs, key, k)
    decreases |xs|
  {
    hide WithKey;
    if xs == [] || key(xs[|xs| - 1]) >= key(x) {
      WithKeySnoc(xs, x, key, k);
    } else {
      var init, last := xs[..|xs| - 1], xs[|xs| - 1];
      InsertLastIsStable(init, x, key, k);
      assert xs == init + [last];
      WithKeySnoc(init, last, key, k);
      WithKeySnoc(InsertLast(init, x, key), last, key, k);
    }
  }

  lemma WithKeySnoc<T>(xs: seq<T>, x: T, key: T -> int, k: int)
    ensures WithKey(xs + [x], key, k) == if key(x) == k then WithKey(xs, key, k) + [x] else WithKey(xs, key, k)
  {
    assert (xs + [x])[..|xs|] == xs;
  }

  /** The sort is a permutation into descending order that keeps equal keys in their given order. */
  lemma {:induction false} SortDescendingExactly<T>(xs: seq<T>, key: T -> int)
    ensures Descending(SortDescending(xs, key), key)
    ensures multiset(SortDescending(xs, key)) == multiset(xs)
    ensures forall k :: WithKey(SortDescending(xs, key), key, k) == WithKey(xs, key, k)
    decreases |xs|
  {
    if xs != [] {
      var init, last := xs[..|xs| - 1], xs[|xs| - 1];
      SortDescendingExactly(init, key);
      assert xs == init + [last];
      InsertLastMembers(SortDescending(init, key), last, key);
      InsertLastDescends(SortDescending(init, key), last, key);
      forall k
        ensures WithKey(SortDescending(xs, key), key, k) == WithKey(xs, key, k)
      {
        InsertLastIsStable(SortDescending(init, key), last, key, k);
      }
    }
  }

  datatype ModelRow = ModelRow(model: string, stat: Stat)

  datatype JobRow = JobRow(jobId: string, stat: Stat, models: seq<ModelRow>)

  /** The order in which an object's properties are enumerated: each once. */
  ghost predicate Enumerates(names: seq<string>, keys: set<string>) {
    && (forall i, j :: 0 <= i < j < |names| ==> names[i] != names[j])
    && (forall n :: n in names <==> n in keys)
  }

  function ModelRows(models: map<string, Stat>, names: seq<string>): seq<ModelRow>
    requires forall n :: n in names ==> n in models
  {
    SortDescending(seq(|names|, i requires 0 <= i < |names| => ModelRow(names[i], models[names[i]])),
                   (r: ModelRow) => r.stat.total)
  }

  ghost predicate Enumerable(totals: map<string, JobTotals>, jobs: seq<string>, models: map<string, seq<string>>) {
    && Enumerates(jobs, totals.Keys)
    && forall j :: j in totals ==> j in models && Enumerates(models[j], totals[j].models.Keys)
  }

  function JobRows(totals: map<string, JobTotals>, jobs: seq<string>, models: map<string, seq<string>>): seq<JobRow>
    requires Enumerable(totals, jobs, models)
  {
    SortDescending(seq(|jobs|, i requires 0 <= i < |jobs| =>
                     JobRow(jobs[i], totals[jobs[i]].stat, ModelRows(totals[jobs[i]].models, models[jobs[i]]))),
                   (r: JobRow) => r.stat.total)
  }

  /** One row per model, with its own numbers, by descending total. */
  lemma ModelRowsExactly(models: map<string, Stat>, names: seq<string>)
    requires Enumerates(names, models.Keys)
    ensures var rows := ModelRows(models, names);
            && |rows| == |names|
            && (forall i, j :: 0 <= i < j < |rows| ==> rows[i].stat.total >= rows[j].stat.total)
            && (forall r :: r in rows <==> r.model in models && r.stat == models[r.model])
  {
    hide SortDescending;
    var raw := seq(|names|, i requires 0 <= i < |names| => ModelRow(names[i], models[names[i]]));
    var key := (r: ModelRow) => r.stat.total;
    SortDescendingExactly(raw, key);
    var rows := ModelRows(models, names);
    assert rows == SortDescending(raw, key);
    SameMembers(rows, raw);
    forall r: ModelRow
      ensures r in raw <==> r.model in models && r.stat == models[r.model]
    {
      if r.model in models && r.stat == models[r.model] {
        var i :| 0 <= i < |names| && names[i] == r.model;
        assert raw[i] == r;
      }
    }
    forall i, j | 0 <= i < j < |rows|
      ensures rows[i].stat.total >= rows[j].stat.total
    {
      assert key(rows[i]) >= key(rows[j]);
    }
  }

  lemma SameMembers<T>(a: seq<T>, b: seq<T>)
    requires multiset(a) == multiset(b)
    ensures |a| == |b| && forall x :: x in a <==> x in b
  {
    assert |a| == |multiset(a)| && |b| == |multiset(b)|;
    assert forall x :: x in a <==> x in multiset(a);
    assert forall x :: x in b <==> x in multiset(b);
  }

  /** The report: one row per job, with its totals and its model rows, by descending total. */
  lemma JobRowsExactly(totals: map<string, JobTotals>, jobs: seq<string>, models: map<string, seq<string>>)
    requires Enumerable(totals, jobs, models)
    ensures var rows := JobRows(totals, jobs, models);
            && |rows| == |jobs|
            && (forall i, j :: 0 <= i < j < |rows| ==> rows[i].stat.total >= rows[j].stat.total)
            && (forall r :: r in rows <==> r.jobId in totals && r.stat == totals[r.jobId].stat
                                           && r.models == ModelRows(totals[r.jobId].models, models[r.jobId]))
  {
    var raw := seq(|jobs|, i requires 0 <= i < |jobs| =>
                 JobRow(jobs[i], totals[jobs[i]].stat, ModelRows(totals[jobs[i]].models, models[jobs[i]])));
    var key := (r: JobRow) => r.stat.total;
    SortDescendingExactly(raw, key);
    var rows := JobRows(totals, jobs, models);
    SameMembers(rows, raw);
    forall r: JobRow
      ensures r in raw <==> r.jobId in totals && r.stat == totals[r.jobId].stat
                            && r.models == ModelRows(totals[r.jobId].models, models[r.jobId])
    {
      if r.jobId in totals && r.stat == totals[r.jobId].stat
          && r.models == ModelRows(totals[r.jobId].models, models[r.jobId]) {
        var i :| 0 <= i < |jobs| && jobs[i] == r.jobId;
        assert raw[i] == r;
      }
    }
    forall i, j | 0 <= i < j < |rows|
      ensures rows[i].stat.total >= rows[j].stat.total
    {
      assert key(rows[i]) >= key(rows[j]);
    }
  }
}
