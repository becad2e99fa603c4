/**
 The two batch runners: `batchProcessor`, with batches cut into chunks, and `batchFileOperation`, with
 one level of chunks.  A chunk is started as a whole and awaited before the next one starts.
 `settle(i)` is how the promise for item number i settles, which can be anything.
 */
module Batching {
  import opened Options

  /** The return value, or the error thrown when `continueOnError` is off. */
  datatype Outcome<T, R, E> = Done(results: seq<R>, errors: seq<(T, E)>) | Threw(error: E)

  /** The indices below n that succeed, in order; `Failures` likewise. */
  ghost function Successes<R, E>(settle: nat -> Result<R, E>, n: nat): seq<nat> {
    if n == 0 then [] else Successes(settle, n - 1) + if settle(n - 1).Ok? then [n - 1] else []
  }

  ghost function Failures<R, E>(settle: nat -> Result<R, E>, n: nat): seq<nat> {
    if n == 0 then [] else Failures(settle, n - 1) + if settle(n - 1).Err? then [n - 1] else []
  }

  /** The two lists hold exactly the succeeding and the failing indices. */
  lemma {:induction false} SuccessesExactly<R, E>(settle: nat -> Result<R, E>, n: nat)
    ensures forall i: nat :: i in Successes(settle, n) <==> i < n && settle(i).Ok?
    ensures forall i: nat :: i in Failures(settle, n) <==> i < n && settle(i).Err?
    ensures |Successes(settle, n)| + |Failures(settle, n)| == n
  {
    if n > 0 {
      hide Successes, Failures;
      SuccessesExactly(settle, n - 1);
      OneMore(settle, n);
    } else {
      NoneYet(settle);
    }
  }

  lemma OneMore<R, E>(settle: nat -> Result<R, E>, n: nat)
    requires n > 0
    ensures var ok := settle(n - 1).Ok?;
            && Successes(settle, n) == Successes(settle, n - 1) + (if ok then [n - 1] else [])
            && Failures(settle, n) == Failures(settle, n - 1) + (if ok then [] else [n - 1])
  {
  }

  lemma NoneYet<R, E>(settle: nat -> Result<R, E>)
    ensures Successes(settle, 0) == [] && Failures(settle, 0) == []
  {
  }

  lemma Typed<R, E>(settle: nat -> Result<R, E>, n: nat)
    ensures forall k :: 0 <= k < |Successes(settle, n)| ==>
              Successes(settle, n)[k] < n && settle(Successes(settle, n)[k]).Ok?
    ensures forall k :: 0 <= k < |Failures(settle, n)| ==>
              Failures(settle, n)[k] < n && settle(Failures(settle, n)[k]).Err?
  {
    SuccessesExactly(settle, n);
    assert forall k :: 0 <= k < |Successes(settle, n)| ==> Successes(settle, n)[k] in Successes(settle, n);
    assert forall k :: 0 <= k < |Failures(settle, n)| ==> Failures(settle, n)[k] in Failures(settle, n);
  }

  lemma IncreasingSnoc(indices: seq<nat>, last: nat)
    requires Increasing(indices) && forall k :: 0 <= k < |indices| ==> indices[k] < last
    ensures Increasing(indices + [last])
  {
  }

  /** Both lists are in input order, so neither repeats an index. */
  lemma {:induction false} SuccessesInOrder<R, E>(settle: nat -> Result<R, E>, n: nat)
    ensures Increasing(Successes(settle, n)) && Increasing(Failures(settle, n))
  {
    if n > 0 {
      SuccessesInOrder(settle, n - 1);
      Typed(settle, n - 1);
      IncreasingSnoc(Successes(settle, n - 1), n - 1);
      IncreasingSnoc(Failures(settle, n - 1), n - 1);
    }
  }

  ghost function Values<R, E>(settle: nat -> Result<R, E>, indices: seq<nat>): seq<R>
    requires forall k :: 0 <= k < |indices| ==> settle(indices[k]).Ok?
  {
    seq(|indices|, k requires 0 <= k < |indices| => settle(indices[k]).value)
  }

  ghost function Blames<T, R, E>(items: seq<T>, settle: nat -> Result<R, E>, indices: seq<nat>): seq<(T, E)>
    requires forall k :: 0 <= k < |indices| ==> indices[k] < |items| && settle(indices[k]).Err?
  {
    seq(|indices|, k requires 0 <= k < |indices| => (items[indices[k]], settle(indices[k]).error))
  }

  /**
   What both runners are for, said without batches or chunks: the values of the successes and the items
   and errors of the failures, in input order, or the first failing item's error.
   */
  ghost predicate IsAnswer<T, R, E>(o: Outcome<T, R, E>, items: seq<T>, settle: nat -> Result<R, E>,
                                    continueOnError: bool) {
    var ss, fs := Successes(settle, |items|), Failures(settle, |items|);
    Typed(settle, |items|);
    if continueOnError || fs == [] then o == Done(Values(settle, ss), Blames(items, settle, fs))
    else o == Threw(settle(fs[0]).error)
  }

  /** The items started so far, chunk by chunk: each chunk is the next run of at most `concurrency` indices. */
  ghost predicate Covers(started: seq<seq<nat>>, n: nat, concurrency: nat) {
    if started == [] then n == 0
    else
      var last := started[|started| - 1];
      && 1 <= |last| <= concurrency && |last| <= n
      && (forall k :: 0 <= k < |last| ==> last[k] == n - |last| + k)
      && Covers(started[..|started| - 1], n - |last|, concurrency)
  }

  /** Every item is started exactly once: the started chunks, end to end, count from 0 to n. */
  ghost function Flat(started: seq<seq<nat>>): seq<nat> {
    if started == [] then [] else Flat(started[..|started| - 1]) + started[|started| - 1]
  }

  lemma {:induction false} CoversCountsUp(started: seq<seq<nat>>, n: nat, concurrency: nat)
    requires Covers(started, n, concurrency)
    ensures |Flat(started)| == n
    ensures forall i :: 0 <= i < n ==> Flat(started)[i] == i
    ensures forall c :: 0 <= c < |started| ==> 1 <= |started[c]| <= concurrency
    decreases |started|
  {
    if started != [] {
      CoversCountsUp(started[..|started| - 1], n - |started[|started| - 1]|, concurrency);
    }
  }

  /** Which items are started: all of them, or, after a throw, none past the chunk of the first failure. */
  ghost predicate StartsExactly<R, E>(started: seq<seq<nat>>, n: nat, settle: nat -> Result<R, E>, concurrency: nat,
                                      continueOnError: bool) {
    var fs := Failures(settle, n);
    if continueOnError || fs == [] then Covers(started, n, concurrency)
    else
      && started != []
      && fs[0] in started[|started| - 1]
      && exists m: nat :: m <= n && Covers(started, m, concurrency)
  }

  /** The state of a runner that has not thrown, after the first n items. */
  ghost predicate Tally<T, R, E>(items: seq<T>, settle: nat -> Result<R, E>, n: nat, results: seq<R>,
                                 errors: seq<(T, E)>)
    requires n <= |items|
  {
    Typed(settle, n);
    && results == Values(settle, Successes(settle, n))
    && errors == Blames(items, settle, Failures(settle, n))
  }

  /** The answer, element by element: each success's value, and each failing item with its own error. */
  lemma AnswerExactly<T, R, E>(o: Outcome<T, R, E>, items: seq<T>, settle: nat -> Result<R, E>, continueOnError: bool)
    requires IsAnswer(o, items, settle, continueOnError)
    ensures var ss, fs := Successes(settle, |items|), Failures(settle, |items|);
            && (o.Done? <==> continueOnError || fs == [])
            && (o.Done? ==>
                  && |o.results| == |ss| && |o.errors| == |fs|
                  && (forall k :: 0 <= k < |ss| ==> settle(ss[k]) == Ok(o.results[k]))
                  && (forall k :: 0 <= k < |fs| ==>
                        fs[k] < |items| && o.errors[k].0 == items[fs[k]] && settle(fs[k]) == Err(o.errors[k].1)))
            && (o.Threw? ==> fs != [] && settle(fs[0]) == Err(o.error))
  {
    Typed(settle, |items|);
  }

  lemma TallyStep<T, R, E>(items: seq<T>, settle: nat -> Result<R, E>, n: nat, results: seq<R>, errors: seq<(T, E)>)
    requires n < |items| && Tally(items, settle, n, results, errors)
    ensures settle(n).Ok? ==> Tally(items, settle, n + 1, results + [settle(n).value], errors)
    ensures settle(n).Err? ==> Tally(items, settle, n + 1, results, errors + [(items[n], settle(n).error)])
  {
    Typed(settle, n);
    Typed(settle, n + 1);
    if settle(n).Ok? {
      assert Values(settle, Successes(settle, n + 1)) == results + [settle(n).value];
      assert Failures(settle, n + 1) == Failures(settle, n);
    } else {
      assert Blames(items, settle, Failures(settle, n + 1)) == errors + [(items[n], settle(n).error)];
      assert Successes(settle, n + 1) == Successes(settle, n);
    }
  }

  lemma {:induction false} FailuresExtend<R, E>(settle: nat -> Result<R, E>, m: nat, n: nat)
    requires m <= n
    ensures Failures(settle, m) <= Failures(settle, n)
    decreases n
  {
    if m < n {
      FailuresExtend(settle, m, n - 1);
    }
  }

  /** Where the chunk that starts at item `from` ends: after `concurrency` items, or with its batch or the input. */
  function ChunkEnd(from: nat, n: nat, batchSize: nat, concurrency: nat): int
    requires batchSize > 0
  {
    Min(from + concurrency, Min((from / batchSize + 1) * batchSize, n))
  }

  /** Every chunk is as long as its batch and the concurrency allow. */
  ghost predicate FullChunks(started: seq<seq<nat>>, n: nat, batchSize: nat, concurrency: nat)
    requires batchSize > 0
  {
    forall c :: 0 <= c < |started| ==>
      started[c] != [] && started[c][0] + |started[c]| == ChunkEnd(started[c][0], n, batchSize, concurrency)
  }

  /** Item i is the first of a batch. */
  predicate StartsBatch(i: nat, batchSize: nat)
    requires batchSize > 0
  {
    i % batchSize == 0
  }

  lemma NextBatch(i: nat, batchSize: nat)
    requires batchSize > 0
    ensures StartsBatch(0, batchSize)
    ensures StartsBatch(i, batchSize) ==> StartsBatch(i + batchSize, batchSize)
  {
    if StartsBatch(i, batchSize) {
      InBatch(i, i + batchSize, batchSize);
    }
  }

  /** Numbers in the same batch, or at the start of the next one. */
  lemma InBatch(i: nat, from: nat, batchSize: nat)
    requires batchSize > 0 && StartsBatch(i, batchSize) && i <= from <= i + batchSize
    ensures from < i + batchSize ==> (from / batchSize + 1) * batchSize == i + batchSize
    ensures from == i + batchSize ==> StartsBatch(from, batchSize)
  {
    var q := i / batchSize;
    assert i == q * batchSize;
    if from < i + batchSize {
      QuotientIs(from, q, batchSize);
    } else {
      assert (q + 1) * batchSize == q * batchSize + batchSize;
      QuotientIs(from, q + 1, batchSize);
    }
  }

  lemma QuotientIs(x: nat, q: nat, b: nat)
    requires b > 0 && q * b <= x < q * b + b
    ensures x / b == q && x % b == x - q * b
  {
    var d := x / b;
    assert d * b <= x < d * b + b;
    if d < q {
      LargerProduct(d + 1, q, b);
    } else if q < d {
      LargerProduct(q + 1, d, b);
    }
  }

  lemma LargerProduct(a: int, b: int, c: nat)
    requires a <= b
    ensures a * c <= b * c
  {
  }

  /** The items of one chunk. */
  function Span(from: nat, to: nat): (chunk: seq<nat>)
    requires from <= to
    ensures |chunk| == to - from && forall k :: 0 <= k < |chunk| ==> chunk[k] == from + k
  {
    seq(to - from, k requires 0 <= k < to - from => from + k)
  }

  /** The first `at` items have been started, in chunks as long as they can be. */
  ghost predicate Chunked(started: seq<seq<nat>>, at: nat, n: nat, batchSize: nat, concurrency: nat) {
    Covers(started, at, concurrency) && (n > 0 ==> batchSize > 0 && FullChunks(started, n, batchSize, concurrency))
  }

  lemma ChunkStep(started: seq<seq<nat>>, from: nat, to: nat, n: nat, batchSize: nat, concurrency: nat)
    requires Chunked(started, from, n, batchSize, concurrency)
    requires batchSize > 0 && from < to <= from + concurrency && to == ChunkEnd(from, n, batchSize, concurrency)
    ensures Chunked(started + [Span(from, to)], to, n, batchSize, concurrency)
    ensures forall i: nat :: from <= i < to ==> i in Span(from, to)
  {
    var all := started + [Span(from, to)];
    assert all[..|started|] == started;
    forall i: nat | from <= i < to
      ensures i in Span(from, to)
    {
      assert Span(from, to)[i - from] == i;
    }
  }

  lemma NoChunks(n: nat, batchSize: nat, concurrency: nat)
    requires n > 0 ==> batchSize > 0
    ensures Chunked([], 0, n, batchSize, concurrency)
  {
  }

  /** The `forEach` over one settled chunk; `thrown` is the index whose error it throws, if it throws. */
  method Collect<T, R, E>(items: seq<T>, settle: nat -> Result<R, E>, from: nat, to: nat, continueOnError: bool,
                          results: seq<R>, errors: seq<(T, E)>)
    returns (results': seq<R>, errors': seq<(T, E)>, thrown: Option<nat>)
    requires from <= to <= |items|
    requires Tally(items, settle, from, results, errors)
    requires !continueOnError ==> Failures(settle, from) == []
    ensures thrown.None? ==> && Tally(items, settle, to, results', errors')
                             && (!continueOnError ==> Failures(settle, to) == [])
    ensures thrown.Some? ==> && !continueOnError && from <= thrown.value < to && settle(thrown.value).Err?
                             && Failures(settle, thrown.value + 1) == [thrown.value]
  {
    results', errors', thrown := results, errors, None;
    for i := from to to
      invariant Tally(items, settle, i, results', errors')
      invariant !continueOnError ==> Failures(settle, i) == []
    {
      TallyStep(items, settle, i, results', errors');
      match settle(i)
      case Ok(value) =>
        results' := results' + [value];
      case Err(error) =>
        errors' := errors' + [(items[i], error)];
        if !continueOnError {
          thrown := Some(i);
          return;
        }
    }
  }

  lemma ThrowAnswers<T, R, E>(items: seq<T>, settle: nat -> Result<R, E>, i: nat, started: seq<seq<nat>>, m: nat,
                              n: nat, batchSize: nat, concurrency: nat)
    requires i < m <= |items| && settle(i).Err? && Failures(settle, i + 1) == [i]
    requires Chunked(started, m, n, batchSize, concurrency) && started != [] && i in started[|started| - 1]
    ensures IsAnswer(Outcome<T, R, E>.Threw(settle(i).error), items, settle, false)
    ensures StartsExactly(started, |items|, settle, concurrency, false)
    ensures n > 0 ==> batchSize > 0 && FullChunks(started, n, batchSize, concurrency)
  {
    FailuresExtend(settle, i + 1, |items|);
  }

  lemma NothingDone<T, R, E>(items: seq<T>, settle: nat -> Result<R, E>)
    ensures Tally(items, settle, 0, [], []) && Failures(settle, 0) == []
  {
  }

  lemma AllDone<T, R, E>(items: seq<T>, settle: nat -> Result<R, E>, results: seq<R>, errors: seq<(T, E)>,
                         started: seq<seq<nat>>, batchSize: nat, concurrency: nat, continueOnError: bool)
    requires Tally(items, settle, |items|, results, errors)
    requires Chunked(started, |items|, |items|, batchSize, concurrency)
    requires !continueOnError ==> Failures(settle, |items|) == []
    ensures IsAnswer(Done(results, errors), items, settle, continueOnError)
    ensures StartsExactly(started, |items|, settle, concurrency, continueOnError)
    ensures items != [] ==> batchSize > 0 && FullChunks(started, |items|, batchSize, concurrency)
  {
  }

  /** With a single batch only the concurrency and the input end a chunk. */
  lemma OneBatch(from: nat, n: nat, concurrency: nat)
    requires from < n
    ensures ChunkEnd(from, n, n, concurrency) == Min(from + concurrency, n)
  {
    NextBatch(0, n);
    InBatch(0, from, n);
  }

  method BatchFileOperation<T, R, E>(files: seq<T>, settle: nat -> Result<R, E>, concurrency: nat,
                                     continueOnError: bool)
    returns (o: Outcome<T, R, E>, started: seq<seq<nat>>)
    requires concurrency > 0
    ensures IsAnswer(o, files, settle, continueOnError)
    ensures StartsExactly(started, |files|, settle, concurrency, continueOnError)
    ensures files != [] ==> FullChunks(started, |files|, |files|, concurrency)
  {
    hide Tally, Covers, Chunked, Failures, IsAnswer, StartsExactly, ChunkEnd, Span;
    var results: seq<R>, errors: seq<(T, E)> := [], [];
    started := [];
    NothingDone<T, R, E>(files, settle);
    NoChunks(|files|, |files|, concurrency);
    var i := 0;
    while i < |files|
      invariant i <= |files|
      invariant Tally(files, settle, i, results, errors)
      invariant !continueOnError ==> Failures(settle, i) == []
      invariant Chunked(started, i, |files|, |files|, concurrency)
      decreases |files| - i
    {
      var to := Min(i + concurrency, |files|);
      OneBatch(i, |files|, concurrency);
      ChunkStep(started, i, to, |files|, |files|, concurrency);
      started := started + [Span(i, to)];
      var thrown;
      results, errors, thrown := Collect(files, settle, i, to, continueOnError, results, errors);
      if thrown.Some? {
        ThrowAnswers(files, settle, thrown.value, started, to, |files|, |files|, concurrency);
        return Threw(settle(thrown.value).error), started;
      }
      i := to;
    }
    AllDone(files, settle, results, errors, started, |files|, concurrency, continueOnError);
    o := Done(results, errors);
  }

  /** A chunk [from, to) of a batch that ends at `end`. */
  predicate ChunkOf(chunk: (nat, nat), end: nat, concurrency: nat) {
    chunk.0 < chunk.1 <= end && chunk.1 == Min(chunk.0 + concurrency, end)
  }

  /** The chunks of one batch, as index ranges. */
  method CutBatch(start: nat, end: nat, concurrency: nat) returns (chunks: seq<(nat, nat)>)
    requires start < end && concurrency > 0
    ensures chunks != [] && chunks[0].0 == start && chunks[|chunks| - 1].1 == end
    ensures forall c :: 0 <= c < |chunks| ==> start <= chunks[c].0 && ChunkOf(chunks[c], end, concurrency)
    ensures forall c :: 0 < c < |chunks| ==> chunks[c - 1].1 == chunks[c].0
  {
    chunks := [];
    var j := start;
    while j < end
      invariant start <= j <= end
      invariant chunks == [] ==> j == start
      invariant chunks != [] ==> chunks[0].0 == start && chunks[|chunks| - 1].1 == j
      invariant forall c :: 0 <= c < |chunks| ==> start <= chunks[c].0 && ChunkOf(chunks[c], end, concurrency)
      invariant forall c :: 0 < c < |chunks| ==> chunks[c - 1].1 == chunks[c].0
      decreases end - j
    {
      var to := Min(j + concurrency, end);
      chunks := chunks + [(j, to)];
      j := to;
    }
  }

  lemma NextChunk(from: nat, to: nat, i: nat, n: nat, batchSize: nat, concurrency: nat)
    requires batchSize > 0 && StartsBatch(i, batchSize) && i <= from < Min(i + batchSize, n)
    requires ChunkOf((from, to), Min(i + batchSize, n), concurrency)
    ensures to == ChunkEnd(from, n, batchSize, concurrency)
  {
    InBatch(i, from, batchSize);
  }

  method BatchProcessor<T, R, E>(items: seq<T>, settle: nat -> Result<R, E>, batchSize: nat, concurrency: nat,
                                 continueOnError: bool)
    returns (o: Outcome<T, R, E>, started: seq<seq<nat>>)
    requires batchSize > 0 && concurrency > 0
    ensures IsAnswer(o, items, settle, continueOnError)
    ensures StartsExactly(started, |items|, settle, concurrency, continueOnError)
    ensures items != [] ==> FullChunks(started, |items|, batchSize, concurrency)
  {
    hide Tally, Covers, Chunked, Failures, IsAnswer, StartsExactly, ChunkEnd, Span, StartsBatch;
    var results: seq<R>, errors: seq<(T, E)> := [], [];
    started := [];
    NothingDone<T, R, E>(items, settle);
    NoChunks(|items|, batchSize, concurrency);
    var i := 0;
    NextBatch(0, batchSize);
    while i < |items|
      invariant i <= |items| && (i < |items| ==> StartsBatch(i, batchSize))
      invariant Tally(items, settle, i, results, errors)
      invariant !continueOnError ==> Failures(settle, i) == []
      invariant Chunked(started, i, |items|, batchSize, concurrency)
      decreases |items| - i
    {
      var end := Min(i + batchSize, |items|);
      var chunks := CutBatch(i, end, concurrency);
      var at := i;
      for c := 0 to |chunks|
        invariant i <= at <= end
        invariant at == if c == 0 then i else chunks[c - 1].1
        invariant Tally(items, settle, at, results, errors)
        invariant !continueOnError ==> Failures(settle, at) == []
        invariant Chunked(started, at, |items|, batchSize, concurrency)
      {
        var (from, to) := chunks[c];
        NextChunk(from, to, i, |items|, batchSize, concurrency);
        ChunkStep(started, from, to, |items|, batchSize, concurrency);
        started := started + [Span(from, to)];
        var thrown;
        results, errors, thrown := Collect(items, settle, from, to, continueOnError, results, errors);
        if thrown.Some? {
          ThrowAnswers(items, settle, thrown.value, started, to, |items|, batchSize, concurrency);
          return Threw(settle(thrown.value).error), started;
        }
        at := to;
      }
      NextBatch(i, batchSize);
      i := end;
    }
    AllDone(items, settle, results, errors, started, batchSize, concurrency, continueOnError);
    o := Done(results, errors);
  }

  /** Two runs on the same items give the same outcome, whatever their batch sizes and concurrencies. */
  lemma AnswerIsUnique<T, R, E>(a: Outcome<T, R, E>, b: Outcome<T, R, E>, items: seq<T>, settle: nat -> Result<R, E>,
                                continueOnError: bool)
    requires IsAnswer(a, items, settle, continueOnError) && IsAnswer(b, items, settle, continueOnError)
    ensures a == b
    ensures a.Threw? <==> !continueOnError && exists i: nat :: i < |items| && settle(i).Err?
    ensures a.Done? ==> |a.results| + |a.errors| == |items|
  {
    SuccessesExactly(settle, |items|);
    var fs := Failures(settle, |items|);
    if fs != [] {
      assert fs[0] in fs;
    }
  }

  /** After a throw nothing past the failing item's chunk has been started. */
  lemma NothingAfterTheFailingChunk<R, E>(started: seq<seq<nat>>, n: nat, settle: nat -> Result<R, E>,
                                          concurrency: nat, i: nat)
    requires StartsExactly(started, n, settle, concurrency, false)
    requires i < n && settle(i).Err? && forall j: nat :: j < i ==> settle(j).Ok?
    ensures i in Flat(started) && |Flat(started)| <= i + concurrency
    ensures i in started[|started| - 1]
  {
    SuccessesExactly(settle, n);
    SuccessesInOrder(settle, n);
    var fs := Failures(settle, n);
    assert i in fs;
    var a :| 0 <= a < |fs| && fs[a] == i;
    assert fs[0] in fs;
    assert fs[0] == i;
    var m: nat :| m <= n && Covers(started, m, concurrency);
    CoversCountsUp(started, m, concurrency);
    var last := started[|started| - 1];
    assert Flat(started) == Flat(started[..|started| - 1]) + last;
  }
}
