/** The generator that pages through open items and hands them on in batches of at most 500. */
module LabelBatches {
  import opened Options

  const WORK_BATCH_SIZE := 500

  /** The limit on the number of items, which can be infinite. */
  datatype Limit = Infinite | AtMost(n: int)

  predicate Below(count: nat, limit: Limit) {
    limit.Infinite? || count < limit.n
  }

  /** One page of the listing; `None` nodes and totals stand for missing properties. */
  datatype Page<T> = Page(nodes: Option<seq<T>>, totalCount: Option<int>, hasNextPage: bool, endCursor: Option<string>)

  datatype Batch<T> = Batch(batchIndex: nat, items: seq<T>, totalCount: int, fetchedCount: nat)

  function Nodes<T>(p: Page<T>): seq<T> {
    if p.nodes.Some? then p.nodes.value else []
  }

  /** The answers to successive fetches: every page but the last announces another one. */
  ghost predicate Listing<T>(pages: seq<Page<T>>) {
    && pages != []
    && forall k :: 0 <= k < |pages| ==> (pages[k].hasNextPage <==> k + 1 < |pages|)
  }

  ghost function AllNodes<T>(pages: seq<Page<T>>): seq<T> {
    if pages == [] then []
    else
      AllNodes(pages[..|pages| - 1])
      + match pages[|pages| - 1].nodes
        case None => []
        case Some(nodes) => nodes
  }

  /** The first nodes, as many as the limit allows. */
  ghost function Limited<T>(nodes: seq<T>, limit: Limit): seq<T> {
    if limit.Infinite? || limit.n >= |nodes| then nodes
    else nodes[..Max(0, limit.n)]
  }

  ghost function Items<T>(batches: seq<Batch<T>>): seq<T> {
    if batches == [] then [] else Items(batches[..|batches| - 1]) + batches[|batches| - 1].items
  }

  /** A batch is numbered from 1, is not empty, and reports the running total. */
  ghost predicate WellNumbered<T>(batches: seq<Batch<T>>) {
    forall b :: 0 <= b < |batches| ==>
      && batches[b].batchIndex == b + 1
      && 0 < |batches[b].items| <= WORK_BATCH_SIZE
      && batches[b].fetchedCount == |Items(batches[..b + 1])|
  }

  ghost predicate AllFull<T>(batches: seq<Batch<T>>) {
    forall b :: 0 <= b < |batches| ==> |batches[b].items| == WORK_BATCH_SIZE
  }

  /** The cursors that the first n fetches are given: none at first, then the end cursor of the page before. */
  ghost predicate Cursors<T>(asked: seq<Option<string>>, pages: seq<Page<T>>) {
    && |asked| <= |pages|
    && forall k :: 0 <= k < |asked| ==> asked[k] == if k == 0 then None else pages[k - 1].endCursor
  }

  lemma ItemsSnoc<T>(batches: seq<Batch<T>>, b: Batch<T>)
    ensures Items(batches + [b]) == Items(batches) + b.items
  {
    assert (batches + [b])[..|batches|] == batches;
  }

  lemma WellNumberedSnoc<T>(batches: seq<Batch<T>>, b: Batch<T>)
    requires WellNumbered(batches)
    requires b.batchIndex == |batches| + 1 && 0 < |b.items| <= WORK_BATCH_SIZE
    requires b.fetchedCount == |Items(batches)| + |b.items|
    ensures WellNumbered(batches + [b])
  {
    ItemsSnoc(batches, b);
    hide Items;
    var r := batches + [b];
    forall k | 0 <= k < |r|
      ensures r[k].batchIndex == k + 1 && 0 < |r[k].items| <= WORK_BATCH_SIZE
      ensures r[k].fetchedCount == |Items(r[..k + 1])|
    {
      if k < |batches| {
        assert r[..k + 1] == batches[..k + 1];
      } else {
        assert r[..k + 1] == r;
      }
    }
  }

  /** The inner loop over one page. */
  method TakePage<T>(nodes: seq<T>, limit: Limit, totalCount: int, batches0: seq<Batch<T>>, results0: seq<T>,
                     fetched0: nat)
    returns (batches: seq<Batch<T>>, results: seq<T>, fetchedCount: nat)
    requires WellNumbered(batches0) && AllFull(batches0)
    requires |results0| < WORK_BATCH_SIZE && fetched0 == |Items(batches0)| + |results0|
    ensures WellNumbered(batches) && AllFull(batches)
    ensures |results| < WORK_BATCH_SIZE && fetchedCount == |Items(batches)| + |results|
    ensures fetched0 <= fetchedCount <= fetched0 + |nodes|
    ensures Items(batches) + results == Items(batches0) + results0 + nodes[..fetchedCount - fetched0]
    ensures Below(fetchedCount, limit) ==> fetchedCount == fetched0 + |nodes|
    ensures limit.AtMost? && fetched0 <= limit.n ==> fetchedCount <= limit.n
    ensures batches0 <= batches
    ensures forall b :: |batches0| <= b < |batches| ==>
              batches[b].totalCount == totalCount && fetched0 < batches[b].fetchedCount <= fetchedCount
  {
    hide Items, WellNumbered, AllFull;
    batches, results, fetchedCount := batches0, results0, fetched0;
    ghost var start := Items(batches0) + results0;
    assert start + nodes[..0] == start;
    var i := 0;
    while i < |nodes|
      invariant 0 <= i <= |nodes| && fetchedCount == fetched0 + i
      invariant WellNumbered(batches) && AllFull(batches)
      invariant |results| < WORK_BATCH_SIZE && fetchedCount == |Items(batches)| + |results|
      invariant Items(batches) + results == start + nodes[..i]
      invariant limit.AtMost? && fetched0 <= limit.n ==> fetchedCount <= limit.n
      invariant batches0 <= batches
      invariant forall b :: |batches0| <= b < |batches| ==>
                  batches[b].totalCount == totalCount && fetched0 < batches[b].fetchedCount <= fetchedCount
      decreases |nodes| - i
    {
      if !Below(fetchedCount, limit) {
        break;
      }
      ghost var taken := Items(batches) + results;
      assert start + nodes[..i + 1] == taken + [nodes[i]];
      results := results + [nodes[i]];
      fetchedCount := fetchedCount + 1;
      i := i + 1;
      assert Items(batches) + results == taken + [nodes[i - 1]];
      if |results| >= WORK_BATCH_SIZE {
        FullBatch(batches, results, totalCount, fetchedCount);
        batches := batches + [Batch(|batches| + 1, results, totalCount, fetchedCount)];
        results := [];
      }
    }
  }

  /** Yielding a full batch. */
  lemma FullBatch<T>(batches: seq<Batch<T>>, results: seq<T>, totalCount: int, fetched: nat)
    requires WellNumbered(batches) && AllFull(batches)
    requires |results| == WORK_BATCH_SIZE && fetched == |Items(batches)| + |results|
    ensures var r := batches + [Batch(|batches| + 1, results, totalCount, fetched)];
            WellNumbered(r) && AllFull(r) && Items(r) + [] == Items(batches) + results && fetched == |Items(r)|
  {
    var b := Batch(|batches| + 1, results, totalCount, fetched);
    WellNumberedSnoc(batches, b);
    ItemsSnoc(batches, b);
  }

  /** The outer loop's state after k pages. */
  ghost predicate Progress<T>(pages: seq<Page<T>>, k: nat, limit: Limit, batches: seq<Batch<T>>, results: seq<T>,
                              fetched: nat)
    requires k <= |pages|
  {
    && WellNumbered(batches) && AllFull(batches)
    && |results| < WORK_BATCH_SIZE && fetched == |Items(batches)| + |results|
    && Items(batches) + results == Limited(AllNodes(pages[..k]), limit)
    && (Below(fetched, limit) ==> fetched == |AllNodes(pages[..k])|)
  }

  lemma Start<T>(pages: seq<Page<T>>, limit: Limit)
    ensures Progress(pages, 0, limit, [], [], 0)
  {
    assert Limited(AllNodes(pages[..0]), limit) == [];
  }

  lemma PageStep<T>(pages: seq<Page<T>>, k: nat, limit: Limit, batches0: seq<Batch<T>>, results0: seq<T>, fetched0: nat,
                    batches: seq<Batch<T>>, results: seq<T>, fetched: nat)
    requires k < |pages| && Progress(pages, k, limit, batches0, results0, fetched0) && Below(fetched0, limit)
    requires WellNumbered(batches) && AllFull(batches)
    requires |results| < WORK_BATCH_SIZE && fetched == |Items(batches)| + |results|
    requires var nodes := Nodes(pages[k]);
             && fetched0 <= fetched <= fetched0 + |nodes|
             && Items(batches) + results == Items(batches0) + results0 + nodes[..fetched - fetched0]
             && (Below(fetched, limit) ==> fetched == fetched0 + |nodes|)
    requires limit.AtMost? ==> fetched <= limit.n
    ensures Progress(pages, k + 1, limit, batches, results, fetched)
  {
    hide WellNumbered, AllFull, Items;
    var nodes := Nodes(pages[k]);
    var before := AllNodes(pages[..k]);
    assert AllNodes(pages[..k + 1]) == before + nodes by {
      assert pages[..k + 1][..k] == pages[..k];
    }
    assert Limited(before, limit) == before;
    assert before + nodes[..fetched - fetched0] == Limited(before + nodes, limit);
  }

  /** The last total that these pages report, or zero. */
  ghost function LatestTotal<T>(pages: seq<Page<T>>): int {
    if pages == [] then 0
    else if pages[|pages| - 1].totalCount.Some? then pages[|pages| - 1].totalCount.value
    else LatestTotal(pages[..|pages| - 1])
  }

  /** Page p brings the node that fills the batch. */
  ghost predicate Fills<T>(batch: Batch<T>, pages: seq<Page<T>>, p: nat)
    requires p < |pages|
  {
    |AllNodes(pages[..p])| < batch.fetchedCount <= |AllNodes(pages[..p + 1])|
  }

  /** One of the first n pages fills the batch, and the batch carries the latest total of that page. */
  ghost predicate CarriesTotal<T>(batch: Batch<T>, pages: seq<Page<T>>, n: nat)
    requires n <= |pages|
  {
    exists p: nat :: p < n && Fills(batch, pages, p) && batch.totalCount == LatestTotal(pages[..p + 1])
  }

  ghost predicate AllCarry<T>(batches: seq<Batch<T>>, pages: seq<Page<T>>, n: nat)
    requires n <= |pages|
  {
    forall b :: 0 <= b < |batches| ==> CarriesTotal(batches[b], pages, n)
  }

  lemma TotalsStep<T>(pages: seq<Page<T>>, k: nat, batches0: seq<Batch<T>>, fetched0: nat, batches: seq<Batch<T>>,
                      fetched: nat, totalCount: int)
    requires k < |pages| && AllCarry(batches0, pages, k) && batches0 <= batches
    requires fetched0 == |AllNodes(pages[..k])| && fetched <= fetched0 + |Nodes(pages[k])|
    requires totalCount == if pages[k].totalCount.Some? then pages[k].totalCount.value else LatestTotal(pages[..k])
    requires forall b :: |batches0| <= b < |batches| ==>
               batches[b].totalCount == totalCount && fetched0 < batches[b].fetchedCount <= fetched
    ensures AllCarry(batches, pages, k + 1) && totalCount == LatestTotal(pages[..k + 1])
  {
    assert pages[..k + 1][..k] == pages[..k];
    forall b | 0 <= b < |batches|
      ensures CarriesTotal(batches[b], pages, k + 1)
    {
      if b < |batches0| {
        assert CarriesTotal(batches0[b], pages, k);
      } else {
        assert Fills(batches[b], pages, k);
      }
    }
  }

  /** The batch that is left when paging stops. */
  lemma Finish<T>(pages: seq<Page<T>>, k: nat, limit: Limit, batches: seq<Batch<T>>, results: seq<T>, fetched: nat,
                  totalCount: int)
    requires k <= |pages| && Progress(pages, k, limit, batches, results, fetched)
    requires k == |pages| || !Below(fetched, limit)
    ensures var all := if results == [] then batches
                       else batches + [Batch(|batches| + 1, results, totalCount, fetched)];
            && Items(all) == Limited(AllNodes(pages), limit)
            && WellNumbered(all)
            && forall b :: 0 <= b < |all| - 1 ==> |all[b].items| == WORK_BATCH_SIZE
    ensures k < |pages| ==> !Below(|AllNodes(pages[..k])|, limit)
  {
    hide Items, AllNodes, WellNumbered;
    NodesGrow(pages, k);
    if k == |pages| {
      assert pages[..k] == pages;
    }
    if results != [] {
      var batch := Batch(|batches| + 1, results, totalCount, fetched);
      WellNumberedSnoc(batches, batch);
      ItemsSnoc(batches, batch);
    } else {
      assert Items(batches) + results == Items(batches);
    }
  }

  lemma NoTotal<T>(pages: seq<Page<T>>)
    ensures LatestTotal(pages[..0]) == 0
  {
  }

  method FetchOpenLabelItemBatches<T>(pages: seq<Page<T>>, limit: Limit)
    returns (batches: seq<Batch<T>>, asked: seq<Option<string>>)
    requires Listing(pages)
    ensures Items(batches) == Limited(AllNodes(pages), limit)
    ensures WellNumbered(batches)
    ensures forall b :: 0 <= b < |batches| - 1 ==> |batches[b].items| == 500
    ensures Cursors(asked, pages)
    ensures forall k :: 0 <= k < |asked| ==> Below(|AllNodes(pages[..k])|, limit)
    ensures |asked| < |pages| ==> !Below(|AllNodes(pages[..|asked|])|, limit)
    ensures forall b :: 0 <= b < |batches| ==>
              if |batches[b].items| == 500 then CarriesTotal(batches[b], pages, |asked|)
              else batches[b].totalCount == LatestTotal(pages[..|asked|])
  {
    hide WellNumbered, Items, AllNodes, Limited, LatestTotal, CarriesTotal;
    batches, asked := [], [];
    var results: seq<T> := [];
    var after: Option<string> := None;
    var totalCount := 0;
    var fetchedCount := 0;
    var page := 0;
    var done := false;
    Start(pages, limit);
    NoTotal(pages);
    while !done && Below(fetchedCount, limit)
      invariant 0 <= page <= |pages| && page == |asked|
      invariant done <==> page == |pages|
      invariant !done ==> after == if page == 0 then None else pages[page - 1].endCursor
      invariant Cursors(asked, pages)
      invariant Progress(pages, page, limit, batches, results, fetchedCount)
      invariant AllCarry(batches, pages, page) && totalCount == LatestTotal(pages[..page])
      invariant forall k :: 0 <= k < page ==> Below(|AllNodes(pages[..k])|, limit)
      decreases |pages| - page
    {
      asked := asked + [after];
      var pageData := pages[page];
      totalCount := if pageData.totalCount.Some? then pageData.totalCount.value else totalCount;
      ghost var batches0, results0, fetched0 := batches, results, fetchedCount;
      batches, results, fetchedCount := TakePage(Nodes(pageData), limit, totalCount, batches, results, fetchedCount);
      PageStep(pages, page, limit, batches0, results0, fetched0, batches, results, fetchedCount);
      TotalsStep(pages, page, batches0, fetched0, batches, fetchedCount, totalCount);
      page := page + 1;
      if !pageData.hasNextPage {
        done := true;
      } else {
        after := pageData.endCursor;
      }
    }
    Finish(pages, page, limit, batches, results, fetchedCount, totalCount);
    if |results| > 0 {
      batches := batches + [Batch(|batches| + 1, results, totalCount, fetchedCount)];
    }
  }

  lemma {:induction false} NodesGrow<T>(pages: seq<Page<T>>, k: nat)
    requires k <= |pages|
    ensures AllNodes(pages[..k]) <= AllNodes(pages)
    decreases |pages|
  {
    if k == |pages| {
      assert pages[..k] == pages;
    } else {
      var init := pages[..|pages| - 1];
      NodesGrow(init, k);
      assert init[..k] == pages[..k];
    }
  }

  /** The number of items decides the whole shape of the output: how many batches there are, and each running total. */
  lemma {:induction false} BatchCount<T>(batches: seq<Batch<T>>, b: nat)
    requires WellNumbered(batches) && b < |batches|
    requires forall b :: 0 <= b < |batches| - 1 ==> |batches[b].items| == 500
    ensures 500 * (|batches| - 1) < |Items(batches)| <= 500 * |batches|
    ensures batches[b].fetchedCount == Min((b + 1) * 500, |Items(batches)|)
  {
    var n := |batches| - 1;
    assert batches[..n + 1] == batches;
    hide Items, WellNumbered;
    ItemsSnoc(batches[..n], batches[n]);
    assert batches[..n] + [batches[n]] == batches;
    FullBatches(batches[..n]);
    FullBatches(batches[..if b < n then b + 1 else n]);
    Numbered(batches, n);
    Numbered(batches, b);
  }

  lemma Numbered<T>(batches: seq<Batch<T>>, b: nat)
    requires WellNumbered(batches) && b < |batches|
    ensures 0 < |batches[b].items| <= 500 && batches[b].fetchedCount == |Items(batches[..b + 1])|
  {
  }

  lemma {:induction false} FullBatches<T>(batches: seq<Batch<T>>)
    requires forall b :: 0 <= b < |batches| ==> |batches[b].items| == 500
    ensures |Items(batches)| == |batches| * 500
    decreases |batches|
  {
    if batches != [] {
      FullBatches(batches[..|batches| - 1]);
    }
  }
}
