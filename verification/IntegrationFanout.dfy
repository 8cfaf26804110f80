/** The pagination budget, and the bounded fan-out that spends it batch by batch. */
module IntegrationFanout {
  import opened Common

  datatype Limits = Limits(maxPages: nat, maxItems: nat, maxRetainedBytes: nat)

  /** The counters; what they may become is stated once, for all operations. */
  datatype Counters = Counters(pages: nat, items: nat, retainedBytes: nat) {
    predicate Within(limits: Limits) {
      pages <= limits.maxPages && items <= limits.maxItems && retainedBytes <= limits.maxRetainedBytes
    }
  }

  /** A page of values: how many there are, and the length of their JSON text. */
  datatype Page = Page(items: nat, bytes: nat)

  function After(c: Counters, page: Page): Counters {
    Counters(c.pages + 1, c.items + page.items, c.retainedBytes + page.bytes)
  }

  class Budget {
    const limits: Limits
    var pages: nat
    var items: nat
    var retainedBytes: nat

    ghost function Spent(): Counters
      reads this
    {
      Counters(pages, items, retainedBytes)
    }

    constructor (limits: Limits)
      ensures this.limits == limits && Spent() == Counters(0, 0, 0)
    {
      this.limits := limits;
      pages, items, retainedBytes := 0, 0, 0;
    }

    /** `stringifyJsonWithinByteLimit`: the length, unless it exceeds the limit. */
    method MeasureWithin(page: Page, limit: int) returns (bytes: Option<nat>)
      ensures bytes == if page.bytes <= limit then Some(page.bytes) else None
    {
      bytes := if page.bytes <= limit then Some(page.bytes) else None;
    }

    /** A page is admitted exactly when it still fits in every respect, and a refused page costs nothing. */
    method AdmitPage(page: Page) returns (admitted: bool)
      requires Spent().Within(limits)
      modifies this
      ensures Spent().Within(limits)
      ensures admitted <==> After(old(Spent()), page).Within(limits)
      ensures Spent() == if admitted then After(old(Spent()), page) else old(Spent())
    {
      if pages >= limits.maxPages || page.items > limits.maxItems - items {
        return false;
      }
      var pageBytes := MeasureWithin(page, limits.maxRetainedBytes - retainedBytes);
      if pageBytes.None? {
        return false;
      }
      pages := pages + 1;
      items := items + page.items;
      retainedBytes := retainedBytes + pageBytes.value;
      return true;
    }

    /** A cumulative page replaces the items and bytes counted so far; it throws exactly if it does not fit. */
    method AssertCumulativePage(all: Page) returns (threw: bool)
      requires Spent().Within(limits)
      modifies this
      ensures Spent().Within(limits)
      ensures threw <==> !Counters(old(pages) + 1, all.items, all.bytes).Within(limits)
      ensures Spent() == if threw then old(Spent()) else Counters(old(pages) + 1, all.items, all.bytes)
    {
      if pages >= limits.maxPages || all.items > limits.maxItems {
        return true;
      }
      var measuredBytes := MeasureWithin(all, limits.maxRetainedBytes);
      if measuredBytes.None? {
        return true;
      }
      pages := pages + 1;
      items := all.items;
      retainedBytes := measuredBytes.value;
      return false;
    }

    predicate CanRequestPage()
      reads this
    {
      pages < limits.maxPages && items < limits.maxItems && retainedBytes <= limits.maxRetainedBytes - 2
    }
  }

  function AfterAll(c: Counters, pages: seq<Page>): Counters {
    if pages == [] then c else After(AfterAll(c, pages[..|pages| - 1]), pages[|pages| - 1])
  }

  function TotalItems(pages: seq<Page>): nat {
    if pages == [] then 0 else pages[0].items + TotalItems(pages[1..])
  }

  function TotalBytes(pages: seq<Page>): nat {
    if pages == [] then 0 else pages[0].bytes + TotalBytes(pages[1..])
  }

  lemma {:induction false} TotalsOneMore(pages: seq<Page>, page: Page)
    ensures TotalItems(pages + [page]) == TotalItems(pages) + page.items
    ensures TotalBytes(pages + [page]) == TotalBytes(pages) + page.bytes
    decreases |pages|
  {
    if pages == [] {
      assert [page][1..] == [];
    } else {
      assert (pages + [page])[1..] == pages[1..] + [page];
      TotalsOneMore(pages[1..], page);
    }
  }

  /** What is spent is one page each, and the sums of the items and bytes of the pages. */
  lemma {:induction false} AfterAllSums(c: Counters, pages: seq<Page>)
    ensures AfterAll(c, pages)
         == Counters(c.pages + |pages|, c.items + TotalItems(pages), c.retainedBytes + TotalBytes(pages))
    decreases |pages|
  {
    if pages != [] {
      var n := |pages| - 1;
      assert pages == pages[..n] + [pages[n]];
      AfterAllSums(c, pages[..n]);
      TotalsOneMore(pages[..n], pages[n]);
    }
  }

  predicate MoreFits(c: Counters, limits: Limits) {
    c.pages < limits.maxPages && c.items < limits.maxItems && c.retainedBytes <= limits.maxRetainedBytes - 2
  }

  /** Another page is worth asking for if one item in two bytes would still fit. */
  lemma MoreFitsIff(c: Counters, limits: Limits)
    requires c.Within(limits)
    ensures MoreFits(c, limits) <==> After(c, Page(1, 2)).Within(limits)
  {
  }

  function Batches(count: nat, size: nat): nat {
    count * size
  }

  /** A whole number of full batches, and not none. */
  ghost predicate AtBatchEnd(length: nat, size: nat) {
    exists count: nat :: count > 0 && Batches(count, size) == length
  }

  function Pages<R>(loaded: seq<R>, retained: R -> Page): (pages: seq<Page>)
    ensures |pages| == |loaded| && forall k :: 0 <= k < |loaded| ==> pages[k] == retained(loaded[k])
  {
    seq(|loaded|, k requires 0 <= k < |loaded| => retained(loaded[k]))
  }

  /** After each of the first full batches, short of `length` loads, a further page could be requested. */
  ghost predicate CouldGoOn<R>(loads: seq<R>, retained: R -> Page, start: Counters, limits: Limits, size: nat,
                               length: nat) {
    forall count: nat {:trigger Batches(count, size)} ::
      0 < count && Batches(count, size) < length && Batches(count, size) < |loads| ==>
        MoreFits(AfterAll(start, Pages(loads[..Batches(count, size)], retained)), limits)
  }

  lemma BatchesGrow(count: nat, more: nat, size: nat)
    requires count < more
    ensures Batches(count, size) + size <= Batches(more, size)
  {
    assert (more - count - 1) * size >= 0;
  }

  lemma OneMoreBatch<R>(loads: seq<R>, retained: R -> Page, start: Counters, limits: Limits, size: nat, batches: nat)
    requires CouldGoOn(loads, retained, start, limits, size, Batches(batches, size)) && size > 0
    requires 0 < batches && Batches(batches, size) < |loads| ==>
      MoreFits(AfterAll(start, Pages(loads[..Batches(batches, size)], retained)), limits)
    ensures CouldGoOn(loads, retained, start, limits, size, Batches(batches + 1, size))
    ensures Batches(batches + 1, size) == Batches(batches, size) + size
  {
    forall count: nat {:trigger Batches(count, size)}
      | 0 < count && Batches(count, size) < Batches(batches + 1, size) && Batches(count, size) < |loads|
      ensures MoreFits(AfterAll(start, Pages(loads[..Batches(count, size)], retained)), limits)
    {
      if count > batches {
        if count > batches + 1 {
          BatchesGrow(batches + 1, count, size);
        }
        assert false;
      } else if count < batches {
        BatchesGrow(count, batches, size);
      }
    }
  }

  const MAX_SAFE_INTEGER := 0x1f_ffff_ffff_ffff

  /** None of it happens when the concurrency is no positive safe integer. */
  datatype Outcome<R> = RangeError | Outcome(results: seq<R>, truncated: bool, attemptedCount: nat)

  lemma PagesOneMore<R>(c: Counters, results: seq<R>, result: R, retained: R -> Page)
    ensures AfterAll(c, Pages(results + [result], retained))
         == After(AfterAll(c, Pages(results, retained)), retained(result))
  {
    var pages := Pages(results + [result], retained);
    assert pages[..|results|] == Pages(results, retained);
  }

  /** Admits the loads of one batch, which follow the first `offset` loads, up to the first that is refused. */
  method AdmitBatch<R>(loads: seq<R>, loaded: seq<R>, offset: nat, before: seq<R>, retained: R -> Page, budget: Budget,
                       ghost start: Counters)
    returns (results: seq<R>, refused: bool)
    requires offset + |loaded| <= |loads| && loaded == loads[offset..offset + |loaded|] && before == loads[..offset]
    requires budget.Spent().Within(budget.limits) && budget.Spent() == AfterAll(start, Pages(before, retained))
    modifies budget
    ensures budget.Spent().Within(budget.limits) && budget.Spent() == AfterAll(start, Pages(results, retained))
    ensures offset <= |results| <= offset + |loaded| && results == loads[..|results|]
    ensures !refused ==> |results| == offset + |loaded|
    ensures refused ==>
      |results| < offset + |loaded| && !After(budget.Spent(), retained(loads[|results|])).Within(budget.limits)
  {
    results := before;
    for k := 0 to |loaded|
      invariant results == loads[..offset + k]
      invariant budget.Spent().Within(budget.limits)
      invariant budget.Spent() == AfterAll(start, Pages(results, retained))
    {
      var admitted := budget.AdmitPage(retained(loaded[k]));
      if !admitted {
        return results, true;
      }
      PagesOneMore(start, results, loaded[k], retained);
      TakeOneMore(loads, offset + k);
      results := results + [loaded[k]];
    }
    return results, false;
  }

  /** `loads[k]` is what loading entry k gives. The results are a prefix of the loads, cut exactly where the budget
      refuses a page or, at the end of a batch, says that no further page can be requested. */
  method RunBoundedIntegrationFanout<R>(loads: seq<R>, retained: R -> Page, maxConcurrent: int, budget: Budget)
    returns (outcome: Outcome<R>)
    requires budget.Spent().Within(budget.limits)
    modifies budget
    ensures outcome.RangeError? <==> maxConcurrent <= 0 || maxConcurrent > MAX_SAFE_INTEGER
    ensures outcome.RangeError? ==> budget.Spent() == old(budget.Spent())
    ensures outcome.Outcome? ==>
      && outcome.results <= loads
      && (outcome.truncated <==> |outcome.results| < |loads|)
      && |outcome.results| <= outcome.attemptedCount <= |loads|
      && outcome.attemptedCount - |outcome.results| <= maxConcurrent
      && (!outcome.truncated ==> outcome.attemptedCount == |loads|)
      && budget.Spent().Within(budget.limits)
      && budget.Spent() == AfterAll(old(budget.Spent()), Pages(outcome.results, retained))
      && (outcome.attemptedCount == |loads| || AtBatchEnd(outcome.attemptedCount, maxConcurrent))
      && CouldGoOn(loads, retained, old(budget.Spent()), budget.limits, maxConcurrent, outcome.attemptedCount)
      && (outcome.truncated ==>
            || !After(budget.Spent(), retained(loads[|outcome.results|])).Within(budget.limits)
            || (!MoreFits(budget.Spent(), budget.limits) && AtBatchEnd(|outcome.results|, maxConcurrent)))
  {
    if maxConcurrent <= 0 || maxConcurrent > MAX_SAFE_INTEGER {
      return RangeError;
    }
    var results := [];
    var attemptedCount := 0;
    var offset: nat := 0;
    ghost var batches: nat := 0;
    while offset < |loads|
      invariant results == loads[..if offset <= |loads| then offset else |loads|]
      invariant offset == Batches(batches, maxConcurrent)
      invariant attemptedCount == |results|
      invariant CouldGoOn(loads, retained, old(budget.Spent()), budget.limits, maxConcurrent, offset)
      invariant 0 < batches && offset < |loads| ==>
        MoreFits(AfterAll(old(budget.Spent()), Pages(loads[..offset], retained)), budget.limits)
      invariant budget.Spent().Within(budget.limits)
      invariant budget.Spent() == AfterAll(old(budget.Spent()), Pages(results, retained))
      decreases |loads| - offset
    {
      var batchEnd := if offset + maxConcurrent <= |loads| then offset + maxConcurrent else |loads|;
      var loaded := loads[offset..batchEnd];
      OneMoreBatch(loads, retained, old(budget.Spent()), budget.limits, maxConcurrent, batches);
      attemptedCount := attemptedCount + |loaded|;
      var refused;
      results, refused := AdmitBatch(loads, loaded, offset, results, retained, budget, old(budget.Spent()));
      if refused {
        return Outcome(results, true, attemptedCount);
      }
      if !budget.CanRequestPage() && offset + |loaded| < |loads| {
        return Outcome(results, true, attemptedCount);
      }
      batches := batches + 1;
      offset := offset + maxConcurrent;
    }
    return Outcome(results, false, attemptedCount);
  }
}
