/** Reference-counted page locking: memory locks do not stack, so a page is locked with its first
    range and unlocked with its last. Pages are named by their number. */
module PageLocks {
  import Digits

  const ADDRESS_SPACE := 0x1_0000_0000_0000_0000

  type Address = n: nat | n < ADDRESS_SPACE

  datatype Range = Range(base: Address, size: Address)

  /** A call to the operating system. */
  datatype Call = Lock(page: nat) | Unlock(page: nat)

  /** The last page of a range that is not empty, in the machine's unsigned arithmetic. */
  function LastPage(pageSize: nat, r: Range): nat
    requires pageSize > 0 && r.size > 0
  {
    (r.base + r.size - 1) % ADDRESS_SPACE / pageSize
  }

  /** The pages from the first to the last one. A range past the top of the address space wraps, and
      touches nothing unless it comes round to its own first page. */
  ghost predicate Touches(pageSize: nat, r: Range, page: nat)
    requires pageSize > 0
  {
    r.size > 0 && r.base / pageSize <= page <= LastPage(pageSize, r)
  }

  /** A range within the address space touches exactly the pages of its bytes. */
  lemma TouchesIff(pageSize: nat, r: Range, page: nat)
    requires pageSize > 0 && r.base + r.size <= ADDRESS_SPACE
    ensures Touches(pageSize, r, page) <==> exists a :: r.base <= a < r.base + r.size && a / pageSize == page
  {
    if Touches(pageSize, r, page) {
      assert LastPage(pageSize, r) == (r.base + r.size - 1) / pageSize;
      var a := ByteOf(pageSize, r.base, r.base + r.size - 1, page);
    }
    if a :| r.base <= a < r.base + r.size && a / pageSize == page {
      PagesInOrder(pageSize, r.base, a);
      PagesInOrder(pageSize, a, r.base + r.size - 1);
    }
  }

  lemma PagesInOrder(pageSize: nat, a: nat, b: nat)
    requires pageSize > 0 && a <= b
    ensures a / pageSize <= b / pageSize
  {
    var p, q := a / pageSize, b / pageSize;
    assert p * pageSize <= a && b < q * pageSize + pageSize;
    if q < p { Digits.MulGap(q, p, pageSize); }
  }

  /** A byte between two bytes on a page between theirs. */
  lemma ByteOf(pageSize: nat, first: nat, last: nat, page: nat) returns (a: nat)
    requires pageSize > 0 && first <= last && first / pageSize <= page <= last / pageSize
    ensures first <= a <= last && a / pageSize == page
  {
    if page == first / pageSize { return first; }
    PageStart(pageSize, first, last, page);
    return page * pageSize;
  }

  /** A page after the first one starts within the range. */
  lemma PageStart(pageSize: nat, first: nat, last: nat, page: nat)
    requires pageSize > 0 && first / pageSize < page <= last / pageSize
    ensures first <= page * pageSize <= last && page * pageSize / pageSize == page
  {
    var p, q := first / pageSize, last / pageSize;
    MulMonotone(p + 1, page, pageSize);
    MulMonotone(page, q, pageSize);
    assert (p + 1) * pageSize == p * pageSize + pageSize;
    assert first < p * pageSize + pageSize && q * pageSize <= last;
    Digits.QuotientRemainder(page, 0, pageSize);
  }

  /** How many of the ranges touch a page. */
  ghost function Touching(pageSize: nat, live: seq<Range>, page: nat): nat
    requires pageSize > 0
  {
    if live == [] then 0
    else Touching(pageSize, live[1..], page) + if Touches(pageSize, live[0], page) then 1 else 0
  }

  lemma {:induction false} TouchingAppend(pageSize: nat, a: seq<Range>, b: seq<Range>, page: nat)
    requires pageSize > 0
    ensures Touching(pageSize, a + b, page) == Touching(pageSize, a, page) + Touching(pageSize, b, page)
  {
    if a == [] {
      assert a + b == b;
    } else {
      assert (a + b)[1..] == a[1..] + b;
      TouchingAppend(pageSize, a[1..], b, page);
    }
  }

  /** The ranges with one occurrence of `r` taken out. */
  ghost function Without(live: seq<Range>, r: Range): seq<Range> {
    if live == [] then []
    else if live[0] == r then live[1..]
    else [live[0]] + Without(live[1..], r)
  }

  lemma {:induction false} TouchingWithout(pageSize: nat, live: seq<Range>, r: Range, page: nat)
    requires pageSize > 0 && r in live
    ensures Touching(pageSize, live, page) ==
            Touching(pageSize, Without(live, r), page) + if Touches(pageSize, r, page) then 1 else 0
  {
    if live[0] != r {
      TouchingWithout(pageSize, live[1..], r, page);
      assert ([live[0]] + Without(live[1..], r))[1..] == Without(live[1..], r);
    }
  }

  // ----- the operating system's side -----

  /** Whether a page is locked after some calls. */
  ghost predicate Held(calls: seq<Call>, page: nat) {
    calls != [] &&
    var last := calls[|calls| - 1];
    if last.page == page then last.Lock? else Held(calls[..|calls| - 1], page)
  }

  /** No page is locked while locked or unlocked while not. */
  ghost predicate Alternating(calls: seq<Call>) {
    calls != [] ==>
      var before, last := calls[..|calls| - 1], calls[|calls| - 1];
      Alternating(before) && (last.Lock? <==> !Held(before, last.page))
  }

  lemma OneMoreCall(calls: seq<Call>, c: Call)
    requires Alternating(calls) && (c.Lock? <==> !Held(calls, c.page))
    ensures Alternating(calls + [c])
    ensures forall page :: Held(calls + [c], page) <==> if page == c.page then c.Lock? else Held(calls, page)
  {
    assert (calls + [c])[..|calls|] == calls;
  }

  class PageManager {
    const pageSize: nat
    var histogram: map<nat, nat>
    var calls: seq<Call>
    ghost var live: seq<Range>

    /** How often a page is counted. */
    ghost function Count(page: nat): nat
      reads this
    {
      if page in histogram then histogram[page] else 0
    }

    /** Counts are kept for locked pages only, and the calls made so far locked exactly those. */
    ghost predicate Tidy()
      reads this
    {
      && pageSize > 0
      && Alternating(calls)
      && (forall page :: page in histogram ==> histogram[page] > 0)
      && (forall page :: Held(calls, page) <==> page in histogram)
    }

    /** Each page's count is the number of live ranges that touch it. */
    ghost predicate Valid()
      reads this
    {
      Tidy() && forall page :: Count(page) == Touching(pageSize, live, page)
    }

    constructor (pageSize: nat)
      requires pageSize > 0 && ADDRESS_SPACE % pageSize == 0
      ensures Valid() && live == [] && this.pageSize == pageSize
    {
      this.pageSize := pageSize;
      histogram, calls, live := map[], [], [];
    }

    method LockPage(page: nat)
      requires Tidy()
      modifies `histogram, `calls
      ensures Tidy() && histogram == old(histogram)[page := old(Count(page)) + 1]
      ensures calls == old(calls) || (page !in old(histogram) && calls == old(calls) + [Lock(page)])
    {
      if page !in histogram {
        OneMoreCall(calls, Lock(page));
        calls := calls + [Lock(page)];
        histogram := histogram[page := 1];
      } else {
        histogram := histogram[page := histogram[page] + 1];
      }
    }

    method UnlockPage(page: nat)
      requires Tidy() && page in histogram
      modifies `histogram, `calls
      ensures Tidy()
      ensures histogram == if old(histogram)[page] == 1 then old(histogram) - {page}
                           else old(histogram)[page := old(histogram)[page] - 1]
      ensures calls == old(calls) || (page !in histogram && calls == old(calls) + [Unlock(page)])
    {
      histogram := histogram[page := histogram[page] - 1];
      if histogram[page] == 0 {
        OneMoreCall(calls, Unlock(page));
        calls := calls + [Unlock(page)];
        histogram := histogram - {page};
      }
    }

    /** Counts every page from `start` to `end` once more. */
    method LockPages(start: nat, end: nat, pages: nat)
      requires Tidy() && start <= end && end + 1 < pages
      modifies `histogram, `calls
      ensures Tidy() && forall q: nat :: Count(q) == old(Count(q)) + if start <= q <= end then 1 else 0
    {
      var page := start;
      while page <= end
        invariant start <= page <= end + 1 && Tidy()
        invariant forall q: nat :: Count(q) == old(Count(q)) + if start <= q < page then 1 else 0
      {
        label before:
        LockPage(page);
        assert forall q: nat :: q != page ==> Count(q) == old@before(Count(q));
        page := NextPage(pages, page);
      }
    }

    /** Counts every page from `start` to `end` once less. */
    method UnlockPages(start: nat, end: nat, pages: nat)
      requires Tidy() && start <= end && end + 1 < pages
      requires forall q :: start <= q <= end ==> q in histogram
      modifies `histogram, `calls
      ensures Tidy() && forall q: nat :: Count(q) == old(Count(q)) - if start <= q <= end then 1 else 0
    {
      var page := start;
      while page <= end
        invariant start <= page <= end + 1 && Tidy()
        invariant forall q: nat :: Count(q) == old(Count(q)) - if start <= q < page then 1 else 0
        invariant forall q :: page <= q <= end ==> q in histogram
      {
        UnlockPage(page);
        page := NextPage(pages, page);
      }
    }

    /** Locks a range, if its page loop ends. */
    method LockRange(base: Address, size: Address)
      requires Valid() && Finishes(pageSize, Range(base, size))
      modifies this
      ensures Valid() && live == old(live) + [Range(base, size)]
    {
      ghost var r := Range(base, size);
      if size == 0 {
        CountsWith(pageSize, live, r, 1, 0);
        live := live + [r];
        return;
      }
      var start, end := base / pageSize, LastPage(pageSize, Range(base, size));
      CountsWith(pageSize, live, r, start, end);
      live := live + [r];
      if start <= end { LockPages(start, end, ADDRESS_SPACE / pageSize); }
    }

    /** Unlocks a live range; its pages are all counted, so this never fails. */
    method UnlockRange(base: Address, size: Address)
      requires Valid() && Range(base, size) in live && Finishes(pageSize, Range(base, size))
      modifies this
      ensures Valid() && live == Without(old(live), Range(base, size))
    {
      ghost var rest := Without(live, Range(base, size));
      if size == 0 {
        CountsWithout(pageSize, live, Range(base, size), 1, 0);
        live := rest;
        return;
      }
      var start, end := base / pageSize, LastPage(pageSize, Range(base, size));
      CountsWithout(pageSize, live, Range(base, size), start, end);
      if start <= end {
        UnlockCounted(start, end, ADDRESS_SPACE / pageSize, rest);
      } else {
        live := rest;
      }
    }

    /** Unlocks the pages by which the live ranges exceed the rest. */
    method UnlockCounted(start: nat, end: nat, pages: nat, ghost rest: seq<Range>)
      requires Valid() && start <= end && end + 1 < pages
      requires forall q: nat ::
        Touching(pageSize, live, q) == Touching(pageSize, rest, q) + if start <= q <= end then 1 else 0
      modifies this
      ensures Valid() && live == rest
    {
      forall q | start <= q <= end ensures q in histogram {
        assert Count(q) == Touching(pageSize, live, q);
      }
      live := rest;
      UnlockPages(start, end, pages);
    }
  }

  /** The range touches the pages from start to end. */
  predicate Spans(pageSize: nat, r: Range, start: nat, end: nat)
    requires pageSize > 0
  {
    if r.size == 0 then start > end else start == r.base / pageSize && end == LastPage(pageSize, r)
  }

  /** Every count with one range more, and with one less. */
  lemma CountsWith(pageSize: nat, live: seq<Range>, r: Range, start: nat, end: nat)
    requires pageSize > 0 && Spans(pageSize, r, start, end)
    ensures forall page: nat :: Touching(pageSize, live + [r], page) ==
              Touching(pageSize, live, page) + if start <= page <= end then 1 else 0
  {
    forall page: nat ensures Touching(pageSize, live + [r], page) ==
                             Touching(pageSize, live, page) + if start <= page <= end then 1 else 0 {
      TouchingAppend(pageSize, live, [r], page);
      assert [r][1..] == [];
    }
  }

  lemma CountsWithout(pageSize: nat, live: seq<Range>, r: Range, start: nat, end: nat)
    requires pageSize > 0 && r in live && Spans(pageSize, r, start, end)
    ensures forall page: nat :: Touching(pageSize, live, page) ==
              Touching(pageSize, Without(live, r), page) + if start <= page <= end then 1 else 0
  {
    forall page: nat ensures Touching(pageSize, live, page) ==
                             Touching(pageSize, Without(live, r), page) + if start <= page <= end then 1 else 0 {
      TouchingWithout(pageSize, live, r, page);
    }
  }

  /** The page loop over the range ends. */
  predicate Finishes(pageSize: nat, r: Range)
    requires pageSize > 0
  {
    r.size > 0 ==>
      r.base / pageSize > LastPage(pageSize, r) || LastPage(pageSize, r) + 1 < ADDRESS_SPACE / pageSize
  }

  /** The next of `pages` pages, in the machine's unsigned arithmetic. */
  function NextPage(pages: nat, page: nat): (next: nat)
    requires pages > 0
    ensures next < pages && (page + 1 < pages ==> next == page + 1)
  {
    (page + 1) % pages
  }

  /** The page the loop is at after k steps. */
  function PageAt(pages: nat, start: nat, k: nat): (page: nat)
    requires start < pages
    ensures page < pages
  {
    if k == 0 then start else NextPage(pages, PageAt(pages, start, k - 1))
  }

  lemma {:induction false} StepsInOrder(pages: nat, start: nat, k: nat)
    requires start + k < pages
    ensures PageAt(pages, start, k) == start + k
  {
    if k > 0 { StepsInOrder(pages, start, k - 1); }
  }

  /** A loop from start to end comes to a page past end exactly if it is past it at once or end is not
      the topmost page: the page after that one is page 0 again. */
  lemma LoopEndsIff(pages: nat, start: nat, end: nat)
    requires start < pages && end < pages
    ensures (exists k: nat :: PageAt(pages, start, k) > end) <==> start > end || end + 1 < pages
  {
    if start > end {
      assert PageAt(pages, start, 0) > end;
    } else if end + 1 < pages {
      StepsInOrder(pages, start, end + 1 - start);
      assert PageAt(pages, start, end + 1 - start) > end;
    }
  }

  /** So exactly the ranges that finish can be locked. */
  lemma FinishesIff(pageSize: nat, r: Range)
    requires pageSize > 0 && ADDRESS_SPACE % pageSize == 0 && r.size > 0
    ensures var pages, start := ADDRESS_SPACE / pageSize, r.base / pageSize;
      && start < pages && LastPage(pageSize, r) < pages
      && (Finishes(pageSize, r) <==> exists k: nat :: PageAt(pages, start, k) > LastPage(pageSize, r))
  {
    var pages := ADDRESS_SPACE / pageSize;
    PageOfAddress(pageSize, r.base);
    PageOfAddress(pageSize, (r.base + r.size - 1) % ADDRESS_SPACE);
    LoopEndsIff(pages, r.base / pageSize, LastPage(pageSize, r));
  }

  /** The last byte of the address space: its page loop never ends. */
  lemma TopNeverEnds(pageSize: nat, k: nat)
    requires pageSize > 0 && ADDRESS_SPACE % pageSize == 0
    ensures var r, pages := Range(ADDRESS_SPACE - 1, 1), ADDRESS_SPACE / pageSize;
      && !Finishes(pageSize, r) && r.base / pageSize < pages
      && PageAt(pages, r.base / pageSize, k) <= LastPage(pageSize, r)
  {
    var r, pages := Range(ADDRESS_SPACE - 1, 1), ADDRESS_SPACE / pageSize;
    PageOfAddress(pageSize, r.base);
    LastOfSpace(pageSize, pages);
  }

  lemma LastOfSpace(pageSize: nat, pages: nat)
    requires pageSize > 0 && ADDRESS_SPACE == pages * pageSize && pages > 0
    ensures (ADDRESS_SPACE - 1) / pageSize == pages - 1
  {
    var p := (ADDRESS_SPACE - 1) / pageSize;
    assert ADDRESS_SPACE - 1 == p * pageSize + (ADDRESS_SPACE - 1) % pageSize;
    if pages <= p { MulMonotone(pages, p, pageSize); }
    assert (p + 1) * pageSize == p * pageSize + pageSize;
    if p + 1 < pages { MulMonotone(p + 2, pages, pageSize); }
  }

  lemma PageOfAddress(pageSize: nat, a: nat)
    requires pageSize > 0 && ADDRESS_SPACE % pageSize == 0 && a < ADDRESS_SPACE
    ensures a / pageSize < ADDRESS_SPACE / pageSize
  {
    var p, pages := a / pageSize, ADDRESS_SPACE / pageSize;
    assert a == p * pageSize + a % pageSize && ADDRESS_SPACE == pages * pageSize;
    if pages <= p { MulMonotone(pages, p, pageSize); }
  }

  lemma {:induction false} MulMonotone(a: nat, b: nat, c: nat)
    requires a <= b
    ensures a * c <= b * c
  {
    if a < b {
      MulMonotone(a, b - 1, c);
      assert b * c == (b - 1) * c + c;
    }
  }

  datatype Op = LockOp(r: Range) | UnlockOp(r: Range)

  ghost function After(live: seq<Range>, op: Op): seq<Range> {
    match op
    case LockOp(r) => live + [r]
    case UnlockOp(r) => Without(live, r)
  }

  ghost function AfterAll(live: seq<Range>, ops: seq<Op>): seq<Range>
  {
    if ops == [] then live else After(AfterAll(live, ops[..|ops| - 1]), ops[|ops| - 1])
  }

  /** Every page loop ends, and every range unlocked is live then. */
  ghost predicate Matched(pageSize: nat, ops: seq<Op>)
    requires pageSize > 0
  {
    forall n :: 0 <= n < |ops| ==>
      Finishes(pageSize, ops[n].r) && (ops[n].UnlockOp? ==> ops[n].r in AfterAll([], ops[..n]))
  }

  /** Any matched sequence of calls leaves counts, locks and live ranges in agreement. */
  method Run(pageSize: nat, ops: seq<Op>) returns (m: PageManager)
    requires pageSize > 0 && ADDRESS_SPACE % pageSize == 0 && Matched(pageSize, ops)
    ensures m.Valid() && m.pageSize == pageSize && m.live == AfterAll([], ops)
  {
    m := new PageManager(pageSize);
    for n := 0 to |ops|
      invariant m.Valid() && fresh(m) && m.pageSize == pageSize && m.live == AfterAll([], ops[..n])
    {
      assert ops[..n + 1][..n] == ops[..n];
      match ops[n]
      case LockOp(r) => m.LockRange(r.base, r.size);
      case UnlockOp(r) => m.UnlockRange(r.base, r.size);
    }
    assert ops[..|ops|] == ops;
  }

  /** In any state reached by locking ranges and unlocking live ones, the operating system holds a
      page exactly while some live range touches it. */
  lemma HeldWhileTouched(m: PageManager, page: nat)
    requires m.Valid()
    ensures Held(m.calls, page) <==> exists i :: 0 <= i < |m.live| && Touches(m.pageSize, m.live[i], page)
    ensures Alternating(m.calls)
  {
    assert m.Count(page) == Touching(m.pageSize, m.live, page);
    TouchedIffCounted(m.pageSize, m.live, page);
  }

  lemma {:induction false} TouchedIffCounted(pageSize: nat, live: seq<Range>, page: nat)
    requires pageSize > 0
    ensures Touching(pageSize, live, page) > 0 <==> exists i :: 0 <= i < |live| && Touches(pageSize, live[i], page)
  {
    if live != [] {
      TouchedIffCounted(pageSize, live[1..], page);
      if i :| 0 <= i < |live| && Touches(pageSize, live[i], page) {
        if i > 0 { assert live[1..][i - 1] == live[i]; }
      }
      if j :| 0 <= j < |live[1..]| && Touches(pageSize, live[1..][j], page) {
        assert live[j + 1] == live[1..][j];
      }
      assert live[0] == live[0];
    }
  }
}
