/** Median time past: the middle of the last eleven block times, and why it never goes back. */
module MedianTime {
  import opened BlockTree
  import opened Seqs
  import opened Sorting

  const MEDIAN_TIME_SPAN := 11

  predicate Le(a: int, b: int) { a <= b }

  lemma LeIsTotal()
    ensures TotalOrder(Le)
  {
  }

  /** The times of `h` and its predecessors, newest first, at most `n` of them. */
  ghost function Times(t: Tree, h: Hash, n: nat): (r: seq<int>)
    requires WellFormed(t) && h in t
    ensures |r| == if n <= t[h].height then n else t[h].height + 1
    decreases n
  {
    assert LinkOk(t, h);
    if n == 0 then []
    else if t[h].pprev.None? then [t[h].time]
    else [t[h].time] + Times(t, t[h].pprev.value, n - 1)
  }

  ghost function Median(times: seq<int>): int
    requires times != []
  {
    LeIsTotal();
    SortSorts(times, Le);
    Sort(times, Le)[|times| / 2]
  }

  /** The median of the last `span` times; the code's span is MEDIAN_TIME_SPAN. */
  ghost function MedianTimePast(t: Tree, h: Hash, span: nat): int
    requires WellFormed(t) && h in t && span > 0
  {
    Median(Times(t, h, span))
  }

  /** One step of a walk that collects times. */
  lemma TimesStep(t: Tree, h: Hash, span: nat, at: Hash, i: nat)
    requires WellFormed(t) && h in t && at in t && i < span && i <= |Times(t, h, span)|
    requires Times(t, h, span)[i..] == Times(t, at, span - i)
    ensures var times := Times(t, h, span);
      && i < |times| && times[i] == t[at].time
      && Reverse(times[..i + 1]) == [t[at].time] + Reverse(times[..i])
      && match t[at].pprev
         case None => i + 1 == |times|
         case Some(p) => p in t && times[i + 1..] == Times(t, p, span - i - 1)
  {
    assert LinkOk(t, at);
    var times := Times(t, h, span);
    assert times[i] == times[i..][0];
    assert times[..i + 1] == times[..i] + [times[i]];
    var empty: seq<int> := [];
    ReverseGrows(empty, times[i], times[..i]);
    assert times[i + 1..] == times[i..][1..];
  }

  /** Fills a buffer from its end with the times walked, sorts that part and takes its middle. */
  method MedianOfWindow(t: Tree, h: Hash, span: nat) returns (m: int)
    requires WellFormed(t) && h in t && span > 0
    ensures m == MedianTimePast(t, h, span)
  {
    var median := new int[span];
    var begin := span;
    var at := Some(h);
    ghost var times := Times(t, h, span);
    var i := 0;
    while i < span && at.Some?
      invariant 0 <= i <= span && begin == span - i && i <= |times|
      invariant at.Some? ==> at.value in t && times[i..] == Times(t, at.value, span - i)
      invariant at.None? ==> i == |times|
      invariant median[begin..] == Reverse(times[..i])
    {
      assert LinkOk(t, at.value);
      ghost var filled := median[begin..];
      begin := begin - 1;
      median[begin] := t[at.value].time;
      assert median[begin..] == [t[at.value].time] + filled;
      TimesStep(t, h, span, at.value, i);
      at := t[at.value].pprev;
      i := i + 1;
    }
    assert times[..i] == times;
    SortReverse(times);
    m := Sort(median[begin..], Le)[(span - begin) / 2];
  }

  method GetMedianTimePast(t: Tree, h: Hash) returns (m: int)
    requires WellFormed(t) && h in t
    ensures m == MedianTimePast(t, h, 11)
    ensures t[h].height >= 10 ==> Below(Times(t, h, 11), m) <= 5 && Below(Times(t, h, 11), m + 1) >= 6
  {
    m := MedianOfWindow(t, h, MEDIAN_TIME_SPAN);
    MedianRank(Times(t, h, 11), m);
    MedianRank(Times(t, h, 11), m + 1);
  }

  // ----- the k-th smallest, by counting -----

  /** How many elements are below `x`. */
  ghost function Below(s: seq<int>, x: int): nat {
    if s == [] then 0 else Below(s[1..], x) + if s[0] < x then 1 else 0
  }

  lemma {:induction false} BelowAppend(a: seq<int>, b: seq<int>, x: int)
    ensures Below(a + b, x) == Below(a, x) + Below(b, x)
  {
    if a == [] {
      assert a + b == b;
    } else {
      assert (a + b)[1..] == a[1..] + b;
      BelowAppend(a[1..], b, x);
    }
  }

  lemma {:induction false} BelowInsert(y: int, s: seq<int>, x: int)
    ensures Below(Insert(y, s, Le), x) == Below(s, x) + if y < x then 1 else 0
  {
    if s == [] {
      assert [y][1..] == [];
    } else if Le(y, s[0]) {
      assert ([y] + s)[1..] == s;
    } else {
      BelowInsert(y, s[1..], x);
      assert ([s[0]] + Insert(y, s[1..], Le))[1..] == Insert(y, s[1..], Le);
    }
  }

  lemma {:induction false} BelowSort(s: seq<int>, x: int)
    ensures Below(Sort(s, Le), x) == Below(s, x)
  {
    if s != [] {
      BelowSort(s[1..], x);
      BelowInsert(s[0], Sort(s[1..], Le), x);
    }
  }

  lemma {:induction false} BelowReverse(s: seq<int>, x: int)
    ensures Below(Reverse(s), x) == Below(s, x)
  {
    if s != [] {
      BelowReverse(s[1..], x);
      BelowAppend(Reverse(s[1..]), [s[0]], x);
      assert [s[0]][1..] == [];
    }
  }

  lemma {:induction false} BelowSize(s: seq<int>, x: int)
    ensures Below(s, x) <= |s|
    ensures (forall i :: 0 <= i < |s| ==> s[i] >= x) ==> Below(s, x) == 0
    ensures (forall i :: 0 <= i < |s| ==> s[i] < x) ==> Below(s, x) == |s|
  {
    if s != [] { BelowSize(s[1..], x); }
  }

  /** The k-th element of a sorted sequence is at least `x` exactly when at most k elements are below `x`. */
  lemma SortedRank(s: seq<int>, k: nat, x: int)
    requires Sorted(s, Le) && k < |s|
    ensures s[k] >= x <==> Below(s, x) <= k
  {
    var low, high := s[..k], s[k..];
    assert s == low + high;
    BelowAppend(low, high, x);
    if s[k] >= x {
      forall i | 0 <= i < |high| ensures high[i] >= x { assert i > 0 ==> Le(s[k], s[k + i]); }
      BelowSize(low, x);
      BelowSize(high, x);
    } else {
      forall i | 0 <= i < k ensures low[i] < x { assert Le(s[i], s[k]); }
      BelowSize(low, x);
      assert high[0] == s[k];
    }
  }

  /** The same times in the opposite order sort to the same sequence. */
  lemma SortReverse(a: seq<int>)
    ensures Sort(a, Le) == Sort(Reverse(a), Le) && |Sort(a, Le)| == |a|
  {
    LeIsTotal();
    var b := Reverse(a);
    SortSorts(a, Le);
    SortSorts(b, Le);
    var s, r := Sort(a, Le), Sort(b, Le);
    forall x ensures Below(s, x) == Below(r, x) {
      BelowSort(a, x);
      BelowSort(b, x);
      BelowReverse(a, x);
    }
    forall k | 0 <= k < |s| ensures s[k] == r[k] {
      SortedRank(s, k, s[k]);
      SortedRank(r, k, s[k]);
      SortedRank(s, k, r[k]);
      SortedRank(r, k, r[k]);
    }
  }

  /** The median is at least `x` exactly when no more than half (rounded down) is below `x`. */
  lemma MedianRank(times: seq<int>, x: int)
    requires times != []
    ensures Median(times) >= x <==> Below(times, x) <= |times| / 2
  {
    LeIsTotal();
    SortSorts(times, Le);
    SortedRank(Sort(times, Le), |times| / 2, x);
    BelowSort(times, x);
  }

  /** The window holds the times of the block and its ancestors, one by one. */
  lemma {:induction false} TimesAre(t: Tree, h: Hash, n: nat, i: nat)
    requires WellFormed(t) && h in t && i < n && i <= t[h].height
    ensures Times(t, h, n)[i] == t[Back(t, h, i)].time
    decreases n
  {
    assert LinkOk(t, h);
    if i > 0 { TimesAre(t, t[h].pprev.value, n - 1, i - 1); }
  }

  lemma {:induction false} TimesNatural(t: Tree, h: Hash, n: nat)
    requires WellFormed(t) && h in t
    ensures Below(Times(t, h, n), 0) == 0
    decreases n
  {
    assert LinkOk(t, h);
    if n > 0 {
      if t[h].pprev.Some? {
        TimesNatural(t, t[h].pprev.value, n - 1);
        assert Times(t, h, n)[1..] == Times(t, t[h].pprev.value, n - 1);
      } else {
        assert Times(t, h, n)[1..] == [];
      }
    }
  }

  lemma MedianNatural(t: Tree, h: Hash, span: nat)
    requires WellFormed(t) && h in t && span > 0
    ensures MedianTimePast(t, h, span) >= 0
  {
    TimesNatural(t, h, span);
    MedianRank(Times(t, h, span), 0);
  }

  // ----- chains -----

  /** Every block is later than the median of its predecessor's window. */
  ghost predicate TimesOk(t: Tree, span: nat)
    requires WellFormed(t) && span > 0
  {
    forall h {:trigger TimeOk(t, h, span)} :: TimeOk(t, h, span)
  }

  ghost predicate TimeOk(t: Tree, h: Hash, span: nat)
    requires WellFormed(t) && span > 0
  {
    h in t && t[h].pprev.Some? ==> (assert LinkOk(t, h); t[h].time >= MedianTimePast(t, t[h].pprev.value, span) + 1)
  }

  lemma {:induction false} TimesPrefix(t: Tree, h: Hash, m: nat, n: nat)
    requires WellFormed(t) && h in t && m <= n
    ensures Times(t, h, m) <= Times(t, h, n)
    decreases m
  {
    assert LinkOk(t, h);
    if m > 0 && t[h].pprev.Some? { TimesPrefix(t, t[h].pprev.value, m - 1, n - 1); }
  }

  /** Adding a time above the median, and dropping old ones from the far end, keeps the median up. */
  lemma WindowMoves(kept: seq<int>, dropped: seq<int>, time: int)
    requires kept + dropped != [] && |dropped| <= 1
    requires time > Median(kept + dropped)
    ensures Median([time] + kept) >= Median(kept + dropped)
  {
    var m := Median(kept + dropped);
    BelowAppend(kept, dropped, m);
    BelowAppend([time], kept, m);
    assert [time][1..] == [];
    MedianRank(kept + dropped, m);
    MedianRank([time] + kept, m);
  }

  /** Median time past does not decrease from a block to its successor, while the window still
      grows as well as when the oldest time drops out of it. */
  lemma MedianDoesNotDecrease(t: Tree, h: Hash, span: nat)
    requires WellFormed(t) && span > 0 && TimesOk(t, span) && h in t && t[h].pprev.Some?
    ensures t[h].pprev.value in t && MedianTimePast(t, h, span) >= MedianTimePast(t, t[h].pprev.value, span)
  {
    assert LinkOk(t, h) && TimeOk(t, h, span);
    var p := t[h].pprev.value;
    var before, kept := Times(t, p, span), Times(t, p, span - 1);
    TimesPrefix(t, p, span - 1, span);
    assert before == kept + before[|kept|..];
    WindowMoves(kept, before[|kept|..], t[h].time);
    assert Times(t, h, span) == [t[h].time] + kept;
  }

  /** Along a branch median time past never decreases. */
  lemma {:induction false} MedianMonotone(t: Tree, a: Hash, d: Hash, span: nat)
    requires WellFormed(t) && span > 0 && TimesOk(t, span) && AncestorOrSelf(t, a, d)
    ensures MedianTimePast(t, a, span) <= MedianTimePast(t, d, span)
    decreases t[d].height
  {
    assert LinkOk(t, d);
    if a != d {
      MedianDoesNotDecrease(t, d, span);
      MedianMonotone(t, a, t[d].pprev.value, span);
    }
  }

  lemma {:induction false} TimesGrow(t: Tree, t': Tree, h: Hash, n: nat)
    requires WellFormed(t) && WellFormed(t') && Grows(t, t') && h in t
    ensures Times(t', h, n) == Times(t, h, n)
    decreases n
  {
    assert LinkOk(t, h);
    if n > 0 && t[h].pprev.Some? { TimesGrow(t, t', t[h].pprev.value, n - 1); }
  }

  /** A new block later than its predecessor's median keeps every block so. */
  lemma AddedKeepsTimes(t: Tree, h: Hash, b: BlockIndex, span: nat)
    requires WellFormed(t) && span > 0 && TimesOk(t, span) && h !in t
    requires b.pprev.Some? && b.pprev.value in t && b.height == t[b.pprev.value].height + 1
    requires b.time > MedianTimePast(t, b.pprev.value, span)
    ensures WellFormed(t[h := b]) && TimesOk(t[h := b], span)
  {
    AddedBlock(t, h, b);
    var t' := t[h := b];
    forall x ensures TimeOk(t', x, span) {
      assert LinkOk(t', x) && LinkOk(t, x) && TimeOk(t, x, span);
      if x in t' && t'[x].pprev.Some? { TimesGrow(t, t', t'[x].pprev.value, span); }
    }
  }
}
