/** The manager's own consistency check, and what exactly it decides. */
module AddrCheck {
  import opened AddrBook
  import opened AddrMan
  import opened Sets

  /** A map lookup that yields 0, and stores it, for a missing key. */
  function Lookup(ids: map<NetAddr, int>, a: NetAddr): int { if a in ids then ids[a] else 0 }

  ghost predicate EntryAccepted(k: Book, id: int) {
    id in k.infos ==>
      var e := k.infos[id];
      && (if e.inTried then e.lastSuccess != 0 && e.refCount == 0 else 0 < e.refCount <= NEW_BUCKETS_PER_ADDRESS)
      && Lookup(k.ids, e.address.service.net) == id
      && 0 <= e.pos < |k.order| && k.order[e.pos] == id
      && e.lastTry >= 0 && e.lastSuccess >= 0
  }

  ghost predicate EntriesAccepted(k: Book) {
    forall id {:trigger EntryAccepted(k, id)} :: EntryAccepted(k, id)
  }

  /** All buckets one after the other. */
  ghost function Flat(buckets: seq<seq<int>>): seq<int> {
    if buckets == [] then [] else Flat(buckets[..|buckets| - 1]) + buckets[|buckets| - 1]
  }

  /** No repetition, and nothing outside `s`. */
  ghost predicate Picks(list: seq<int>, s: set<int>) {
    NoDup(list) && forall x :: x in list ==> x in s
  }

  ghost predicate Counts(buckets: seq<set<int>>, refs: map<int, int>) {
    && (forall b, x :: 0 <= b < |buckets| && x in buckets[b] ==> x in refs)
    && forall x :: x in refs ==> |Homes(buckets, x)| == refs[x]
  }

  ghost function Refs(infos: map<int, Entry>): map<int, int> {
    map id | id in infos && !infos[id].inTried :: infos[id].refCount
  }

  /** The condition the check decides. */
  ghost predicate Accepts(k: Book) {
    && |k.order| == k.triedCount + k.newCount
    && EntriesAccepted(k)
    && |TriedIds(k.infos)| == k.triedCount
    && |NewIds(k.infos)| == k.newCount
    && Picks(Flat(k.triedBuckets), TriedIds(k.infos))
    && (forall x :: x in TriedIds(k.infos) ==> x in Flat(k.triedBuckets))
    && Counts(k.newBuckets, Refs(k.infos))
  }

  // ----- flattened buckets -----

  lemma {:induction false} FlatPrefix(buckets: seq<seq<int>>, n: nat)
    requires n <= |buckets|
    ensures Flat(buckets[..n]) <= Flat(buckets)
  {
    if n < |buckets| {
      FlatPrefix(buckets[..|buckets| - 1], n);
      assert buckets[..|buckets| - 1][..n] == buckets[..n];
    } else {
      assert buckets[..n] == buckets;
    }
  }

  lemma FlatAt(buckets: seq<seq<int>>, n: nat, i: nat)
    requires n < |buckets| && i <= |buckets[n]|
    ensures Flat(buckets[..n]) + buckets[n][..i] <= Flat(buckets)
    ensures Flat(buckets[..n + 1]) == Flat(buckets[..n]) + buckets[n]
  {
    assert buckets[..n + 1][..n] == buckets[..n];
    FlatPrefix(buckets, n + 1);
    assert Flat(buckets[..n]) + buckets[n][..i] <= Flat(buckets[..n + 1]);
  }

  lemma PicksPrefix(list: seq<int>, all: seq<int>, s: set<int>)
    requires list <= all && Picks(all, s)
    ensures Picks(list, s)
  {
    forall x | x in list ensures x in s {
      var i :| 0 <= i < |list| && list[i] == x;
      assert all[i] == x;
    }
  }

  // ----- the three passes -----

  /** The codes for an entry's own table fields. */
  function TableCode(e: Entry): int {
    if e.inTried then
      if e.lastSuccess == 0 then -1 else if e.refCount != 0 then -2 else 0
    else
      if e.refCount < 0 || e.refCount > NEW_BUCKETS_PER_ADDRESS then -3 else if e.refCount == 0 then -4 else 0
  }

  /** The codes for an entry's links and times; `mapped` is the id its address maps to. */
  function LinkCode(e: Entry, id: int, mapped: int, order: seq<int>): int {
    if mapped != id then -5
    else if e.pos < 0 || e.pos >= |order| || order[e.pos] != id then -14
    else if e.lastTry < 0 then -6
    else if e.lastSuccess < 0 then -8
    else 0
  }

  lemma CodesDecide(k: Book, id: int)
    requires id in k.infos
    ensures var e := k.infos[id];
      EntryAccepted(k, id) <==>
      TableCode(e) == 0 && LinkCode(e, id, Lookup(k.ids, e.address.service.net), k.order) == 0
  {
  }

  /** Every entry's address has an id. */
  ghost predicate Covers(k: Book) {
    forall id {:trigger Covered(k, id)} :: Covered(k, id)
  }

  ghost predicate Covered(k: Book, id: int) { id in k.infos ==> k.infos[id].address.service.net in k.ids }

  /** The ids among the first entries visited that are tried, and the counts of the others. */
  ghost function TriedAmong(infos: map<int, Entry>, list: seq<int>): set<int> {
    set id | id in list && id in infos && infos[id].inTried
  }

  ghost function RefsAmong(infos: map<int, Entry>, list: seq<int>): map<int, int> {
    map id | id in list && id in infos && !infos[id].inTried :: infos[id].refCount
  }

  lemma AmongStep(infos: map<int, Entry>, list: seq<int>, id: int)
    requires id in infos
    ensures TriedAmong(infos, list + [id]) ==
        if infos[id].inTried then TriedAmong(infos, list) + {id} else TriedAmong(infos, list)
    ensures RefsAmong(infos, list + [id]) ==
            if infos[id].inTried then RefsAmong(infos, list) else RefsAmong(infos, list)[id := infos[id].refCount]
  {
  }

  lemma AmongAll(infos: map<int, Entry>, list: seq<int>)
    requires forall id :: id in list <==> id in infos
    ensures TriedAmong(infos, list) == TriedIds(infos) && RefsAmong(infos, list) == Refs(infos)
  {
    assert forall id :: id in TriedAmong(infos, list) <==> id in TriedIds(infos);
    assert forall id :: id in RefsAmong(infos, list) <==> id in Refs(infos);
  }

  /** One entry of the first pass. */
  method CheckEntry(m: AddrMan, id: int, ghost k: Book) returns (r: int)
    requires id in m.infos && k.infos == m.infos && k.order == m.order
    requires forall a :: Lookup(m.ids, a) == Lookup(k.ids, a)
    requires Covers(k) ==> m.ids == k.ids
    modifies m`ids
    ensures r == 0 <==> EntryAccepted(k, id)
    ensures forall a :: Lookup(m.ids, a) == Lookup(k.ids, a)
    ensures Covers(k) ==> m.ids == k.ids
  {
    var e := m.infos[id];
    CodesDecide(k, id);
    assert Covers(k) ==> Covered(k, id);
    r := TableCode(e);
    if r != 0 { return; }
    var net := e.address.service.net;
    assert Lookup(m.ids, net) == Lookup(k.ids, net);
    if net !in m.ids { m.ids := m.ids[net := 0]; }
    r := LinkCode(e, id, m.ids[net], m.order);
  }

  /** First pass: every entry, collecting the tried ids and the reference counts of the rest. */
  method CheckEntries(m: AddrMan) returns (r: int, tried: set<int>, refs: map<int, int>)
    modifies m`ids
    ensures r == 0 <==> EntriesAccepted(old(m.Now()))
    ensures r == 0 ==> tried == TriedIds(m.infos) && refs == Refs(m.infos)
    ensures Covers(old(m.Now())) ==> m.ids == old(m.ids)
  {
    tried, refs := {}, map[];
    var keys := Ascending(m.infos.Keys);
    ghost var k := old(m.Now());
    for n := 0 to |keys|
      invariant forall j :: 0 <= j < n ==> EntryAccepted(k, keys[j])
      invariant tried == TriedAmong(m.infos, keys[..n]) && refs == RefsAmong(m.infos, keys[..n])
      invariant forall a :: Lookup(m.ids, a) == Lookup(k.ids, a)
      invariant Covers(k) ==> m.ids == k.ids
    {
      var id := keys[n];
      r := CheckEntry(m, id, k);
      if r != 0 { return; }
      if m.infos[id].inTried { tried := tried + {id}; } else { refs := refs[id := m.infos[id].refCount]; }
      assert keys[..n + 1] == keys[..n] + [id];
      AmongStep(m.infos, keys[..n], id);
    }
    r := 0;
    forall id ensures EntryAccepted(k, id) {
      if id in m.infos { assert id in keys; }
    }
    assert keys[..|keys|] == keys;
    AmongAll(m.infos, keys);
  }

  /** Second pass: the tried buckets use up the tried ids. */
  method CheckTried(m: AddrMan, tried: set<int>) returns (r: int, left: set<int>)
    ensures r == 0 <==> Picks(Flat(m.triedBuckets), tried)
    ensures r == 0 ==> left == tried - (set x | x in Flat(m.triedBuckets))
  {
    left := tried;
    for n := 0 to |m.triedBuckets|
      invariant Picks(Flat(m.triedBuckets[..n]), tried)
      invariant left == tried - (set x | x in Flat(m.triedBuckets[..n]))
    {
      ghost var seen := Flat(m.triedBuckets[..n]);
      for i := 0 to |m.triedBuckets[n]|
        invariant Picks(seen + m.triedBuckets[n][..i], tried)
        invariant left == tried - (set x | x in seen + m.triedBuckets[n][..i])
      {
        ghost var sofar := seen + m.triedBuckets[n][..i];
        var x := m.triedBuckets[n][i];
        assert seen + m.triedBuckets[n][..i + 1] == sofar + [x];
        FlatAt(m.triedBuckets, n, i + 1);
        if x !in left {
          assert !Picks(sofar + [x], tried) by {
            if x in tried {
              var j :| 0 <= j < |sofar| && sofar[j] == x;
              assert (sofar + [x])[j] == (sofar + [x])[|sofar|];
            } else {
              assert x in sofar + [x];
            }
          }
          if Picks(Flat(m.triedBuckets), tried) { PicksPrefix(sofar + [x], Flat(m.triedBuckets), tried); }
          return -11, left;
        }
        left := left - {x};
      }
      FlatAt(m.triedBuckets, n, 0);
      assert m.triedBuckets[n][..|m.triedBuckets[n]|] == m.triedBuckets[n];
    }
    assert m.triedBuckets[..|m.triedBuckets|] == m.triedBuckets;
    r := 0;
  }

  /** What is left of the reference counts after the memberships in `seen`. */
  ghost predicate Remaining(seen: seq<set<int>>, refs: map<int, int>, left: map<int, int>) {
    && (forall b, x :: 0 <= b < |seen| && x in seen[b] ==> x in refs)
    && (forall x :: x in left ==> x in refs && 0 < left[x] == refs[x] - |Homes(seen, x)|)
    && (forall x :: x in refs && x !in left ==> |Homes(seen, x)| == refs[x])
  }

  ghost function Used(left: map<int, int>, x: int): map<int, int>
    requires x in left
  {
    if left[x] == 1 then left - {x} else left[x := left[x] - 1]
  }

  lemma RemainingStep(seen: seq<set<int>>, n: int, x: int, refs: map<int, int>, left: map<int, int>)
    requires Remaining(seen, refs, left) && 0 <= n < |seen| && x !in seen[n] && x in left
    ensures Remaining(seen[n := seen[n] + {x}], refs, Used(left, x))
  {
    var seen' := seen[n := seen[n] + {x}];
    forall y ensures |Homes(seen', y)| == |Homes(seen, y)| + if y == x then 1 else 0 {
      HomesPut(seen, n, x, y);
      assert y == x ==> n !in Homes(seen, y);
    }
  }

  /** A member without remaining count refutes the counts. */
  lemma Overused(buckets: seq<set<int>>, seen: seq<set<int>>, n: int, x: int, refs: map<int, int>, left: map<int, int>)
    requires Remaining(seen, refs, left) && x !in left
    requires 0 <= n < |seen| <= |buckets| && x in buckets[n] && x !in seen[n]
    requires forall b :: 0 <= b < |seen| ==> seen[b] <= buckets[b]
    ensures !Counts(buckets, refs)
  {
    if x in refs {
      var more := Homes(seen, x) + {n};
      assert n !in Homes(seen, x);
      SubsetSize(more, Homes(buckets, x));
    }
  }

  lemma RemainingDone(buckets: seq<set<int>>, refs: map<int, int>, left: map<int, int>)
    requires Remaining(buckets, refs, left)
    ensures |left| == 0 <==> Counts(buckets, refs)
  {
    if |left| != 0 {
      var x := Witness(left.Keys);
      assert 0 < left[x] == refs[x] - |Homes(buckets, x)|;
    } else {
      assert left == map[];
    }
  }

  /** Third pass: the "new" buckets use up the reference counts. */
  method CheckNew(m: AddrMan, refs: map<int, int>) returns (r: int, left: map<int, int>)
    requires forall x :: x in refs ==> refs[x] > 0
    ensures r == 0 && |left| == 0 <==> Counts(m.newBuckets, refs)
  {
    var buckets := m.newBuckets;
    left := refs;
    assert forall x :: Homes([], x) == {};
    for n := 0 to |buckets|
      invariant Remaining(buckets[..n], refs, left)
    {
      ghost var seen;
      r, left, seen := CheckBucket(buckets, n, refs, left);
      if r != 0 { return; }
    }
    assert buckets[..|buckets|] == buckets;
    RemainingDone(buckets, refs, left);
    r := 0;
  }

  /** One bucket of the third pass. */
  method CheckBucket(buckets: seq<set<int>>, n: nat, refs: map<int, int>, left: map<int, int>)
    returns (r: int, left': map<int, int>, ghost seen: seq<set<int>>)
    requires n < |buckets| && Remaining(buckets[..n], refs, left)
    ensures r == 0 ==> Remaining(buckets[..n + 1], refs, left')
    ensures r != 0 ==> !Counts(buckets, refs)
  {
    var rest := buckets[n];
    seen := buckets[..n] + [{}];
    left' := left;
    assert forall x :: Homes(seen, x) == Homes(buckets[..n], x);
    while rest != {}
      invariant |seen| == n + 1 && forall b :: 0 <= b < n ==> seen[b] == buckets[b]
      invariant rest <= buckets[n] && seen[n] == buckets[n] - rest
      invariant Remaining(seen, refs, left')
      decreases rest
    {
      var x := Least(rest);
      if x !in left' {
        Overused(buckets, seen, n, x, refs, left');
        return -12, left', seen;
      }
      RemainingStep(seen, n, x, refs, left');
      left' := left'[x := left'[x] - 1];
      if left'[x] == 0 { left' := left' - {x}; }
      rest := rest - {x};
      seen := seen[n := seen[n] + {x}];
    }
    assert seen[n] == buckets[n];
    assert seen == buckets[..n + 1];
    r := 0;
  }

  /** The whole check: 0 exactly for the states it is meant to accept. */
  method Check(m: AddrMan) returns (r: int)
    modifies m`ids
    ensures r == 0 <==> Accepts(old(m.Now()))
    ensures Covers(old(m.Now())) ==> m.ids == old(m.ids)
  {
    if |m.order| != m.triedCount + m.newCount { return -7; }
    var tried, refs, left, counts;
    r, tried, refs := CheckEntries(m);
    if r != 0 { return; }
    RefsPositive(old(m.Now()));
    if |tried| != m.triedCount { return -9; }
    if |refs| != m.newCount { return -10; }
    r, left := CheckTried(m, tried);
    if r != 0 { return; }
    r, counts := CheckNew(m, refs);
    if r != 0 { return; }
    AllPicked(tried, Flat(m.triedBuckets));
    if |left| != 0 { return -13; }
    if |counts| != 0 { return -15; }
  }

  lemma RefsPositive(k: Book)
    requires EntriesAccepted(k)
    ensures |Refs(k.infos)| == |NewIds(k.infos)| && forall x :: x in Refs(k.infos) ==> Refs(k.infos)[x] > 0
  {
    assert Refs(k.infos).Keys == NewIds(k.infos);
    forall x | x in Refs(k.infos) ensures Refs(k.infos)[x] > 0 { assert EntryAccepted(k, x); }
  }

  lemma AllPicked(s: set<int>, list: seq<int>)
    ensures |s - (set x | x in list)| == 0 <==> forall x :: x in s ==> x in list
  {
    var left := s - (set x | x in list);
    assert forall x :: x in s ==> x in list || x in left;
    if |left| != 0 { var x := Witness(left); } else { assert left == {}; }
  }
}
