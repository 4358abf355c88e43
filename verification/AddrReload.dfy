/** Reading a written address manager back gives the same manager up to a renaming of ids. */
module AddrReload {
  import opened AddrBook
  import opened AddrMan
  import opened AddrRuns
  import opened AddrDisk
  import opened Sets

  /** The entry of an id (ids without an entry do not occur). */
  ghost function EntryOf(k: Book, id: int): Entry {
    if id in k.infos then k.infos[id] else NewEntry(Address(Service(NetAddr([]), 0), 0, {}), NetAddr([]))
  }

  ghost function NetOf(k: Book, id: int): NetAddr { EntryOf(k, id).address.service.net }

  /** What id `i` of the reloaded manager holds: the stored part of the i-th entry written. */
  ghost function Image(k: Book, all: seq<int>, i: int, refs: int): Entry
    requires 0 <= i < |all|
  {
    Restored(Stored(EntryOf(k, all[i]))).(pos := i, inTried := EntryOf(k, all[i]).inTried, refCount := refs)
  }

  ghost function Images(k: Book, all: seq<int>, n: nat, buckets: seq<set<int>>): map<int, Entry>
    requires n <= |all|
  {
    map i | 0 <= i < n :: Image(k, all, i, |Homes(buckets, i)|)
  }

  ghost function IdsUpTo(k: Book, all: seq<int>, n: nat): map<NetAddr, int>
    requires n <= |all|
  {
    if n == 0 then map[] else IdsUpTo(k, all, n - 1)[NetOf(k, all[n - 1]) := n - 1]
  }

  ghost function Range(n: nat): (r: seq<int>)
    ensures |r| == n && forall i :: 0 <= i < n ==> r[i] == i
  {
    seq(n, i => i)
  }

  /** The new ids from `from` up to `n` whose entries belong in tried bucket `b`, in order. */
  ghost function Chosen(env: Env, k: Book, all: seq<int>, from: nat, n: nat, b: int): seq<int>
    requires n <= |all|
  {
    if n <= from then []
    else
      var rest := Chosen(env, k, all, from, n - 1, b);
      if TriedBucket(env, k.key, EntryOf(k, all[n - 1]).address.service) == b then rest + [n - 1] else rest
  }

  ghost function ChosenAll(env: Env, k: Book, all: seq<int>, from: nat, n: nat): (r: seq<seq<int>>)
    requires n <= |all|
    ensures |r| == TRIED_BUCKET_COUNT && forall b :: 0 <= b < |r| ==> r[b] == Chosen(env, k, all, from, n, b)
  {
    seq(TRIED_BUCKET_COUNT, b requires 0 <= b < TRIED_BUCKET_COUNT => Chosen(env, k, all, from, n, b))
  }

  /** The state after reading the first `n` entries, of which `from` are "new". */
  ghost function Rebuilt(env: Env, k: Book, all: seq<int>, from: nat, n: nat, buckets: seq<set<int>>): Book
    requires n <= |all|
  {
    Book(k.key, n, Images(k, all, n, buckets), IdsUpTo(k, all, n), Range(n),
         k.triedCount, ChosenAll(env, k, all, from, n), k.newCount, buckets)
  }

  ghost function EmptyNew(): (r: seq<set<int>>)
    ensures |r| == NEW_BUCKET_COUNT && forall b :: 0 <= b < |r| ==> r[b] == {}
    ensures forall i :: Homes(r, i) == {}
  {
    seq(NEW_BUCKET_COUNT, _ => {})
  }

  /** The two managers agree once id `i` of the second is read as id `all[i]` of the first; the
      time of the last try is not stored. */
  ghost predicate SameUpToIds(k: Book, k': Book, all: seq<int>) {
    && ListsSet(all, k.infos.Keys) && SameEntries(k, k', all) && SameIndex(k, k', all) && SameBuckets(k, k', all)
    && k'.key == k.key && k'.newCount == k.newCount && k'.triedCount == k.triedCount
  }

  ghost predicate SameEntries(k: Book, k': Book, all: seq<int>) {
    && (forall i :: i in k'.infos <==> 0 <= i < |all|)
    && (forall i :: 0 <= i < |all| && all[i] in k.infos && i in k'.infos ==>
          k'.infos[i] == k.infos[all[i]].(lastTry := 0, pos := i))
  }

  ghost predicate SameIndex(k: Book, k': Book, all: seq<int>) {
    && (forall a :: a in k'.ids <==> a in k.ids)
    && (forall i :: 0 <= i < |all| ==> NetOf(k, all[i]) in k'.ids && k'.ids[NetOf(k, all[i])] == i)
  }

  ghost predicate SameBuckets(k: Book, k': Book, all: seq<int>) {
    && |k'.newBuckets| == |k.newBuckets| && |k'.triedBuckets| == |k.triedBuckets|
    && (forall b, i :: 0 <= b < |k.newBuckets| && 0 <= i < |all| ==>
          (i in k'.newBuckets[b] <==> all[i] in k.newBuckets[b]))
    && (forall b, i :: 0 <= b < |k.triedBuckets| && 0 <= i < |all| ==>
          (i in k'.triedBuckets[b] <==> all[i] in k.triedBuckets[b]))
  }

  // ----- the order of writing covers every entry once -----

  lemma AllListed(env: Env, k: Book, l: Layout)
    requires Ok(env, k, -1) && LayoutOk(k, l)
    ensures var all := l.news + l.trieds;
      && ListsSet(all, k.infos.Keys)
      && |l.news| == k.newCount && |l.trieds| == k.triedCount
      && (forall i :: 0 <= i < |all| ==> all[i] in k.infos && (EntryOf(k, all[i]).inTried <==> i >= |l.news|))
  {
    var all := l.news + l.trieds;
    ListSize(l.news, NewIds(k.infos));
    ListSize(l.trieds, TriedIds(k.infos));
    forall i | 0 <= i < |all| ensures all[i] in k.infos && (EntryOf(k, all[i]).inTried <==> i >= |l.news|) {
      if i < |l.news| { assert l.news[i] in l.news; } else { assert l.trieds[i - |l.news|] in l.trieds; }
    }
    forall x ensures x in all <==> x in k.infos.Keys {
      assert x in k.infos ==> x in l.news || x in l.trieds;
    }
  }

  lemma NetsDiffer(env: Env, k: Book, all: seq<int>, i: int, j: int)
    requires Ok(env, k, -1) && ListsSet(all, k.infos.Keys) && 0 <= i < j < |all|
    ensures NetOf(k, all[i]) != NetOf(k, all[j])
  {
    assert all[i] in all && all[j] in all;
    assert Indexed(k.infos, k.ids, all[i]) && Indexed(k.infos, k.ids, all[j]);
  }

  /** The index maps exactly the first n addresses to their places. */
  ghost predicate IdsTo(k: Book, all: seq<int>, n: nat, ids: map<NetAddr, int>) {
    && n <= |all|
    && (forall i :: 0 <= i < n ==> NetOf(k, all[i]) in ids && ids[NetOf(k, all[i])] == i)
    && (forall a :: a in ids ==> 0 <= ids[a] < n && NetOf(k, all[ids[a]]) == a)
  }

  lemma IdsMore(k: Book, all: seq<int>, n: nat, ids: map<NetAddr, int>, net: NetAddr)
    requires IdsTo(k, all, n, ids) && n < |all| && net == NetOf(k, all[n])
    requires forall i :: 0 <= i < n ==> NetOf(k, all[i]) != net
    ensures IdsTo(k, all, n + 1, ids[net := n])
  {
  }

  lemma {:induction false} IdsFacts(env: Env, k: Book, all: seq<int>, n: nat)
    requires Ok(env, k, -1) && ListsSet(all, k.infos.Keys) && n <= |all|
    ensures IdsTo(k, all, n, IdsUpTo(k, all, n))
  {
    if n > 0 {
      var net := NetOf(k, all[n - 1]);
      IdsFacts(env, k, all, n - 1);
      forall i | 0 <= i < n - 1 ensures NetOf(k, all[i]) != net { NetsDiffer(env, k, all, i, n - 1); }
      IdsMore(k, all, n - 1, IdsUpTo(k, all, n - 1), net);
    }
  }

  lemma {:induction false} ChosenFacts(env: Env, k: Book, all: seq<int>, from: nat, n: nat, b: int)
    requires n <= |all|
    ensures var c := Chosen(env, k, all, from, n, b);
      && NoDup(c)
      && forall i :: i in c <==> from <= i < n && TriedBucket(env, k.key, EntryOf(k, all[i]).address.service) == b
  {
    if n > from { ChosenFacts(env, k, all, from, n - 1, b); }
  }

  lemma {:induction false} SubListSize(list: seq<int>, s: set<int>)
    requires NoDup(list) && forall x :: x in list ==> x in s
    ensures |list| <= |s|
  {
    if list != [] {
      var last, init := list[|list| - 1], list[..|list| - 1];
      assert list == init + [last];
      SubListSize(init, s - {last});
    }
  }

  lemma {:induction false} IntervalSize(lo: int, hi: int, s: set<int>)
    requires lo <= hi && forall x :: x in s <==> lo <= x < hi
    ensures |s| == hi - lo
    decreases hi - lo
  {
    if lo == hi {
      if s != {} { var x := Witness(s); }
    } else {
      IntervalSize(lo, hi - 1, s - {hi - 1});
    }
  }

  ghost function Mapped(all: seq<int>, list: seq<int>): (r: seq<int>)
    requires forall i :: 0 <= i < |list| ==> 0 <= list[i] < |all|
    ensures |r| == |list| && forall i :: 0 <= i < |list| ==> r[i] == all[list[i]]
  {
    seq(|list|, i requires 0 <= i < |list| => all[list[i]])
  }

  /** Renaming a list without repetition gives one without repetition. */
  lemma MappedNoDup(all: seq<int>, list: seq<int>)
    requires NoDup(all) && NoDup(list) && forall i :: 0 <= i < |list| ==> 0 <= list[i] < |all|
    ensures NoDup(Mapped(all, list))
  {
    forall i, j | 0 <= i < j < |list| ensures all[list[i]] != all[list[j]] {
      assert list[i] != list[j];
    }
  }

  /** A tried bucket being rebuilt never holds more than the original, so nothing is lost. */
  lemma RoomForTried(env: Env, k: Book, l: Layout, n: nat, b: int)
    requires Ok(env, k, -1) && LayoutOk(k, l) && n <= |l.news + l.trieds| && 0 <= b < TRIED_BUCKET_COUNT
    ensures |Chosen(env, k, l.news + l.trieds, |l.news|, n, b)| <= TRIED_BUCKET_SIZE
  {
    var all := l.news + l.trieds;
    var c := Chosen(env, k, all, |l.news|, n, b);
    AllListed(env, k, l);
    ChosenFacts(env, k, all, |l.news|, n, b);
    forall i | 0 <= i < |c| ensures 0 <= c[i] < |all| { assert c[i] in c; }
    MappedNoDup(all, c);
    var list := Mapped(all, c);
    var originals := set x | x in k.triedBuckets[b];
    forall i | 0 <= i < |list| ensures list[i] in originals {
      assert c[i] in c;
      ChosenIsOriginal(env, k, l, c[i], b);
    }
    BucketRoom(env, k, b, list, originals);
  }

  /** A tried entry that hashes to a bucket was in that bucket. */
  lemma ChosenIsOriginal(env: Env, k: Book, l: Layout, i: int, b: int)
    requires Ok(env, k, -1) && LayoutOk(k, l) && |l.news| <= i < |l.news + l.trieds|
    requires TriedBucket(env, k.key, EntryOf(k, (l.news + l.trieds)[i]).address.service) == b
    ensures 0 <= b < |k.triedBuckets| && (l.news + l.trieds)[i] in k.triedBuckets[b]
  {
    var x := (l.news + l.trieds)[i];
    assert x == l.trieds[i - |l.news|];
    assert x in TriedIds(k.infos);
    assert TriedPlaced(env, k.key, k.infos, k.triedBuckets, x);
  }

  lemma BucketRoom(env: Env, k: Book, b: int, list: seq<int>, originals: set<int>)
    requires TriedOk(env, k.key, k.infos, k.triedBuckets) && 0 <= b < TRIED_BUCKET_COUNT && NoDup(list)
    requires originals == set x | x in k.triedBuckets[b]
    requires forall x :: x in list ==> x in originals
    ensures |list| <= TRIED_BUCKET_SIZE
  {
    SubListSize(list, originals);
    assert TriedBucketOk(env, k.key, k.infos, k.triedBuckets, b);
    ListSize(k.triedBuckets[b], originals);
  }

  // ----- the rebuilt state -----

  /** The "new" buckets rebuilt from the members written. */
  ghost function NewFrom(members: seq<seq<int>>): (r: seq<set<int>>)
    ensures |r| == |members| && forall b :: 0 <= b < |r| ==> r[b] == set i | i in members[b]
  {
    seq(|members|, b requires 0 <= b < |members| => set i | i in members[b])
  }

  lemma HomesAgree(k: Book, l: Layout, i: int)
    requires LayoutOk(k, l) && 0 <= i < |l.news + l.trieds|
    requires i >= |l.news| ==> Homes(k.newBuckets, (l.news + l.trieds)[i]) == {}
    ensures Homes(NewFrom(l.members), i) == Homes(k.newBuckets, (l.news + l.trieds)[i])
  {
    forall b | 0 <= b < |l.members|
      ensures i in NewFrom(l.members)[b] <==> i < |l.news| && l.news[i] in k.newBuckets[b]
    {
      assert MembersOk(k, l.news, l.members[b], b);
    }
  }

  /** Everything read: what the reloaded manager is. */
  ghost function Reloaded(env: Env, k: Book, l: Layout): Book {
    var all := l.news + l.trieds;
    Rebuilt(env, k, all, |l.news|, |all|, NewFrom(l.members))
  }

  lemma ReloadedEntry(env: Env, k: Book, l: Layout, i: int)
    requires Ok(env, k, -1) && LayoutOk(k, l) && 0 <= i < |l.news + l.trieds|
    ensures var all := l.news + l.trieds;
      && all[i] in k.infos
      && Reloaded(env, k, l).infos[i] == k.infos[all[i]].(lastTry := 0, pos := i)
      && Homes(NewFrom(l.members), i) == Homes(k.newBuckets, all[i])
  {
    var all := l.news + l.trieds;
    AllListed(env, k, l);
    if i >= |l.news| { NoHome(k.infos, k.newBuckets, all[i], -1); }
    HomesAgree(k, l, i);
    assert RefOk(k.infos, k.newBuckets, all[i], -1);
  }

  lemma ReloadedIndex(env: Env, k: Book, l: Layout)
    requires Ok(env, k, -1) && LayoutOk(k, l)
    ensures IndexOk(Reloaded(env, k, l).infos, Reloaded(env, k, l).ids)
    ensures OrderOk(Reloaded(env, k, l).infos, Reloaded(env, k, l).order)
  {
    var all, r := l.news + l.trieds, Reloaded(env, k, l);
    AllListed(env, k, l);
    IdsFacts(env, k, all, |all|);
    forall a ensures Names(r.infos, r.ids, a) {}
    forall i ensures Indexed(r.infos, r.ids, i) {}
    forall i ensures PointsBack(r.infos, r.order, i) {}
    forall i ensures Placed(r.infos, r.order, i) {}
  }

  /** The rebuilt index has the same addresses. */
  lemma ReloadedNames(env: Env, k: Book, l: Layout, r: Book, all: seq<int>)
    requires Ok(env, k, -1) && LayoutOk(k, l) && r == Reloaded(env, k, l) && all == l.news + l.trieds
    ensures SameIndex(k, r, all)
  {
    AllListed(env, k, l);
    IdsFacts(env, k, all, |all|);
    forall a ensures a in r.ids <==> a in k.ids {
      assert Names(k.infos, k.ids, a);
      if a in k.ids {
        var id := k.ids[a];
        assert id in all;
        var i :| 0 <= i < |all| && all[i] == id;
        assert NetOf(k, all[i]) == a;
      }
      if a in r.ids { assert Indexed(k.infos, k.ids, all[r.ids[a]]); }
    }
  }

  lemma ReloadedNew(env: Env, k: Book, l: Layout)
    requires Ok(env, k, -1) && LayoutOk(k, l)
    ensures NewOk(Reloaded(env, k, l).infos, NewFrom(l.members), -1)
  {
    var r, buckets := Reloaded(env, k, l), NewFrom(l.members);
    AllListed(env, k, l);
    forall b ensures NewBucketOk(r.infos, buckets, b) {
      if 0 <= b < |buckets| { ReloadedBucket(env, k, l, r.infos, buckets, b); }
    }
    forall i ensures RefOk(r.infos, buckets, i, -1) {
      if i in r.infos {
        ReloadedEntry(env, k, l, i);
        assert RefOk(k.infos, k.newBuckets, (l.news + l.trieds)[i], -1);
      }
    }
  }

  lemma ReloadedBucket(env: Env, k: Book, l: Layout, m: map<int, Entry>, buckets: seq<set<int>>, b: int)
    requires Ok(env, k, -1) && LayoutOk(k, l) && m == Reloaded(env, k, l).infos && buckets == NewFrom(l.members)
    requires 0 <= b < |buckets|
    ensures NewBucketOk(m, buckets, b)
  {
    AllListed(env, k, l);
    var ms := l.members[b];
    assert MembersOk(k, l.news, ms, b) && NewBucketOk(k.infos, k.newBuckets, b);
    BucketFits(l.news, ms, k.newBuckets[b]);
    ListSize(ms, buckets[b]);
  }

  /** A bucket has as many members as places written for them. */
  lemma BucketFits(news: seq<int>, ms: seq<int>, bucket: set<int>)
    requires NoDup(news) && NoDup(ms) && forall i :: i in ms <==> 0 <= i < |news| && news[i] in bucket
    ensures |ms| <= |bucket|
  {
    forall i | 0 <= i < |ms| ensures 0 <= ms[i] < |news| { assert ms[i] in ms; }
    MappedNoDup(news, ms);
    var list := Mapped(news, ms);
    forall i | 0 <= i < |list| ensures list[i] in bucket { assert ms[i] in ms; }
    SubListSize(list, bucket);
  }

  lemma ReloadedTried(env: Env, k: Book, l: Layout)
    requires Ok(env, k, -1) && LayoutOk(k, l)
    ensures TriedOk(env, k.key, Reloaded(env, k, l).infos, Reloaded(env, k, l).triedBuckets)
  {
    var all, r := l.news + l.trieds, Reloaded(env, k, l);
    AllListed(env, k, l);
    forall b ensures TriedBucketOk(env, k.key, r.infos, r.triedBuckets, b) {
      if 0 <= b < TRIED_BUCKET_COUNT {
        ChosenFacts(env, k, all, |l.news|, |all|, b);
        RoomForTried(env, k, l, |all|, b);
      }
    }
    forall i ensures TriedPlaced(env, k.key, r.infos, r.triedBuckets, i) {
      if i in r.infos && r.infos[i].inTried {
        ChosenFacts(env, k, all, |l.news|, |all|, TriedBucket(env, k.key, r.infos[i].address.service));
      }
    }
  }

  lemma ReloadedCounts(env: Env, k: Book, l: Layout)
    requires Ok(env, k, -1) && LayoutOk(k, l)
    ensures CountOk(Reloaded(env, k, l).infos, k.triedCount, k.newCount)
  {
    var r := Reloaded(env, k, l);
    AllListed(env, k, l);
    IntervalSize(0, |l.news|, NewIds(r.infos));
    IntervalSize(|l.news|, |l.news + l.trieds|, TriedIds(r.infos));
  }

  /** Reading back what was written gives the same manager, under new ids. */
  lemma RoundTrip(env: Env, k: Book, l: Layout)
    requires Ok(env, k, -1) && LayoutOk(k, l)
    ensures Ok(env, Reloaded(env, k, l), -1)
    ensures SameUpToIds(k, Reloaded(env, k, l), l.news + l.trieds)
  {
    ReloadedOk(env, k, l, Reloaded(env, k, l));
    ReloadedSame(env, k, l, Reloaded(env, k, l), l.news + l.trieds);
  }

  lemma ReloadedOk(env: Env, k: Book, l: Layout, r: Book)
    requires Ok(env, k, -1) && LayoutOk(k, l) && r == Reloaded(env, k, l)
    ensures Ok(env, r, -1)
  {
    ReloadedIndex(env, k, l);
    ReloadedNew(env, k, l);
    ReloadedTried(env, k, l);
    ReloadedCounts(env, k, l);
  }

  lemma ReloadedSame(env: Env, k: Book, l: Layout, r: Book, all: seq<int>)
    requires Ok(env, k, -1) && LayoutOk(k, l) && r == Reloaded(env, k, l) && all == l.news + l.trieds
    ensures SameUpToIds(k, r, all)
  {
    AllListed(env, k, l);
    ReloadedEntries(env, k, l, r, all);
    ReloadedNames(env, k, l, r, all);
    SameNew(env, k, l);
    SameTried(env, k, l);
  }

  lemma ReloadedEntries(env: Env, k: Book, l: Layout, r: Book, all: seq<int>)
    requires Ok(env, k, -1) && LayoutOk(k, l) && r == Reloaded(env, k, l) && all == l.news + l.trieds
    ensures SameEntries(k, r, all)
  {
    AllListed(env, k, l);
    forall i | 0 <= i < |all| ensures r.infos[i] == k.infos[all[i]].(lastTry := 0, pos := i) {
      ReloadedEntry(env, k, l, i);
    }
  }

  lemma SameNew(env: Env, k: Book, l: Layout)
    requires Ok(env, k, -1) && LayoutOk(k, l)
    ensures var all := l.news + l.trieds;
      forall b, i :: 0 <= b < |k.newBuckets| && 0 <= i < |all| ==>
        (i in NewFrom(l.members)[b] <==> all[i] in k.newBuckets[b])
  {
    var all := l.news + l.trieds;
    forall b, i | 0 <= b < |k.newBuckets| && 0 <= i < |all|
      ensures i in NewFrom(l.members)[b] <==> all[i] in k.newBuckets[b]
    {
      ReloadedEntry(env, k, l, i);
      assert b in Homes(NewFrom(l.members), i) <==> b in Homes(k.newBuckets, all[i]);
    }
  }

  lemma SameTried(env: Env, k: Book, l: Layout)
    requires Ok(env, k, -1) && LayoutOk(k, l)
    ensures var all := l.news + l.trieds;
      forall b, i :: 0 <= b < |k.triedBuckets| && 0 <= i < |all| ==>
        (i in Reloaded(env, k, l).triedBuckets[b] <==> all[i] in k.triedBuckets[b])
  {
    var all := l.news + l.trieds;
    AllListed(env, k, l);
    forall b, i | 0 <= b < |k.triedBuckets| && 0 <= i < |all|
      ensures i in Reloaded(env, k, l).triedBuckets[b] <==> all[i] in k.triedBuckets[b]
    {
      ChosenFacts(env, k, all, |l.news|, |all|, b);
      assert TriedBucketOk(env, k.key, k.infos, k.triedBuckets, b);
      assert TriedPlaced(env, k.key, k.infos, k.triedBuckets, all[i]);
    }
  }

  // ----- the reader -----

  lemma TokensAt(k: Book, l: Layout)
    requires LayoutOk(k, l)
    ensures var file, all := Encode(k, l), l.news + l.trieds;
      && |file| == 5 + |all| + |BucketTokens(l.members)|
      && file[..5] == Header(k.key, k.newCount, k.triedCount)
      && (forall i :: 0 <= i < |all| ==> file[5 + i] == EntryToken(k.infos, all[i]))
      && file[5 + |all|..] == BucketTokens(l.members)
  {
  }

  lemma ImagesStep(k: Book, all: seq<int>, n: nat, buckets: seq<set<int>>)
    requires n < |all|
    ensures Images(k, all, n + 1, buckets) == Images(k, all, n, buckets)[n := Image(k, all, n, |Homes(buckets, n)|)]
  {
  }

  /** One more "new" entry. */
  ghost function NewRead(r: Book, n: int, d: DiskEntry): Book {
    r.(infos := r.infos[n := Restored(d).(pos := |r.order|)],
       ids := r.ids[d.address.service.net := n],
       order := r.order + [n])
  }

  /** One more tried entry, its bucket having room. */
  ghost function TriedRead(env: Env, r: Book, d: DiskEntry): Book
    requires |r.triedBuckets| == TRIED_BUCKET_COUNT
  {
    var t := TriedBucket(env, r.key, d.address.service);
    NewRead(r, r.nextId, d).(
      infos := r.infos[r.nextId := Restored(d).(pos := |r.order|, inTried := true)],
      triedBuckets := r.triedBuckets[t := r.triedBuckets[t] + [r.nextId]],
      nextId := r.nextId + 1)
  }

  lemma NewReadStep(env: Env, k: Book, l: Layout, n: nat)
    requires Ok(env, k, -1) && LayoutOk(k, l) && n < |l.news|
    ensures var all := l.news + l.trieds;
      && all[n] in k.infos
      && NewRead(Rebuilt(env, k, all, |l.news|, n, EmptyNew()).(nextId := 0), n, Stored(k.infos[all[n]])) ==
         Rebuilt(env, k, all, |l.news|, n + 1, EmptyNew()).(nextId := 0)
  {
    var all := l.news + l.trieds;
    AllListed(env, k, l);
    ImagesStep(k, all, n, EmptyNew());
    assert ChosenAll(env, k, all, |l.news|, n) == ChosenAll(env, k, all, |l.news|, n + 1);
  }

  lemma TriedReadStep(env: Env, k: Book, l: Layout, n: nat)
    requires Ok(env, k, -1) && LayoutOk(k, l) && |l.news| <= n < |l.news + l.trieds|
    ensures var all := l.news + l.trieds;
      && all[n] in k.infos
      && var b := TriedBucket(env, k.key, k.infos[all[n]].address.service);
      && |Chosen(env, k, all, |l.news|, n, b)| < TRIED_BUCKET_SIZE
      && TriedRead(env, Rebuilt(env, k, all, |l.news|, n, EmptyNew()), Stored(k.infos[all[n]])) ==
         Rebuilt(env, k, all, |l.news|, n + 1, EmptyNew())
  {
    var all := l.news + l.trieds;
    AllListed(env, k, l);
    var r, d := Rebuilt(env, k, all, |l.news|, n, EmptyNew()), Stored(k.infos[all[n]]);
    var t := TriedBucket(env, k.key, k.infos[all[n]].address.service);
    RoomForTried(env, k, l, n + 1, t);
    ImagesStep(k, all, n, EmptyNew());
    assert TriedRead(env, r, d).triedBuckets == ChosenAll(env, k, all, |l.news|, n + 1);
    assert TriedRead(env, r, d).order == Range(n + 1);
  }

  method ReadNew(m: AddrMan, n: int, d: DiskEntry)
    modifies m`infos, m`ids, m`order
    ensures m.Now() == NewRead(old(m.Now()), n, d)
  {
    m.infos := m.infos[n := Restored(d)];
    m.ids := m.ids[d.address.service.net := n];
    m.infos := m.infos[n := m.infos[n].(pos := |m.order|)];
    m.order := m.order + [n];
  }

  method ReadTried(m: AddrMan, d: DiskEntry) returns (kept: bool)
    requires |m.triedBuckets| == TRIED_BUCKET_COUNT
    modifies m`infos, m`ids, m`order, m`triedBuckets, m`nextId
    ensures kept <==> |old(m.triedBuckets)[TriedBucket(m.env, m.key, d.address.service)]| < TRIED_BUCKET_SIZE
    ensures m.Now() == if kept then TriedRead(m.env, old(m.Now()), d) else old(m.Now())
  {
    var e := Restored(d);
    var t := TriedBucket(m.env, m.key, e.address.service);
    kept := |m.triedBuckets[t]| < TRIED_BUCKET_SIZE;
    if kept {
      e := e.(pos := |m.order|, inTried := true);
      m.order := m.order + [m.nextId];
      m.infos := m.infos[m.nextId := e];
      m.ids := m.ids[e.address.service.net := m.nextId];
      m.triedBuckets := m.triedBuckets[t := m.triedBuckets[t] + [m.nextId]];
      m.nextId := m.nextId + 1;
    }
  }

  /** The state of a reader that has seen `n` entries. */
  ghost function Seen(env: Env, k: Book, l: Layout, n: nat): Book
    requires n <= |l.news + l.trieds|
  {
    Rebuilt(env, k, l.news + l.trieds, |l.news|, n, EmptyNew())
  }

  lemma NewReadSeen(env: Env, k: Book, l: Layout, n: nat, file: seq<Token>)
    requires Ok(env, k, -1) && LayoutOk(k, l) && file == Encode(k, l) && n < |l.news|
    ensures 5 + n < |file| && file[5 + n].TEntry?
    ensures NewRead(Seen(env, k, l, n).(nextId := 0), n, file[5 + n].entry) == Seen(env, k, l, n + 1).(nextId := 0)
  {
    TokensAt(k, l);
    NewReadStep(env, k, l, n);
  }

  lemma TriedReadSeen(env: Env, k: Book, l: Layout, n: nat, file: seq<Token>)
    requires Ok(env, k, -1) && LayoutOk(k, l) && file == Encode(k, l) && |l.news| <= n < |l.news + l.trieds|
    ensures 5 + n < |file| && file[5 + n].TEntry?
    ensures var d, r := file[5 + n].entry, Seen(env, k, l, n);
      && |r.triedBuckets[TriedBucket(env, k.key, d.address.service)]| < TRIED_BUCKET_SIZE
      && TriedRead(env, r, d) == Seen(env, k, l, n + 1)
  {
    TokensAt(k, l);
    TriedReadStep(env, k, l, n);
  }

  /** Reads the "new" entries under ids 0, 1, ... */
  method ReadNews(m: AddrMan, file: seq<Token>, ghost k: Book, ghost l: Layout)
    requires Ok(m.env, k, -1) && LayoutOk(k, l) && file == Encode(k, l) && m.newCount == |l.news|
    requires m.Now() == Seen(m.env, k, l, 0)
    modifies m`infos, m`ids, m`order
    ensures m.Now() == Seen(m.env, k, l, |l.news|).(nextId := 0)
  {
    for n := 0 to m.newCount
      invariant m.Now() == Seen(m.env, k, l, n).(nextId := 0)
    {
      NewReadSeen(m.env, k, l, n, file);
      ReadNew(m, n, file[5 + n].entry);
    }
  }

  method ReadTriedAt(m: AddrMan, file: seq<Token>, pos: nat, ghost k: Book, ghost l: Layout, ghost at: nat)
    returns (kept: bool)
    requires Ok(m.env, k, -1) && LayoutOk(k, l) && file == Encode(k, l)
    requires |l.news| <= at < |l.news + l.trieds| && pos == 5 + at && m.Now() == Seen(m.env, k, l, at)
    modifies m`infos, m`ids, m`order, m`triedBuckets, m`nextId
    ensures kept && m.Now() == Seen(m.env, k, l, at + 1)
  {
    TriedReadSeen(m.env, k, l, at, file);
    kept := ReadTried(m, file[pos].entry);
  }

  lemma SeenSame(env: Env, k: Book, l: Layout, a: nat, b: nat)
    requires a == b <= |l.news + l.trieds|
    ensures Seen(env, k, l, a) == Seen(env, k, l, b)
  {
  }

  /** Reads the tried entries into the buckets their keys select. */
  method ReadTrieds(m: AddrMan, file: seq<Token>, ghost k: Book, ghost l: Layout) returns (lost: int)
    requires Ok(m.env, k, -1) && LayoutOk(k, l) && file == Encode(k, l)
    requires m.newCount == |l.news| && m.triedCount == |l.trieds|
    requires m.Now() == Seen(m.env, k, l, |l.news|)
    modifies m`infos, m`ids, m`order, m`triedBuckets, m`nextId
    ensures lost == 0
    ensures m.Now() == Seen(m.env, k, l, |l.news + l.trieds|)
  {
    lost := 0;
    ghost var at := |l.news|;
    for j := 0 to m.triedCount
      invariant lost == 0 && at == |l.news| + j
      invariant m.Now() == Seen(m.env, k, l, at)
    {
      var kept := ReadTriedAt(m, file, 5 + m.newCount + j, k, l, at);
      if !kept { lost := lost + 1; }
      at := at + 1;
    }
    SeenSame(m.env, k, l, at, |l.news + l.trieds|);
  }

  // ----- bucket members -----

  /** One more member of "new" bucket `b`. */
  ghost function MemberRead(r: Book, b: int, i: int): Book
    requires i in r.infos && 0 <= b < |r.newBuckets|
  {
    r.(infos := r.infos[i := r.infos[i].(refCount := r.infos[i].refCount + 1)],
       newBuckets := r.newBuckets[b := r.newBuckets[b] + {i}])
  }

  /** Buckets on the way from empty to the ones written. */
  ghost predicate Within(buckets: seq<set<int>>, members: seq<seq<int>>) {
    |buckets| == |members| && forall b, i :: 0 <= b < |buckets| && i in buckets[b] ==> i in members[b]
  }

  /** A member still to be read has room for one more reference. */
  lemma RoomForMember(env: Env, k: Book, l: Layout, buckets: seq<set<int>>, b: int, i: int)
    requires Ok(env, k, -1) && LayoutOk(k, l) && Within(buckets, l.members)
    requires 0 <= b < |buckets| && i in l.members[b] && i !in buckets[b]
    ensures 0 <= i < |l.news + l.trieds| && |Homes(buckets, i)| < NEW_BUCKETS_PER_ADDRESS
  {
    var all := l.news + l.trieds;
    assert MembersOk(k, l.news, l.members[b], b);
    ReloadedEntry(env, k, l, i);
    assert RefOk(k.infos, k.newBuckets, all[i], -1);
    assert NewBucketOk(k.infos, k.newBuckets, b);
    assert b !in Homes(buckets, i);
    SubsetSize(Homes(buckets, i) + {b}, Homes(NewFrom(l.members), i));
  }

  lemma ImagesPut(k: Book, all: seq<int>, buckets: seq<set<int>>, b: int, i: int)
    requires 0 <= b < |buckets| && 0 <= i < |all| && i !in buckets[b]
    ensures var e := Image(k, all, i, |Homes(buckets, i)|);
      Images(k, all, |all|, buckets)[i := e.(refCount := e.refCount + 1)] ==
      Images(k, all, |all|, buckets[b := buckets[b] + {i}])
  {
    forall j | 0 <= j < |all|
      ensures |Homes(buckets[b := buckets[b] + {i}], j)| == |Homes(buckets, j)| + if j == i then 1 else 0
    {
      HomesPut(buckets, b, i, j);
      assert b !in Homes(buckets, i);
    }
  }

  lemma MemberReadStep(env: Env, k: Book, l: Layout, buckets: seq<set<int>>, b: int, i: int)
    requires Ok(env, k, -1) && LayoutOk(k, l) && Within(buckets, l.members)
    requires 0 <= b < |buckets| && i in l.members[b] && i !in buckets[b]
    ensures var r := Filled(env, k, l, buckets);
      && i in r.infos && r.infos[i].refCount < NEW_BUCKETS_PER_ADDRESS
      && MemberRead(r, b, i) == Filled(env, k, l, buckets[b := buckets[b] + {i}])
  {
    RoomForMember(env, k, l, buckets, b, i);
    ImagesPut(k, l.news + l.trieds, buckets, b, i);
  }

  method ReadMember(m: AddrMan, b: int, i: int)
    requires 0 <= b < |m.newBuckets| && i in m.infos && m.infos[i].refCount < NEW_BUCKETS_PER_ADDRESS
    modifies m`infos, m`newBuckets
    ensures m.Now() == MemberRead(old(m.Now()), b, i)
  {
    if m.infos[i].refCount < NEW_BUCKETS_PER_ADDRESS {
      m.infos := m.infos[i := m.infos[i].(refCount := m.infos[i].refCount + 1)];
      m.newBuckets := m.newBuckets[b := m.newBuckets[b] + {i}];
    }
  }

  /** The state of a reader that has seen all entries and filled `buckets`. */
  ghost function Filled(env: Env, k: Book, l: Layout, buckets: seq<set<int>>): Book {
    Rebuilt(env, k, l.news + l.trieds, |l.news|, |l.news + l.trieds|, buckets)
  }

  /** Where the tokens of bucket `b` are, if those of all buckets start at `off`. */
  lemma BucketSlice(file: seq<Token>, off: nat, members: seq<seq<int>>, b: nat, pos: nat, ms: seq<int>)
    requires off <= |file| && file[off..] == BucketTokens(members) && b < |members| && ms == members[b]
    requires pos == off + |BucketTokens(members[..b])|
    ensures pos + |ms| < |file| && file[pos..pos + 1 + |ms|] == MemberTokens(ms)
  {
    BucketTokensAt(members, b);
    SliceAt(file, off, BucketTokens(members[..b]), MemberTokens(ms), pos);
  }

  lemma SliceAt<T>(whole: seq<T>, off: nat, head: seq<T>, mid: seq<T>, pos: nat)
    requires off <= |whole| && head + mid <= whole[off..] && pos == off + |head|
    ensures pos + |mid| <= |whole| && whole[pos..pos + |mid|] == mid
  {
    forall i | 0 <= i < |mid| ensures whole[pos + i] == mid[i] {
      assert whole[off..][|head| + i] == (head + mid)[|head| + i];
    }
  }

  /** The buckets after the first `n` members of bucket `b`. */
  ghost function FilledTo(members: seq<seq<int>>, b: nat, n: nat): (r: seq<set<int>>)
    requires b < |members| && n <= |members[b]|
    ensures |r| == |members|
    ensures forall c :: 0 <= c < |r| ==>
        r[c] == if c < b then set i | i in members[c] else if c == b then set i | i in members[b][..n] else {}
  {
    seq(|members|, c requires 0 <= c < |members| =>
      if c < b then set i | i in members[c] else if c == b then set i | i in members[b][..n] else {})
  }

  lemma FilledStep(members: seq<seq<int>>, b: nat, n: nat)
    requires b < |members| && n < |members[b]| && NoDup(members[b])
    ensures Within(FilledTo(members, b, n), members) && members[b][n] !in FilledTo(members, b, n)[b]
    ensures var f := FilledTo(members, b, n);
      FilledTo(members, b, n + 1) == f[b := f[b] + {members[b][n]}]
  {
    assert members[b][..n + 1] == members[b][..n] + [members[b][n]];
    forall c, i | 0 <= c < |members| && i in FilledTo(members, b, n)[c] ensures i in members[c] {
      if c == b { assert i in members[b][..n]; }
    }
    var f := FilledTo(members, b, n);
    assert FilledTo(members, b, n + 1)[b] == f[b] + {members[b][n]};
  }

  lemma FilledNext(members: seq<seq<int>>, b: nat)
    requires b < |members|
    ensures b + 1 < |members| ==> FilledTo(members, b, |members[b]|) == FilledTo(members, b + 1, 0)
    ensures b + 1 == |members| ==> FilledTo(members, b, |members[b]|) == NewFrom(members)
    ensures |members| == NEW_BUCKET_COUNT ==> FilledTo(members, 0, 0) == EmptyNew()
  {
    assert members[b][..|members[b]|] == members[b];
    assert forall c :: 0 <= c < |members| ==> (set i | i in members[c][..0]) == {};
  }

  /** The tokens of a bucket start at `pos`. */
  ghost predicate BucketHere(file: seq<Token>, pos: nat, members: seq<int>) {
    && pos + |members| < |file|
    && file[pos] == TInt(|members|)
    && forall n :: 0 <= n < |members| ==> TokenHere(file, pos + 1 + n, members[n])
  }

  predicate TokenHere(file: seq<Token>, at: int, i: int) { 0 <= at < |file| && file[at] == TInt(i) }

  lemma MemberHere(file: seq<Token>, pos: nat, ms: seq<int>, n: nat)
    requires pos + |ms| < |file| && n < |ms| && file[pos..pos + 1 + |ms|] == MemberTokens(ms)
    ensures TokenHere(file, pos + 1 + n, ms[n])
  {
    assert file[pos..pos + 1 + |ms|][n + 1] == TInt(ms[n]);
  }

  lemma BucketIsHere(file: seq<Token>, off: nat, members: seq<seq<int>>, b: nat, pos: nat, ms: seq<int>)
    requires off <= |file| && file[off..] == BucketTokens(members) && b < |members| && ms == members[b]
    requires pos == off + |BucketTokens(members[..b])|
    ensures BucketHere(file, pos, ms)
  {
    BucketSlice(file, off, members, b, pos, ms);
    assert file[pos..pos + 1 + |ms|][0] == TInt(|ms|);
    forall n | 0 <= n < |ms| ensures TokenHere(file, pos + 1 + n, ms[n]) { MemberHere(file, pos, ms, n); }
  }

  /** What reading one member does. */
  lemma MemberStep(env: Env, k: Book, l: Layout, b: nat, n: nat)
    requires Ok(env, k, -1) && LayoutOk(k, l) && b < |l.members| && n < |l.members[b]|
    ensures var r, i := Filled(env, k, l, FilledTo(l.members, b, n)), l.members[b][n];
      && i in r.infos && r.infos[i].refCount < NEW_BUCKETS_PER_ADDRESS
      && MemberRead(r, b, i) == Filled(env, k, l, FilledTo(l.members, b, n + 1))
  {
    assert MembersOk(k, l.news, l.members[b], b);
    FilledStep(l.members, b, n);
    MemberReadStep(env, k, l, FilledTo(l.members, b, n), b, l.members[b][n]);
  }

  method ReadMemberAt(m: AddrMan, file: seq<Token>, at: int, b: nat, ghost n: nat, ghost k: Book, ghost l: Layout)
    requires Ok(m.env, k, -1) && LayoutOk(k, l) && b < |l.members| && n < |l.members[b]|
    requires TokenHere(file, at, l.members[b][n])
    requires m.Now() == Filled(m.env, k, l, FilledTo(l.members, b, n))
    modifies m`infos, m`newBuckets
    ensures m.Now() == Filled(m.env, k, l, FilledTo(l.members, b, n + 1))
  {
    MemberStep(m.env, k, l, b, n);
    ReadMember(m, b, file[at].n);
  }

  /** Reads the members of one bucket. */
  method ReadBucket(m: AddrMan, file: seq<Token>, b: nat, pos: nat, ghost k: Book, ghost l: Layout) returns (next: nat)
    requires Ok(m.env, k, -1) && LayoutOk(k, l) && b < |l.members| && BucketHere(file, pos, l.members[b])
    requires m.Now() == Filled(m.env, k, l, FilledTo(l.members, b, 0))
    modifies m`infos, m`newBuckets
    ensures m.Now() == Filled(m.env, k, l, FilledTo(l.members, b, |l.members[b]|))
    ensures next == pos + 1 + |l.members[b]|
  {
    var size := file[pos].n;
    for n := 0 to size
      invariant m.Now() == Filled(m.env, k, l, FilledTo(l.members, b, n))
    {
      assert TokenHere(file, pos + 1 + n, l.members[b][n]);
      ReadMemberAt(m, file, pos + 1 + n, b, n, k, l);
    }
    next := pos + 1 + size;
  }

  /** Reads a written manager: `k` is the manager that was written and `l` how it was laid out. */
  method Read(m: AddrMan, file: seq<Token>, ghost k: Book, ghost l: Layout) returns (lost: int)
    requires Ok(m.env, k, -1) && LayoutOk(k, l) && file == Encode(k, l)
    modifies m
    ensures lost == 0
    ensures m.Now() == Reloaded(m.env, k, l) && m.Consistent() && SameUpToIds(k, m.Now(), l.news + l.trieds)
  {
    AllListed(m.env, k, l);
    HeaderAt(k, l, file);
    m.key := file[1].key;
    m.newCount := file[2].n;
    m.triedCount := file[3].n;
    var buckets := file[4].n;
    m.nextId, m.infos, m.ids, m.order := 0, map[], map[], [];
    m.triedBuckets := seq(TRIED_BUCKET_COUNT, _ => []);
    m.newBuckets := seq(NEW_BUCKET_COUNT, _ => {});
    StartSeen(m.env, k, l, m.triedBuckets, m.newBuckets);
    ReadNews(m, file, k, l);
    m.nextId := m.newCount;
    lost := ReadTrieds(m, file, k, l);
    m.triedCount := m.triedCount - lost;
    var pos := 5 + m.newCount + m.triedCount;
    FilledNext(l.members, 0);
    TokensAt(k, l);
    for b := 0 to buckets
      invariant pos == 5 + |l.news + l.trieds| + |BucketTokens(l.members[..b])|
      invariant m.Now() ==
          Filled(m.env, k, l, if b < |l.members| then FilledTo(l.members, b, 0) else NewFrom(l.members))
    {
      BucketIsHere(file, 5 + |l.news + l.trieds|, l.members, b, pos, l.members[b]);
      BucketTokensAt(l.members, b);
      pos := ReadBucket(m, file, b, pos, k, l);
      FilledNext(l.members, b);
    }
    RoundTrip(m.env, k, l);
  }

  lemma HeaderAt(k: Book, l: Layout, file: seq<Token>)
    requires LayoutOk(k, l) && file == Encode(k, l)
    ensures |file| >= 5 && file[1] == TKey(k.key) && file[2] == TInt(k.newCount) && file[3] == TInt(k.triedCount)
    ensures file[4] == TInt(NEW_BUCKET_COUNT)
  {
    TokensAt(k, l);
    var h := file[..5];
    assert file[1] == h[1] && file[2] == h[2] && file[3] == h[3] && file[4] == h[4];
  }

  lemma StartSeen(env: Env, k: Book, l: Layout, tried: seq<seq<int>>, news: seq<set<int>>)
    requires tried == seq(TRIED_BUCKET_COUNT, _ => []) && news == seq(NEW_BUCKET_COUNT, _ => {})
    ensures Book(k.key, 0, map[], map[], [], k.triedCount, tried, k.newCount, news) == Seen(env, k, l, 0)
  {
    var s := Seen(env, k, l, 0);
    assert s.infos == map[] && s.order == [] && s.triedBuckets == tried && s.newBuckets == news;
  }

  /** Saving and loading: the loaded manager is the saved one under new ids, and nothing is lost. */
  method SaveAndLoad(m: AddrMan) returns (m': AddrMan, ghost all: seq<int>)
    requires m.Consistent()
    ensures fresh(m') && m'.Consistent() && m'.env == m.env
    ensures SameUpToIds(m.Now(), m'.Now(), all)
  {
    var file, l := Write(m);
    m' := new AddrMan(m.env, []);
    var lost := Read(m', file, m.Now(), l);
    all := l.news + l.trieds;
  }
}
