/** What every operation of the address manager keeps: what the consistency check decides, bounded tables and
    proper times. */
module AddrRuns {
  import opened AddrBook
  import opened AddrSteps
  import opened AddrMan
  import opened AddrCheck
  import opened Sets

  // ----- the check accepts every consistent state with proper times -----

  lemma {:induction false} ListSize(list: seq<int>, s: set<int>)
    requires NoDup(list) && forall x :: x in s <==> x in list
    ensures |s| == |list|
  {
    if list == [] {
      if s != {} { var x := Witness(s); }
    } else {
      var last, init := list[|list| - 1], list[..|list| - 1];
      assert list == init + [last];
      ListSize(init, s - {last});
    }
  }

  lemma OrderSize(k: Book)
    requires OrderOk(k.infos, k.order)
    ensures |k.order| == |TriedIds(k.infos)| + |NewIds(k.infos)|
  {
    forall i, j | 0 <= i < j < |k.order| ensures k.order[i] != k.order[j] {
      assert PointsBack(k.infos, k.order, i) && PointsBack(k.infos, k.order, j);
    }
    forall x ensures x in k.infos.Keys <==> x in k.order {
      assert Placed(k.infos, k.order, x);
      if x in k.order {
        var i :| 0 <= i < |k.order| && k.order[i] == x;
        assert PointsBack(k.infos, k.order, i);
      }
    }
    ListSize(k.order, k.infos.Keys);
    assert k.infos.Keys == TriedIds(k.infos) + NewIds(k.infos);
  }

  /** The first `n` tried buckets, laid out, repeat nothing and hold what the buckets hold. */
  lemma {:induction false} FlatTried(env: Env, k: Book, n: nat)
    requires TriedOk(env, k.key, k.infos, k.triedBuckets) && n <= |k.triedBuckets|
    ensures Picks(Flat(k.triedBuckets[..n]), TriedIds(k.infos))
    ensures forall x, b :: 0 <= b < n && x in k.triedBuckets[b] ==> x in Flat(k.triedBuckets[..n])
    ensures forall x :: x in Flat(k.triedBuckets[..n]) ==>
              x in k.infos && TriedBucket(env, k.key, k.infos[x].address.service) < n
    ensures |Flat(k.triedBuckets[..n])| <= n * TRIED_BUCKET_SIZE
  {
    if n > 0 {
      FlatTried(env, k, n - 1);
      FlatAt(k.triedBuckets, n - 1, 0);
      assert TriedBucketOk(env, k.key, k.infos, k.triedBuckets, n - 1);
      var before, bucket := Flat(k.triedBuckets[..n - 1]), k.triedBuckets[n - 1];
      forall i, j | 0 <= i < j < |before + bucket| ensures (before + bucket)[i] != (before + bucket)[j] {
        if j >= |before| {
          assert bucket[j - |before|] in bucket;
          assert i < |before| ==> before[i] in before;
        }
      }
    }
  }

  lemma {:induction false} BucketsBound(buckets: seq<set<int>>, s: set<int>)
    requires forall b :: 0 <= b < |buckets| ==> |buckets[b]| <= NEW_BUCKET_SIZE
    requires forall x :: x in s ==> Homes(buckets, x) != {}
    ensures |s| <= |buckets| * NEW_BUCKET_SIZE
  {
    if buckets == [] {
      forall x ensures x !in s { assert Homes(buckets, x) == {}; }
      assert s == {};
    } else {
      var init, last := buckets[..|buckets| - 1], buckets[|buckets| - 1];
      forall x | x in s - last ensures Homes(init, x) != {} {
        var b := Witness(Homes(buckets, x));
        assert b in Homes(init, x);
      }
      BucketsBound(init, s - last);
      SubsetSize(s, (s - last) + last);
    }
  }

  /** No bucket is overfull, and the table is as large as its buckets allow and no larger. */
  lemma Bounded(env: Env, k: Book)
    requires Ok(env, k, -1)
    ensures |k.order| == k.triedCount + k.newCount
    ensures k.triedCount <= 64 * 64 && k.newCount <= 256 * 64
    ensures |k.newBuckets| == 256 && forall b :: 0 <= b < |k.newBuckets| ==> |k.newBuckets[b]| <= 64
    ensures |k.triedBuckets| == 64 && forall b :: 0 <= b < |k.triedBuckets| ==> |k.triedBuckets[b]| <= 64
    ensures forall id :: id in k.infos && !k.infos[id].inTried ==>
      0 < k.infos[id].refCount == |Homes(k.newBuckets, id)| <= 4
  {
    OrderSize(k);
    TriedExact(env, k);
    ListSize(Flat(k.triedBuckets), TriedIds(k.infos));
    forall b | 0 <= b < |k.newBuckets| ensures |k.newBuckets[b]| <= NEW_BUCKET_SIZE {
      assert NewBucketOk(k.infos, k.newBuckets, b);
    }
    forall b | 0 <= b < |k.triedBuckets| ensures |k.triedBuckets[b]| <= TRIED_BUCKET_SIZE {
      assert TriedBucketOk(env, k.key, k.infos, k.triedBuckets, b);
    }
    forall x | x in NewIds(k.infos) ensures Homes(k.newBuckets, x) != {} {
      assert RefOk(k.infos, k.newBuckets, x, -1);
    }
    BucketsBound(k.newBuckets, NewIds(k.infos));
    forall id | id in k.infos && !k.infos[id].inTried
      ensures 0 < k.infos[id].refCount == |Homes(k.newBuckets, id)| <= 4
    {
      assert RefOk(k.infos, k.newBuckets, id, -1);
    }
  }

  /** The tried ids of one group of addresses. */
  ghost function GroupIds(env: Env, k: Book, group: seq<int>): set<int> {
    set id | id in k.infos && k.infos[id].inTried && env.group(k.infos[id].address.service.net) == group
  }

  lemma {:induction false} InBuckets(buckets: seq<seq<int>>, where: set<int>, s: set<int>)
    requires forall b :: b in where ==> 0 <= b < |buckets| && |buckets[b]| <= 64
    requires forall x :: x in s ==> exists b :: b in where && x in buckets[b]
    ensures |s| <= 64 * |where|
    decreases where
  {
    if where == {} {
      if s != {} { var x := Witness(s); }
    } else {
      var b := Witness(where);
      var members := set x | x in buckets[b];
      ElemsSize(buckets[b], members);
      var rest := where - {b};
      forall x | x in s - members ensures exists c :: c in rest && x in buckets[c] {
        var c :| c in where && x in buckets[c];
        assert c in rest;
      }
      InBuckets(buckets, rest, s - members);
      SubsetSize(s, (s - members) + members);
    }
  }

  lemma {:induction false} ElemsSize(list: seq<int>, s: set<int>)
    requires forall x :: x in s ==> x in list
    ensures |s| <= |list|
  {
    if list == [] {
      if s != {} { var x := Witness(s); }
    } else {
      var last := list[|list| - 1];
      ElemsSize(list[..|list| - 1], s - {last});
      SubsetSize(s, (s - {last}) + {last});
    }
  }

  /** However many addresses of one group succeed, at most 256 of them are tried at a time. */
  lemma GroupBound(env: Env, k: Book, service: Service)
    requires Ok(env, k, -1)
    ensures |GroupIds(env, k, env.group(service.net))| <= 4 * 64
  {
    var group := env.group(service.net);
    var where, s := GroupBuckets(env, k.key, group), GroupIds(env, k, group);
    TriedSpread(env, k.key, service);
    Bounded(env, k);
    forall x | x in s ensures exists b :: b in where && x in k.triedBuckets[b] {
      var e := k.infos[x].address.service;
      TriedSpread(env, k.key, e);
      assert TriedPlaced(env, k.key, k.infos, k.triedBuckets, x);
      assert TriedBucket(env, k.key, e) in where;
    }
    InBuckets(k.triedBuckets, where, s);
  }

  lemma TriedExact(env: Env, k: Book)
    requires TriedOk(env, k.key, k.infos, k.triedBuckets)
    ensures Picks(Flat(k.triedBuckets), TriedIds(k.infos))
    ensures forall x :: x in TriedIds(k.infos) <==> x in Flat(k.triedBuckets)
    ensures |Flat(k.triedBuckets)| <= TRIED_BUCKET_COUNT * TRIED_BUCKET_SIZE
  {
    FlatTried(env, k, |k.triedBuckets|);
    assert k.triedBuckets[..|k.triedBuckets|] == k.triedBuckets;
    forall x | x in TriedIds(k.infos) ensures x in Flat(k.triedBuckets) {
      assert TriedPlaced(env, k.key, k.infos, k.triedBuckets, x);
    }
  }

  /** On a consistent state the check fails only because of stored times. */
  lemma CheckDecidesTimes(env: Env, k: Book)
    requires Ok(env, k, -1)
    ensures Accepts(k) <==> TimesOk(k.infos)
    ensures Covers(k)
  {
    OrderSize(k);
    TriedExact(env, k);
    NewCounts(env, k);
    forall id ensures Covered(k, id) { assert Indexed(k.infos, k.ids, id); }
    forall id | id in k.infos ensures EntryAccepted(k, id) <==> EntryTimesOk(k.infos[id]) {
      assert Indexed(k.infos, k.ids, id) && Placed(k.infos, k.order, id) && RefOk(k.infos, k.newBuckets, id, -1);
    }
    if Accepts(k) {
      forall id | id in k.infos ensures EntryTimesOk(k.infos[id]) { assert EntryAccepted(k, id); }
    }
  }

  lemma {:induction false} DistinctPlaces(k: Book, ids: set<int>)
    requires forall id :: id in ids ==> id in k.infos && Placed(k.infos, k.order, id)
    ensures |set id | id in ids :: k.infos[id].pos| == |ids|
    decreases ids
  {
    var places := set id | id in ids :: k.infos[id].pos;
    if ids == {} {
      assert places == {};
    } else {
      var id := Witness(ids);
      var rest := ids - {id};
      DistinctPlaces(k, rest);
      var others := set x | x in rest :: k.infos[x].pos;
      assert places == others + {k.infos[id].pos};
      forall x | x in rest ensures k.infos[x].pos != k.infos[id].pos { assert k.order[k.infos[x].pos] == x; }
    }
  }

  ghost function Range(n: nat): (r: set<int>)
    ensures |r| == n && forall i :: i in r <==> 0 <= i < n
  {
    if n == 0 then {} else Range(n - 1) + {n - 1}
  }

  /** As many places as entries, and every entry at its own place: so every place has its entry. */
  lemma PlaceTaken(k: Book, i: int)
    requires |k.infos.Keys| == |k.order| && 0 <= i < |k.order|
    requires forall id :: id in k.infos.Keys ==> Placed(k.infos, k.order, id)
    ensures PointsBack(k.infos, k.order, i)
  {
    var places := set id | id in k.infos.Keys :: k.infos[id].pos;
    DistinctPlaces(k, k.infos.Keys);
    if i !in places {
      forall p | p in places ensures p in Range(|k.order|) - {i} {
        var id :| id in k.infos.Keys && k.infos[id].pos == p;
        assert Placed(k.infos, k.order, id);
      }
      SubsetSize(places, Range(|k.order|) - {i});
    }
  }

  lemma AcceptedOrder(k: Book)
    requires Accepts(k)
    ensures OrderOk(k.infos, k.order)
  {
    forall id ensures Placed(k.infos, k.order, id) { assert EntryAccepted(k, id); }
    assert k.infos.Keys == TriedIds(k.infos) + NewIds(k.infos);
    forall i ensures PointsBack(k.infos, k.order, i) {
      if 0 <= i < |k.order| { PlaceTaken(k, i); }
    }
  }

  /** What an answer of 0 guarantees of any state, however it came about. */
  lemma CheckIsSound(k: Book)
    requires Accepts(k)
    ensures OrderOk(k.infos, k.order) && TimesOk(k.infos)
    ensures |k.order| == k.triedCount + k.newCount && CountOk(k.infos, k.triedCount, k.newCount)
    ensures NoDup(Flat(k.triedBuckets)) && forall id :: id in Flat(k.triedBuckets) <==> id in TriedIds(k.infos)
    ensures forall id :: id in k.infos ==> Lookup(k.ids, k.infos[id].address.service.net) == id
    ensures forall id :: id in k.infos && k.infos[id].inTried ==> k.infos[id].refCount == 0
    ensures forall id :: id in k.infos && !k.infos[id].inTried ==>
      0 < k.infos[id].refCount == |Homes(k.newBuckets, id)| <= 4
  {
    AcceptedOrder(k);
    forall id | id in k.infos ensures EntryAccepted(k, id) && EntryTimesOk(k.infos[id]) { assert EntryAccepted(k, id); }
    forall id | id in k.infos && !k.infos[id].inTried ensures k.infos[id].refCount == |Homes(k.newBuckets, id)| {
      assert id in Refs(k.infos);
    }
  }

  lemma NewCounts(env: Env, k: Book)
    requires Ok(env, k, -1)
    ensures Counts(k.newBuckets, Refs(k.infos))
  {
    forall b, x | 0 <= b < |k.newBuckets| && x in k.newBuckets[b] ensures x in Refs(k.infos) {
      assert NewBucketOk(k.infos, k.newBuckets, b);
    }
    forall x | x in Refs(k.infos) ensures |Homes(k.newBuckets, x)| == Refs(k.infos)[x] {
      assert RefOk(k.infos, k.newBuckets, x, -1);
    }
  }

  // ----- stored times -----

  lemma DropTimes(m: map<int, Entry>, id: int, m': map<int, Entry>)
    requires TimesOk(m) && SameButPos(DropOne(m, id), m')
    ensures TimesOk(m')
  {
    forall x | x in m' ensures EntryTimesOk(m'[x]) {
      assert x in DropOne(m, id);
      assert x in m && EntryTimesOk(m[x]);
    }
  }

  lemma SettleTimes(env: Env, k: Book, b: int, id: int, dropped: int)
    requires OrderOk(k.infos, k.order) && 0 <= b < |k.newBuckets| && TimesOk(k.infos)
    ensures TimesOk(Settle(k, b, id, dropped).infos)
  {
    if |k.newBuckets[b]| == NEW_BUCKET_SIZE && dropped in k.infos {
      DropFrame(k, b, dropped);
      DropTimes(k.infos, dropped, Drop(k, b, dropped).infos);
    }
  }

  lemma AnnounceTimes(env: Env, k: Book, addr: Address, source: NetAddr, penalty: int, now: int, lucky: bool,
                      dropped: int)
    requires Ok(env, k, -1) && TimesOk(k.infos)
    ensures TimesOk(Announce(env, k, addr, source, penalty, now, lucky, dropped).infos)
  {
    var net := addr.service.net;
    if env.routable(net) && net in k.ids {
      assert Names(k.infos, k.ids, net);
      var id := k.ids[net];
      var r := Edit(k, id, Refreshed(k.infos[id], addr, penalty, now));
      EditOk(env, k, id, r.infos[id]);
      assert RefOk(r.infos, r.newBuckets, id, -1);
      var b := NewBucket(env, k.key, r.infos[id].address.service, source);
      if !(Declines(r.infos[id], addr) || !lucky || id in r.newBuckets[b]) {
        RaiseOk(env, r, id);
        SettleTimes(env, Raise(r, id), b, id, dropped);
      }
    } else if env.routable(net) {
      AdmitOk(env, k, addr, source, penalty);
      var b := NewBucket(env, k.key, addr.service, source);
      SettleTimes(env, Raise(Admit(k, addr, source, penalty), k.nextId), b, k.nextId, dropped);
    }
  }

  /** Success recorded at time `time` leaves proper times exactly when `time` is positive. */
  lemma PromoteTimes(env: Env, k: Book, k': Book, id: int, origin: int, draws: seq<int>)
    requires id in k.infos && !k.infos[id].inTried && |k.triedBuckets| == TRIED_BUCKET_COUNT
    requires Promotes(env, k, k', id, origin, draws)
    requires forall x :: x in k.infos && x != id ==> EntryTimesOk(k.infos[x])
    ensures TimesOk(k'.infos) <==> k.infos[id].lastSuccess > 0 && k.infos[id].lastTry >= 0
  {
    assert id in k'.infos;
    if k.infos[id].lastSuccess > 0 && k.infos[id].lastTry >= 0 {
      forall x | x in k'.infos ensures EntryTimesOk(k'.infos[x]) {}
    } else {
      assert !EntryTimesOk(k'.infos[id]);
    }
  }

  // ----- runs -----

  datatype Op =
    | OpAdd(addr: Address, source: NetAddr, penalty: int, now: int)
    | OpGood(service: Service, time: int)
    | OpAttempt(service: Service, time: int)
    | OpConnected(service: Service, time: int)
    | OpGetAddr

  /** The times a caller passes are positive. */
  predicate PositiveTime(op: Op) {
    (op.OpGood? ==> op.time > 0) && (op.OpAttempt? ==> op.time >= 0)
  }

  /** One operation on a manager: consistency always, proper times exactly as the caller's time allows. */
  method Step(m: AddrMan, op: Op)
    requires m.Consistent()
    modifies m
    ensures m.Consistent()
    ensures old(TimesOk(m.infos)) && PositiveTime(op) ==> TimesOk(m.infos)
    ensures old(TimesOk(m.infos)) && op.OpGood? && Knows(old(m.Now()), op.service) && op.time <= 0 ==> !TimesOk(m.infos)
    ensures old(TimesOk(m.infos)) && op.OpAttempt? && Knows(old(m.Now()), op.service) && op.time < 0 ==>
        !TimesOk(m.infos)
  {
    ghost var k := m.Now();
    match op
    case OpAdd(addr, source, penalty, now) =>
      var _, lucky, dropped := m.Add(addr, source, penalty, now);
      if TimesOk(k.infos) { AnnounceTimes(m.env, k, addr, source, penalty, now, lucky, dropped); }
    case OpGood(service, time) =>
      var origin, draws := m.Good(service, time);
      if TimesOk(k.infos) && Knows(k, service) { GoodTimes(m.env, k, m.Now(), service, time, origin, draws); }
    case OpAttempt(service, time) =>
      m.Attempt(service, time);
      if TimesOk(k.infos) && Knows(k, service) {
        assert time < 0 ==> !EntryTimesOk(m.infos[m.ids[service.net]]);
      }
    case OpConnected(service, time) =>
      m.Connected(service, time);
    case OpGetAddr =>
      var _ := m.GetAddr();
      if TimesOk(k.infos) {
        forall x | x in m.infos ensures EntryTimesOk(m.infos[x]) { assert x in k.infos && EntryTimesOk(k.infos[x]); }
      }
  }

  lemma GoodTimes(env: Env, k: Book, k': Book, s: Service, time: int, origin: int, draws: seq<int>)
    requires Ok(env, k, -1) && TimesOk(k.infos) && Knows(k, s)
    requires var id := k.ids[s.net];
      var t := Edit(k, id, Succeeded(k.infos[id], time));
      if k.infos[id].inTried then k' == t else Promotes(env, t, k', id, origin, draws)
    ensures TimesOk(k'.infos) <==> time > 0
  {
    var id := k.ids[s.net];
    var t := Edit(k, id, Succeeded(k.infos[id], time));
    if k.infos[id].inTried {
      assert time <= 0 ==> !EntryTimesOk(k'.infos[id]);
    } else {
      PromoteTimes(env, t, k', id, origin, draws);
    }
  }
}
