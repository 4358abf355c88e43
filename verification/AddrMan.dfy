/** The stochastic address manager: one table of peers held in several redundant
    structures that every operation keeps in step. */
module AddrMan {
  import opened AddrBook
  import opened AddrSteps
  import opened Sets

  /** A random integer below `max` (0 when `max` is 0). */
  method GetRandInt(max: int) returns (r: int)
    requires 0 <= max
    ensures 0 <= r && (r < max || r == max == 0)
  {
    if max == 0 { r := 0; } else { r :| 0 <= r < max; }
  }

  /** The bucket inspected at step `n` of a search that starts at `start`. */
  ghost function Probe(start: int, n: int): (b: int)
    ensures 0 <= b < NEW_BUCKET_COUNT
  {
    (n + start) % NEW_BUCKET_COUNT
  }

  /** Whatever the start, an entry that is not tried is met within one round. */
  lemma ProbeFinds(m: map<int, Entry>, buckets: seq<set<int>>, id: int, start: int)
    requires NewOk(m, buckets, -1) && id in m && !m[id].inTried && id != -1
    ensures exists n :: 0 <= n < NEW_BUCKET_COUNT && id in buckets[Probe(start, n)]
  {
    assert RefOk(m, buckets, id, -1);
    var h := Witness(Homes(buckets, id));
    assert Probe(start, (h - start) % NEW_BUCKET_COUNT) == h;
  }

  /** Two to the number of references. */
  function Factor(refs: int): (f: int)
    ensures f >= 1
  {
    if refs <= 0 then 1 else 2 * Factor(refs - 1)
  }

  /** One chance in 1, 2, 4 or 8 for an entry that may have one more reference. */
  lemma FactorIs(refs: int)
    requires 0 <= refs < 4
    ensures Factor(refs) == [1, 2, 4, 8][refs]
  {
    assert Factor(0) == 1 && Factor(1) == 2 && Factor(2) == 4;
  }

  class AddrMan {
    const env: Env
    var key: seq<int>
    var nextId: int
    var infos: map<int, Entry>
    var ids: map<NetAddr, int>
    var order: seq<int>
    var triedCount: int
    var triedBuckets: seq<seq<int>>
    var newCount: int
    var newBuckets: seq<set<int>>

    ghost function Now(): Book
      reads this
    {
      Book(key, nextId, infos, ids, order, triedCount, triedBuckets, newCount, newBuckets)
    }

    ghost predicate Consistent()
      reads this
    {
      Ok(env, Now(), -1)
    }

    constructor (env: Env, key: seq<int>)
      ensures Consistent() && infos == map[] && this.env == env && this.key == key
    {
      this.env, this.key := env, key;
      nextId, infos, ids, order := 0, map[], map[], [];
      triedCount, newCount := 0, 0;
      triedBuckets := seq(TRIED_BUCKET_COUNT, _ => []);
      newBuckets := seq(NEW_BUCKET_COUNT, _ => {});
    }

    method Find(net: NetAddr) returns (found: bool, id: int)
      requires Consistent()
      ensures found <==> net in ids
      ensures found ==> id == ids[net] && id in infos && infos[id].address.service.net == net
    {
      if net in ids {
        found, id := true, ids[net];
        assert Names(infos, ids, net);
      } else {
        found, id := false, 0;
      }
    }

    method SwapRandom(i: int, j: int)
      requires OrderOk(infos, order) && 0 <= i < |order| && 0 <= j < |order|
      modifies `infos, `order
      ensures Now() == Swap(old(Now()), i, j)
    {
      if i == j { return; }
      var a, b := order[i], order[j];
      assert PointsBack(infos, order, i) && PointsBack(infos, order, j);
      infos := infos[a := infos[a].(pos := j)];
      infos := infos[b := infos[b].(pos := i)];
      order := order[i := b];
      order := order[j := a];
    }

    /** Takes an entry out of the order, the index and the table. */
    method ForgetEntry(id: int)
      requires OrderOk(infos, order) && id in infos
      modifies `infos, `order, `ids, `newCount
      ensures Now() == Forget(old(Now()), id)
    {
      assert Placed(infos, order, id);
      ghost var k := Now();
      var net := infos[id].address.service.net;
      SwapRandom(infos[id].pos, |order| - 1);
      order := order[..|order| - 1];
      ids := ids - {net};
      infos := infos - {id};
      newCount := newCount - 1;
    }

    /** Removes an id from a "new" bucket, forgetting the entry with its last reference. */
    method DropFromBucket(b: int, id: int)
      requires OrderOk(infos, order) && id in infos && 0 <= b < |newBuckets|
      modifies `infos, `order, `ids, `newCount, `newBuckets
      ensures Now() == Drop(old(Now()), b, id)
    {
      ghost var k := Now();
      infos := infos[id := infos[id].(refCount := infos[id].refCount - 1)];
      if infos[id].refCount == 0 {
        ForgetAnyRef(k, id);
        ForgetEntry(id);
      }
      newBuckets := newBuckets[b := newBuckets[b] - {id}];
    }

    /** Makes room in a "new" bucket: the first terrible entry goes, or else the oldest of four
        picked at random. */
    method ShrinkNew(b: int, now: int, ghost pending: int) returns (r: int, ghost dropped: int)
      requires Ok(env, Now(), pending) && 0 <= b < NEW_BUCKET_COUNT
      requires newBuckets[b] != {} && pending !in newBuckets[b]
      modifies `infos, `order, `ids, `newCount, `newBuckets
      ensures Leaves(old(infos), old(newBuckets)[b], now, dropped)
      ensures LeavesFairly(old(infos), old(newBuckets)[b], now, dropped)
      ensures var e := old(infos)[dropped];
        r == 0 <==> !TriedLately(e, now) && (Unseen(e, now) || Failing(e, now))
      ensures r == if IsTerrible(old(infos)[dropped], now) then 0 else 1
      ensures Now() == Drop(old(Now()), b, dropped) && Ok(env, Now(), pending)
    {
      var bucket := Ascending(newBuckets[b]);
      assert NewBucketOk(infos, newBuckets, b);
      for n := 0 to |bucket|
        invariant Now() == old(Now())
        invariant forall j :: 0 <= j < n ==> bucket[j] in infos && !IsTerrible(infos[bucket[j]], now)
      {
        var it := bucket[n];
        assert it in newBuckets[b];
        if IsTerrible(infos[it], now) {
          LeavesMeans(infos, newBuckets[b], now, it);
          TerribleIff(infos[it], now);
          DropOk(env, Now(), b, it, pending);
          DropFromBucket(b, it);
          return 0, it;
        }
      }
      var oldest, picks := PickOldest(bucket);
      assert OldestPick(infos, newBuckets[b], picks, oldest);
      LeavesMeans(infos, newBuckets[b], now, oldest);
      TerribleIff(infos[oldest], now);
      DropOk(env, Now(), b, oldest, pending);
      DropFromBucket(b, oldest);
      return 1, oldest;
    }

    /** The least recently seen of four random members of a bucket. */
    method PickOldest(bucket: seq<int>) returns (oldest: int, ghost picks: seq<int>)
      requires bucket != [] && forall i :: 0 <= i < |bucket| ==> bucket[i] in infos && bucket[i] != -1
      ensures |picks| == 4 && oldest in picks && forall x :: x in picks ==> x in bucket
      ensures forall x :: x in picks ==> infos[oldest].address.time <= infos[x].address.time
    {
      var n0 := GetRandInt(|bucket|);
      var n1 := GetRandInt(|bucket|);
      var n2 := GetRandInt(|bucket|);
      var n3 := GetRandInt(|bucket|);
      oldest := -1;
      ghost var at := 0;
      for i := 0 to |bucket|
        invariant oldest == -1 ==> i <= n0 && i <= n1 && i <= n2 && i <= n3
        invariant oldest != -1 ==> at in [n0, n1, n2, n3] && at < i && bucket[at] == oldest
        invariant oldest != -1 ==> forall j :: 0 <= j < i && j in [n0, n1, n2, n3] ==>
                                     infos[oldest].address.time <= infos[bucket[j]].address.time
      {
        if i == n0 || i == n1 || i == n2 || i == n3 {
          if oldest == -1 || infos[bucket[i]].address.time < infos[oldest].address.time {
            oldest, at := bucket[i], i;
          }
        }
      }
      picks := [bucket[n0], bucket[n1], bucket[n2], bucket[n3]];
    }

    method Create(addr: Address, source: NetAddr) returns (id: int)
      modifies `nextId, `infos, `ids, `order
      ensures id == old(nextId)
      ensures Now() == old(Now()).(
                nextId := id + 1,
                infos := old(infos)[id := NewEntry(addr, source).(pos := |old(order)|)],
                ids := old(ids)[addr.service.net := id],
                order := old(order) + [id])
    {
      id := nextId;
      nextId := nextId + 1;
      infos := infos[id := NewEntry(addr, source)];
      ids := ids[addr.service.net := id];
      infos := infos[id := infos[id].(pos := |order|)];
      order := order + [id];
    }

    /** Updates time and services of a known entry. */
    method Refresh(id: int, addr: Address, penalty: int, now: int)
      requires id in infos
      modifies `infos
      ensures Now() == Edit(old(Now()), id, Refreshed(old(infos)[id], addr, penalty, now))
    {
      var interval := if now - addr.time < 24 * 60 * 60 then 60 * 60 else 24 * 60 * 60;
      var e := infos[id];
      if addr.time != 0 && (e.address.time == 0 || e.address.time < addr.time - interval - penalty) {
        e := e.(address := e.address.(time := U32(Max0(addr.time - penalty))));
      }
      e := e.(address := e.address.(services := e.address.services + addr.services));
      infos := infos[id := e];
    }

    /** Passes for one outcome of 2^refs. */
    method StochasticTest(refs: int) returns (pass: bool, ghost coin: int)
      ensures 0 <= coin < Factor(refs) && (pass <==> coin == 0)
    {
      var factor := 1;
      var n := 0;
      while n < refs
        invariant n == 0 || n <= refs
        invariant factor == Factor(n)
      {
        factor := factor * 2;
        n := n + 1;
      }
      var r := GetRandInt(factor);
      coin := r;
      pass := !(factor > 1 && r != 0);
    }

    /** Adds a reference and puts the entry in "new" bucket `b`, making room if it is full. */
    method TakePlace(id: int, b: int, now: int) returns (ghost dropped: int)
      requires id in infos && !infos[id].inTried && Ok(env, Raise(Now(), id), id)
      requires 0 <= b < NEW_BUCKET_COUNT && id !in newBuckets[b]
      modifies `infos, `ids, `order, `newCount, `newBuckets
      ensures Consistent()
      ensures Now() == Settle(Raise(old(Now()), id), b, id, dropped)
      ensures if |old(newBuckets)[b]| < NEW_BUCKET_SIZE then dropped == -1
              else Leaves(old(infos), old(newBuckets)[b], now, dropped)
    {
      dropped := -1;
      ghost var before, k := Now(), Raise(Now(), id);
      assert NewBucketOk(k.infos, newBuckets, b);
      infos := infos[id := infos[id].(refCount := infos[id].refCount + 1)];
      if |newBuckets[b]| == NEW_BUCKET_SIZE {
        var _, out := ShrinkNew(b, now, id);
        dropped := out;
        LeavesRaised(before, id, before.newBuckets[b], now, out);
      }
      newBuckets := newBuckets[b := newBuckets[b] + {id}];
      SettleOk(env, k, b, id, dropped);
    }

    /** Announces an address heard of from `source`. */
    method Add(addr: Address, source: NetAddr, penalty: int, now: int)
      returns (added: bool, ghost lucky: bool, ghost dropped: int)
      requires Consistent()
      modifies `nextId, `infos, `ids, `order, `newCount, `newBuckets
      ensures Consistent()
      ensures added <==> env.routable(addr.service.net) && addr.service.net !in old(ids)
      ensures Now() == Announce(env, old(Now()), addr, source, penalty, now, lucky, dropped)
      ensures dropped != -1 ==> MakesRoom(old(Now()), NewBucket(env, key, addr.service, source), now, dropped)
    {
      added, lucky, dropped := false, false, -1;
      if !env.routable(addr.service.net) { return; }
      ghost var k := Now();
      var found, id := Find(addr.service.net);
      if found {
        EditOk(env, k, id, Refreshed(infos[id], addr, penalty, now));
        Refresh(id, addr, penalty, now);
        if addr.time == 0 || (infos[id].address.time != 0 && addr.time <= infos[id].address.time) { return; }
        if infos[id].inTried { return; }
        if infos[id].refCount == NEW_BUCKETS_PER_ADDRESS { return; }
        var pass, _ := StochasticTest(infos[id].refCount);
        if !pass { return; }
        lucky := true;
        assert RefOk(infos, newBuckets, id, -1);
        RaiseOk(env, Now(), id);
      } else {
        AdmitOk(env, k, addr, source, penalty);
        id := Enlist(addr, source, penalty);
        added := true;
      }
      dropped := FindPlace(id, source, now, k);
    }

    /** Creates an entry for an address not heard of before. */
    method Enlist(addr: Address, source: NetAddr, penalty: int) returns (id: int)
      modifies `nextId, `infos, `ids, `order, `newCount
      ensures id == old(nextId) && Now() == Admit(old(Now()), addr, source, penalty)
    {
      id := Create(addr, source);
      var seen := infos[id].address;
      infos := infos[id := infos[id].(address := seen.(time := U32(Max0(seen.time - penalty))))];
      newCount := newCount + 1;
    }

    /** Puts an entry in the bucket that its address and the source select, unless it is there. */
    method FindPlace(id: int, source: NetAddr, now: int, ghost k: Book) returns (ghost dropped: int)
      requires Ok(env, k, -1) && id in infos && !infos[id].inTried && Ok(env, Raise(Now(), id), id)
      requires infos == k.infos[id := infos[id]] && newBuckets == k.newBuckets
      requires id in newBuckets[NewBucket(env, key, infos[id].address.service, source)] ==> Consistent()
      modifies `infos, `ids, `order, `newCount, `newBuckets
      ensures Consistent()
      ensures var b := NewBucket(env, key, old(infos)[id].address.service, source);
        && Now() == (if id in k.newBuckets[b] then old(Now()) else Settle(Raise(old(Now()), id), b, id, dropped))
        && (dropped != -1 ==> MakesRoom(k, b, now, dropped))
    {
      dropped := -1;
      var b := NewBucket(env, key, infos[id].address.service, source);
      if id !in newBuckets[b] {
        ghost var before := infos;
        dropped := TakePlace(id, b, now);
        RoomMade(env, k, before, id, b, now, dropped);
      }
    }

    /** Shuffles the front of a tried bucket and answers a position to evict from: where the least
        recently successful of the inspected entries was drawn from before it moved to the front. */
    method SelectTried(t: int) returns (pos: int, ghost draws: seq<int>)
      requires 0 <= t < TRIED_BUCKET_COUNT && TriedOk(env, key, infos, triedBuckets) && -1 !in infos
      modifies `triedBuckets
      ensures TriedOk(env, key, infos, triedBuckets)
      ensures var bucket := old(triedBuckets)[t];
        && |draws| == (if |bucket| < 4 then |bucket| else 4)
        && Drawn(draws, |bucket|)
        && var l := Looked(infos, bucket, draws);
        && triedBuckets == old(triedBuckets)[t := l.bucket] && pos == l.pos
        && multiset(l.bucket) == multiset(bucket)
        && if bucket == [] then pos == -1 else FrontIsOldest(infos, l, draws)
    {
      var oldest := -1;
      pos, draws := -1, [];
      var bucket: seq<int> := triedBuckets[t];
      ghost var whole, l, all := bucket, Look(bucket, -1, -1), triedBuckets;
      var i := 0;
      assert TriedBucketOk(env, key, infos, triedBuckets, t);
      while i < TRIED_ENTRIES_INSPECT_ON_EVICT && i < |bucket|
        invariant 0 <= i <= |bucket| && |bucket| == |whole| && i <= TRIED_ENTRIES_INSPECT_ON_EVICT && |draws| == i
        invariant triedBuckets == all[t := bucket] && TriedOk(env, key, infos, triedBuckets)
        invariant Looking(infos, whole, draws, l, oldest) && l.bucket == bucket && l.pos == pos && l.front < i
      {
        var r := GetRandInt(|bucket| - i);
        var p := r + i;
        assert TriedBucketOk(env, key, infos, triedBuckets, t);
        var drawn := bucket[p];
        assert drawn in triedBuckets[t];
        LookingOn(infos, whole, draws, l, oldest, p);
        SwapTried(t, i, p);
        bucket := triedBuckets[t];
        l, draws := LookNext(infos, l, i, p), draws + [p];
        if oldest == -1 || infos[drawn].lastSuccess < infos[oldest].lastSuccess { oldest, pos := drawn, p; }
        i := i + 1;
      }
      LookFinds(infos, whole, draws);
    }

    /** Two places of a tried bucket change hands. */
    method SwapTried(t: int, i: int, p: int)
      requires 0 <= t < TRIED_BUCKET_COUNT && TriedOk(env, key, infos, triedBuckets)
      requires 0 <= i <= p < |triedBuckets[t]|
      modifies `triedBuckets
      ensures TriedOk(env, key, infos, triedBuckets)
      ensures var s := old(triedBuckets)[t];
        s[p] in infos && triedBuckets == old(triedBuckets)[t := s[p := s[i]][i := s[p]]]
    {
      TriedSwap(env, key, infos, triedBuckets, t, i, p);
      assert TriedBucketOk(env, key, infos, triedBuckets, t);
      var bucket: seq<int> := triedBuckets[t];
      var drawn := bucket[p];
      assert drawn in bucket;
      assert bucket[p := bucket[i]][i := drawn] == bucket[i := bucket[p]][p := bucket[i]];
      bucket := bucket[p := bucket[i]];
      bucket := bucket[i := drawn];
      triedBuckets := triedBuckets[t := bucket];
    }

    /** Takes an id out of every "new" bucket, and its reference count down with it. */
    method LeaveNewBuckets(id: int)
      requires NewOk(infos, newBuckets, -1) && id in infos && !infos[id].inTried && id != -1
      modifies `infos, `newBuckets
      ensures newBuckets == Without(old(newBuckets), id)
      ensures infos == old(infos)[id := old(infos)[id].(refCount := 0)]
    {
      assert RefOk(infos, newBuckets, id, -1);
      assert infos == infos[id := infos[id]];
      for b := 0 to NEW_BUCKET_COUNT
        invariant |newBuckets| == NEW_BUCKET_COUNT
        invariant forall c :: 0 <= c < b ==> newBuckets[c] == old(newBuckets)[c] - {id}
        invariant forall c :: b <= c < NEW_BUCKET_COUNT ==> newBuckets[c] == old(newBuckets)[c]
        invariant infos == old(infos)[id := old(infos)[id].(refCount := |Homes(newBuckets, id)|)]
      {
        if id in newBuckets[b] {
          HomesDrop(newBuckets, b, id, id);
          assert b in Homes(newBuckets, id);
          newBuckets := newBuckets[b := newBuckets[b] - {id}];
          infos := infos[id := infos[id].(refCount := infos[id].refCount - 1)];
        }
      }
      assert Homes(newBuckets, id) == {};
    }

    /** Moves an entry from the "new" table to the "tried" table. */
    method MakeTried(id: int, origin: int) returns (ghost draws: seq<int>)
      requires Consistent() && id in infos && !infos[id].inTried
      requires 0 <= origin < NEW_BUCKET_COUNT && id in newBuckets[origin]
      modifies `infos, `triedBuckets, `newBuckets, `triedCount, `newCount
      ensures Consistent()
      ensures Promotes(env, old(Now()), Now(), id, origin, draws)
    {
      draws := [];
      ghost var k := Now();
      LeaveNewBuckets(id);
      newCount := newCount - 1;
      var t := TriedBucket(env, key, infos[id].address.service);
      if |triedBuckets[t]| < TRIED_BUCKET_SIZE {
        triedBuckets := triedBuckets[t := triedBuckets[t] + [id]];
        triedCount := triedCount + 1;
        infos := infos[id := infos[id].(inTried := true)];
        assert Now() == Graduate(env, k, id);
        GraduateOk(env, k, id);
      } else {
        draws := TakeOver(id, origin, t, k);
      }
    }

    /** The case of a full tried bucket. */
    method TakeOver(id: int, origin: int, t: int, ghost k: Book) returns (ghost draws: seq<int>)
      requires Ok(env, k, -1) && id in k.infos && !k.infos[id].inTried
      requires 0 <= origin < NEW_BUCKET_COUNT && id in k.newBuckets[origin]
      requires Now() == Leave(k, id) && t == TriedBucket(env, key, k.infos[id].address.service)
      requires |triedBuckets[t]| >= TRIED_BUCKET_SIZE
      modifies `infos, `triedBuckets, `newBuckets, `newCount
      ensures Consistent()
      ensures Promotes(env, k, Now(), id, origin, draws)
    {
      LeaveKeepsTried(env, k, id);
      var p, drawn := SelectTried(t);
      draws := drawn;
      LeaveLooksSame(k, id, k.triedBuckets[t], draws);
      ghost var bucket := triedBuckets[t];
      ghost var b := ExchangeReady(env, k, id, origin, bucket, p);
      FrontSame(Leave(k, id).infos, k.infos, Looked(k.infos, k.triedBuckets[t], draws), draws);
      EvictedIs(env, k, Now(), id, origin, bucket, p);
      Evict(id, origin, t, p);
    }

    /** Puts `id` at position `p` of its full tried bucket and the entry that was there back in
        "new": in its own bucket, or in the one `id` came from. */
    method Evict(id: int, origin: int, t: int, p: int)
      requires id in infos && 0 <= t < |triedBuckets| && 0 <= p < |triedBuckets[t]|
      requires triedBuckets[t][p] in infos && triedBuckets[t][p] != id
      requires |newBuckets| == NEW_BUCKET_COUNT && 0 <= origin < NEW_BUCKET_COUNT
      modifies `infos, `triedBuckets, `newBuckets, `newCount
      ensures Now() == Evicted(env, old(Now()), id, origin, t, p)
    {
      var out := triedBuckets[t][p];
      var home := NewBucket(env, key, infos[out].address.service, infos[out].source);
      infos := infos[out := infos[out].(inTried := false, refCount := 1)];
      if |newBuckets[home]| < NEW_BUCKET_SIZE {
        newBuckets := newBuckets[home := newBuckets[home] + {out}];
      } else {
        newBuckets := newBuckets[origin := newBuckets[origin] + {out}];
      }
      newCount := newCount + 1;
      triedBuckets := triedBuckets[t := triedBuckets[t][p := id]];
      infos := infos[id := infos[id].(inTried := true)];
    }

    /** A "new" bucket holding an entry that is not tried, searched from a random start. */
    method FindBucket(id: int) returns (b: int)
      requires Consistent() && id in infos && !infos[id].inTried
      ensures 0 <= b < NEW_BUCKET_COUNT && id in newBuckets[b]
    {
      var start := GetRandInt(|newBuckets|);
      b := -1;
      var n := 0;
      while n < |newBuckets| && b == -1
        invariant 0 <= n <= |newBuckets|
        invariant if b == -1 then forall m :: 0 <= m < n ==> id !in newBuckets[Probe(start, m)]
                  else 0 <= b < NEW_BUCKET_COUNT && id in newBuckets[b]
      {
        if id in newBuckets[(n + start) % |newBuckets|] { b := (n + start) % |newBuckets|; }
        assert Probe(start, n) == (n + start) % |newBuckets|;
        n := n + 1;
      }
      if b == -1 {
        ProbeFinds(infos, newBuckets, id, start);
        assert false;
      }
    }

    /** Marks a service as reachable, moving it to the tried table. */
    method Good(s: Service, time: int) returns (ghost origin: int, ghost draws: seq<int>)
      requires Consistent()
      modifies `infos, `triedBuckets, `newBuckets, `triedCount, `newCount
      ensures Consistent()
      ensures !Knows(old(Now()), s) ==> Now() == old(Now())
      ensures Knows(old(Now()), s) ==>
        var id := old(ids)[s.net];
        var k := Edit(old(Now()), id, Succeeded(old(infos)[id], time));
        && id in infos && infos[id].inTried
        && infos[id].lastSuccess == infos[id].lastTry == time && infos[id].attempts == 0
        && infos[id].address == old(infos)[id].address.(time := time % 0x1_0000_0000)
        && if old(infos)[id].inTried then Now() == k else Promotes(env, k, Now(), id, origin, draws)
    {
      origin, draws := 0, [];
      var found, id := Find(s.net);
      if !found { return; }
      if infos[id].address.service != s { return; }
      EditOk(env, Now(), id, Succeeded(infos[id], time));
      infos := infos[id := Succeeded(infos[id], time)];
      if infos[id].inTried { return; }
      var c := FindBucket(id);
      origin := c;
      draws := MakeTried(id, c);
    }

    method Attempt(s: Service, time: int)
      requires Consistent()
      modifies `infos
      ensures Consistent()
      ensures !Knows(old(Now()), s) ==> Now() == old(Now())
      ensures Knows(old(Now()), s) ==>
        var e := old(infos)[ids[s.net]];
        Now() == Edit(old(Now()), ids[s.net], e.(lastTry := time, attempts := e.attempts + 1))
    {
      var found, id := Find(s.net);
      if !found { return; }
      if infos[id].address.service != s { return; }
      EditOk(env, Now(), id, infos[id].(lastTry := time, attempts := infos[id].attempts + 1));
      infos := infos[id := infos[id].(lastTry := time, attempts := infos[id].attempts + 1)];
    }

    method Connected(s: Service, time: int)
      requires Consistent()
      modifies `infos
      ensures Consistent()
      ensures !Knows(old(Now()), s) ==> Now() == old(Now())
      ensures Knows(old(Now()), s) ==>
        var e := old(infos)[ids[s.net]];
        Now() == if time - e.address.time > 20 * 60
                 then Edit(old(Now()), ids[s.net], e.(address := e.address.(time := U32(time))))
                 else old(Now())
    {
      var found, id := Find(s.net);
      if !found { return; }
      if infos[id].address.service != s { return; }
      if time - infos[id].address.time > 20 * 60 {
        EditOk(env, Now(), id, infos[id].(address := infos[id].address.(time := U32(time))));
        infos := infos[id := infos[id].(address := infos[id].address.(time := U32(time)))];
      }
    }

    /** Swaps a random later place of the order to place `n`. */
    method Shuffle(n: int) returns (a: Address)
      requires Consistent() && 0 <= n < |order|
      modifies `infos, `order
      ensures Consistent() && SameButPos(old(infos), infos)
      ensures |order| == |old(order)| && multiset(order) == multiset(old(order)) && order[..n] == old(order)[..n]
      ensures order[n] in infos && a == infos[order[n]].address
    {
      var r := GetRandInt(|order| - n);
      SwapOk(env, Now(), n, r + n, -1);
      SwapRandom(n, r + n);
      assert PointsBack(infos, order, n);
      a := infos[order[n]].address;
    }

    /** A random selection of known addresses, by a partial shuffle of the order. */
    method GetAddr() returns (addrs: seq<Address>)
      requires Consistent()
      modifies `infos, `order
      ensures Consistent() && SameButPos(old(infos), infos)
      ensures multiset(order) == multiset(old(order))
      ensures |addrs| == var n := 23 * |order| / 100; if n > 2500 then 2500 else n
      ensures forall i :: 0 <= i < |addrs| ==> i < |order| && order[i] in infos && addrs[i] == infos[order[i]].address
      ensures forall i, j :: 0 <= i < j < |addrs| ==> addrs[i].service.net != addrs[j].service.net
    {
      var nodes := GETADDR_MAX_PCT * |order| / 100;
      if nodes > GETADDR_MAX { nodes := GETADDR_MAX; }
      addrs := [];
      ghost var infos0, order0 := infos, order;
      SameRefl(infos);
      for n := 0 to nodes
        invariant Consistent() && Picked(infos0, order0, infos, order, addrs, n)
      {
        addrs := PickNext(n, addrs, infos0, order0);
      }
      ListedDistinct(env, Now(), addrs);
    }

    /** One round of the partial shuffle. */
    method PickNext(n: int, addrs: seq<Address>, ghost infos0: map<int, Entry>, ghost order0: seq<int>)
      returns (more: seq<Address>)
      requires Consistent() && 0 <= n < |order| && Picked(infos0, order0, infos, order, addrs, n)
      modifies `infos, `order
      ensures Consistent() && Picked(infos0, order0, infos, order, more, n + 1)
    {
      ghost var before, places := infos, order;
      var a := Shuffle(n);
      PickedMore(infos0, order0, before, places, addrs, n, infos, order);
      more := addrs + [a];
    }
  }
}
