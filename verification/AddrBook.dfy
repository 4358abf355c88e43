/** The address manager's tables as values: peers, entries, bucket hashing and the
    consistency conditions that tie the redundant structures together. */
module AddrBook {

  const TRIED_BUCKET_COUNT := 64
  const TRIED_BUCKET_SIZE := 64
  const NEW_BUCKET_COUNT := 256
  const NEW_BUCKET_SIZE := 64
  const TRIED_BUCKETS_PER_GROUP := 4
  const NEW_BUCKETS_PER_SOURCE_GROUP := 32
  const NEW_BUCKETS_PER_ADDRESS := 4
  const TRIED_ENTRIES_INSPECT_ON_EVICT := 4
  const HORIZON_DAYS := 30
  const RETRIES := 3
  const MAX_FAILURES := 10
  const MIN_FAIL_DAYS := 7
  const GETADDR_MAX_PCT := 23
  const GETADDR_MAX := 2500

  /** A network address; table lookups ignore the port. */
  datatype NetAddr = NetAddr(ip: seq<int>)

  datatype Service = Service(net: NetAddr, port: int)

  /** Times are stored as unsigned 32-bit values. */
  type Time32 = t: int | 0 <= t < 0x1_0000_0000

  /** What a peer announces: a service, when it was last seen and which service bits it sets. */
  datatype Address = Address(service: Service, time: Time32, services: set<nat>)

  datatype Entry = Entry(
    address: Address,
    source: NetAddr,
    lastSuccess: int,
    lastTry: int,
    attempts: int,
    refCount: int,
    inTried: bool,
    pos: int)

  /** Everything the manager takes from outside: the 64-bit hash of a list of byte
      strings, the group of an address, and whether an address is routable. */
  datatype Env = Env(
    hash: seq<seq<int>> -> nat,
    group: NetAddr -> seq<int>,
    routable: NetAddr -> bool)

  /** The conversion of a wider time to the stored width. */
  function U32(t: int): Time32 { t % 0x1_0000_0000 }

  function KeyBytes(s: Service): seq<int> { s.net.ip + [s.port / 0x100, s.port % 0x100] }

  /** The address, then the port in two bytes, highest first: so services of equally long addresses have
      different keys. */
  lemma KeyBytesAre(s: Service)
    requires 0 <= s.port < 0x1_0000
    ensures var k, n := KeyBytes(s), |s.net.ip|;
      && |k| == n + 2 && k[..n] == s.net.ip
      && 0 <= k[n] < 256 && 0 <= k[n + 1] < 256 && 256 * k[n] + k[n + 1] == s.port
  {
  }

  function TriedBucket(env: Env, key: seq<int>, s: Service): (b: nat)
    ensures b < TRIED_BUCKET_COUNT
  {
    var slot := env.hash([key, KeyBytes(s)]) % TRIED_BUCKETS_PER_GROUP;
    env.hash([key, env.group(s.net), [slot]]) % TRIED_BUCKET_COUNT
  }

  /** The tried buckets of a group of addresses: at most four. */
  ghost function GroupBuckets(env: Env, key: seq<int>, group: seq<int>): set<int> {
    set slot | 0 <= slot < 4 :: env.hash([key, group, [slot]]) % 64
  }

  lemma TriedSpread(env: Env, key: seq<int>, s: Service)
    ensures TriedBucket(env, key, s) in GroupBuckets(env, key, env.group(s.net))
    ensures |GroupBuckets(env, key, env.group(s.net))| <= 4
  {
    var g := env.group(s.net);
    var b := i => env.hash([key, g, [i]]) % 64;
    assert GroupBuckets(env, key, g) == {b(0), b(1), b(2), b(3)};
    var slot := env.hash([key, KeyBytes(s)]) % 4;
    assert TriedBucket(env, key, s) == b(slot);
  }

  /** The "new" buckets that a group of sources can fill: at most 32. */
  ghost function SourceBuckets(env: Env, key: seq<int>, group: seq<int>, n: nat): set<int> {
    set slot | 0 <= slot < n :: env.hash([key, group, [slot]]) % 256
  }

  lemma {:induction false} SourceBucketsSize(env: Env, key: seq<int>, group: seq<int>, n: nat)
    ensures |SourceBuckets(env, key, group, n)| <= n
  {
    if n > 0 {
      SourceBucketsSize(env, key, group, n - 1);
      var last := env.hash([key, group, [n - 1]]) % 256;
      assert SourceBuckets(env, key, group, n) == SourceBuckets(env, key, group, n - 1) + {last};
    } else {
      assert SourceBuckets(env, key, group, n) == {};
    }
  }

  lemma NewSpread(env: Env, key: seq<int>, s: Service, source: NetAddr)
    ensures NewBucket(env, key, s, source) in SourceBuckets(env, key, env.group(source), 32)
    ensures |SourceBuckets(env, key, env.group(source), 32)| <= 32
  {
    SourceBucketsSize(env, key, env.group(source), 32);
  }

  function NewBucket(env: Env, key: seq<int>, s: Service, source: NetAddr): (b: nat)
    ensures b < NEW_BUCKET_COUNT
  {
    var slot := env.hash([key, env.group(s.net), env.group(source)]) % NEW_BUCKETS_PER_SOURCE_GROUP;
    env.hash([key, env.group(source), [slot]]) % NEW_BUCKET_COUNT
  }

  predicate IsTerrible(e: Entry, now: int) {
    if e.lastTry != 0 && e.lastTry >= now - 60 then false
    else if e.address.time > now + 10 * 60 then true
    else if e.address.time == 0 || now - e.address.time > HORIZON_DAYS * 86400 then true
    else if e.lastSuccess == 0 && e.attempts >= RETRIES then true
    else now - e.lastSuccess > MIN_FAIL_DAYS * 86400 && e.attempts >= MAX_FAILURES
  }

  /** Tried within the last minute. */
  predicate TriedLately(e: Entry, now: int) { e.lastTry != 0 && now - e.lastTry <= 60 }

  /** Never seen, seen more than ten minutes in the future, or not for thirty days. */
  predicate Unseen(e: Entry, now: int) {
    e.address.time == 0 || e.address.time - now > 600 || now - e.address.time > 2592000
  }

  /** Three attempts and never a success, or ten attempts and no success for seven days. */
  predicate Failing(e: Entry, now: int) {
    (e.attempts >= 3 && e.lastSuccess == 0) || (e.attempts >= 10 && now - e.lastSuccess > 604800)
  }

  /** The entries that may be given up before any other. */
  lemma TerribleIff(e: Entry, now: int)
    ensures IsTerrible(e, now) <==> !TriedLately(e, now) && (Unseen(e, now) || Failing(e, now))
  {
  }

  function NewEntry(address: Address, source: NetAddr): Entry {
    Entry(address, source, 0, 0, 0, 0, false, -1)
  }

  /** Time and services of a known entry after the same address is announced again. */
  function Refreshed(e: Entry, addr: Address, penalty: int, now: int): Entry {
    var interval := if now - addr.time < 24 * 60 * 60 then 60 * 60 else 24 * 60 * 60;
    var time :=
      if addr.time != 0 && (e.address.time == 0 || e.address.time < addr.time - interval - penalty)
      then U32(Max0(addr.time - penalty))
      else e.address.time;
    e.(address := Address(e.address.service, time, e.address.services + addr.services))
  }

  /** When the last-seen time of a known entry is renewed: if there is none, or if it lags by more than an
      hour for an address seen within a day, or by more than a day otherwise; nothing but time and services
      changes. */
  lemma RefreshedMeans(e: Entry, addr: Address, penalty: int, now: int)
    ensures var r := Refreshed(e, addr, penalty, now);
      && r == e.(address := Address(e.address.service, r.address.time, e.address.services + addr.services))
      && (addr.time == 0 ==> r.address.time == e.address.time)
      && (addr.time != 0 && e.address.time == 0 ==> r.address.time == U32(Max0(addr.time - penalty)))
      && (addr.time != 0 && e.address.time != 0 && now - addr.time < 86400 ==>
          r.address.time ==
          if addr.time - e.address.time > 3600 + penalty then U32(Max0(addr.time - penalty)) else e.address.time)
      && (addr.time != 0 && e.address.time != 0 && now - addr.time >= 86400 ==>
          r.address.time ==
          if addr.time - e.address.time > 86400 + penalty then U32(Max0(addr.time - penalty)) else e.address.time)
  {
  }

  function Max0(t: int): nat { if t < 0 then 0 else t }

  /** An entry just after a successful connection. */
  function Succeeded(e: Entry, time: int): Entry {
    e.(address := e.address.(time := U32(time)), lastSuccess := time, lastTry := time, attempts := 0)
  }

  // ----- consistency, one structure at a time -----

  ghost function TriedIds(infos: map<int, Entry>): set<int> {
    set id | id in infos && infos[id].inTried
  }

  ghost function NewIds(infos: map<int, Entry>): set<int> {
    set id | id in infos && !infos[id].inTried
  }

  /** The "new" buckets that hold an id. */
  ghost function Homes(buckets: seq<set<int>>, id: int): set<int> {
    set b | 0 <= b < |buckets| && id in buckets[b]
  }

  ghost predicate IdsOk(infos: map<int, Entry>, nextId: int) {
    0 <= nextId && forall id :: id in infos ==> 0 <= id < nextId
  }

  /** The address index is the inverse of the entry table. */
  ghost predicate IndexOk(infos: map<int, Entry>, ids: map<NetAddr, int>) {
    && (forall a {:trigger Names(infos, ids, a)} :: Names(infos, ids, a))
    && (forall id {:trigger Indexed(infos, ids, id)} :: Indexed(infos, ids, id))
  }

  ghost predicate Names(infos: map<int, Entry>, ids: map<NetAddr, int>, a: NetAddr) {
    a in ids ==> HasNet(infos, ids[a], a)
  }

  ghost predicate HasNet(infos: map<int, Entry>, id: int, a: NetAddr) {
    id in infos && infos[id].address.service.net == a
  }

  ghost predicate Indexed(infos: map<int, Entry>, ids: map<NetAddr, int>, id: int) {
    id in infos ==> infos[id].address.service.net in ids && ids[infos[id].address.service.net] == id
  }

  /** The random order and the back-pointers are inverse to each other. */
  ghost predicate OrderOk(infos: map<int, Entry>, order: seq<int>) {
    && (forall i {:trigger PointsBack(infos, order, i)} :: PointsBack(infos, order, i))
    && (forall id {:trigger Placed(infos, order, id)} :: Placed(infos, order, id))
  }

  ghost predicate PointsBack(infos: map<int, Entry>, order: seq<int>, i: int) {
    0 <= i < |order| ==> IsAt(infos, order[i], i)
  }

  ghost predicate IsAt(infos: map<int, Entry>, id: int, i: int) { id in infos && infos[id].pos == i }

  ghost predicate Placed(infos: map<int, Entry>, order: seq<int>, id: int) {
    id in infos ==> 0 <= infos[id].pos < |order| && order[infos[id].pos] == id
  }

  /** Reference counts are exact; `pending` (or -1) is one reference ahead of its buckets. */
  ghost predicate NewOk(infos: map<int, Entry>, buckets: seq<set<int>>, pending: int) {
    && |buckets| == NEW_BUCKET_COUNT
    && (forall b {:trigger NewBucketOk(infos, buckets, b)} :: NewBucketOk(infos, buckets, b))
    && (forall id {:trigger RefOk(infos, buckets, id, pending)} :: RefOk(infos, buckets, id, pending))
  }

  ghost predicate NewBucketOk(infos: map<int, Entry>, buckets: seq<set<int>>, b: int) {
    0 <= b < |buckets| ==>
      && |buckets[b]| <= NEW_BUCKET_SIZE
      && forall id :: id in buckets[b] ==> id in infos && !infos[id].inTried
  }

  ghost predicate RefOk(infos: map<int, Entry>, buckets: seq<set<int>>, id: int, pending: int) {
    id in infos ==>
      if infos[id].inTried then infos[id].refCount == 0
      else
        && infos[id].refCount == |Homes(buckets, id)| + (if id == pending then 1 else 0)
        && 1 <= infos[id].refCount <= NEW_BUCKETS_PER_ADDRESS
  }

  ghost predicate NoDup<T>(s: seq<T>) { forall i, j :: 0 <= i < j < |s| ==> s[i] != s[j] }

  /** Tried buckets hold exactly the tried entries, each once, each in the bucket its key selects. */
  ghost predicate TriedOk(env: Env, key: seq<int>, infos: map<int, Entry>, buckets: seq<seq<int>>) {
    && |buckets| == TRIED_BUCKET_COUNT
    && (forall b {:trigger TriedBucketOk(env, key, infos, buckets, b)} :: TriedBucketOk(env, key, infos, buckets, b))
    && (forall id {:trigger TriedPlaced(env, key, infos, buckets, id)} :: TriedPlaced(env, key, infos, buckets, id))
  }

  ghost predicate TriedBucketOk(env: Env, key: seq<int>, infos: map<int, Entry>, buckets: seq<seq<int>>, b: int) {
    0 <= b < |buckets| ==>
      && |buckets[b]| <= TRIED_BUCKET_SIZE
      && NoDup(buckets[b])
      && forall id :: id in buckets[b] ==>
           id in infos && infos[id].inTried && TriedBucket(env, key, infos[id].address.service) == b
  }

  ghost predicate TriedPlaced(env: Env, key: seq<int>, infos: map<int, Entry>, buckets: seq<seq<int>>, id: int)
    requires |buckets| == TRIED_BUCKET_COUNT
  {
    id in infos && infos[id].inTried ==> id in buckets[TriedBucket(env, key, infos[id].address.service)]
  }

  ghost predicate CountOk(infos: map<int, Entry>, triedCount: int, newCount: int) {
    triedCount == |TriedIds(infos)| && newCount == |NewIds(infos)|
  }

  /** The conditions on stored times that the debug check also asks for. */
  ghost predicate TimesOk(infos: map<int, Entry>) {
    forall id :: id in infos ==> EntryTimesOk(infos[id])
  }

  ghost predicate EntryTimesOk(e: Entry) {
    e.lastTry >= 0 && e.lastSuccess >= 0 && (e.inTried ==> e.lastSuccess != 0)
  }

  // ----- the whole book -----

  /** The manager's state as one value. */
  datatype Book = Book(
    key: seq<int>,
    nextId: int,
    infos: map<int, Entry>,
    ids: map<NetAddr, int>,
    order: seq<int>,
    triedCount: int,
    triedBuckets: seq<seq<int>>,
    newCount: int,
    newBuckets: seq<set<int>>)

  /** The entry for exactly this service (port included) is known. */
  ghost predicate Knows(k: Book, s: Service) {
    s.net in k.ids && k.ids[s.net] in k.infos && k.infos[k.ids[s.net]].address.service == s
  }

  ghost predicate Ok(env: Env, k: Book, pending: int) {
    && IdsOk(k.infos, k.nextId)
    && IndexOk(k.infos, k.ids)
    && OrderOk(k.infos, k.order)
    && NewOk(k.infos, k.newBuckets, pending)
    && TriedOk(env, k.key, k.infos, k.triedBuckets)
    && CountOk(k.infos, k.triedCount, k.newCount)
  }

  // ----- frames: what a change of entries leaves alone -----

  /** Only back-pointers differ. */
  ghost predicate SameButPos(m: map<int, Entry>, m': map<int, Entry>) {
    (forall id :: id in m <==> id in m') && forall id :: id in m ==> m'[id] == m[id].(pos := m'[id].pos)
  }

  /** The entries after `id` (or -1: nothing) leaves one "new" bucket: one reference less, and
      forgotten with the last one. */
  ghost function DropOne(m: map<int, Entry>, id: int): map<int, Entry> {
    if id !in m then m
    else if m[id].refCount == 1 then m - {id}
    else m[id := m[id].(refCount := m[id].refCount - 1)]
  }

  /** Services and tables are the same, so is everything that only depends on them. */
  ghost predicate SamePlaces(m: map<int, Entry>, m': map<int, Entry>) {
    && (forall id :: id in m <==> id in m')
    && forall id :: id in m ==>
         m'[id].address.service == m[id].address.service && m'[id].inTried == m[id].inTried
  }

  lemma PlacesKeep(env: Env, key: seq<int>, m: map<int, Entry>, m': map<int, Entry>, ids: map<NetAddr, int>,
                   triedBuckets: seq<seq<int>>, nextId: int)
    requires SamePlaces(m, m')
    ensures TriedIds(m') == TriedIds(m) && NewIds(m') == NewIds(m)
    ensures IdsOk(m, nextId) ==> IdsOk(m', nextId)
    ensures IndexOk(m, ids) ==> IndexOk(m', ids)
    ensures TriedOk(env, key, m, triedBuckets) ==> TriedOk(env, key, m', triedBuckets)
  {
    assert forall id :: id in NewIds(m') <==> id in NewIds(m);
    assert forall id :: id in TriedIds(m') <==> id in TriedIds(m);
    if IndexOk(m, ids) {
      forall a ensures Names(m', ids, a) { assert Names(m, ids, a); }
      forall id ensures Indexed(m', ids, id) { assert Indexed(m, ids, id); }
    }
    if TriedOk(env, key, m, triedBuckets) {
      forall b ensures TriedBucketOk(env, key, m', triedBuckets, b) {
        assert TriedBucketOk(env, key, m, triedBuckets, b);
      }
      forall id ensures TriedPlaced(env, key, m', triedBuckets, id) {
        assert TriedPlaced(env, key, m, triedBuckets, id);
      }
    }
  }

  lemma RefsKeep(m: map<int, Entry>, m': map<int, Entry>, newBuckets: seq<set<int>>, pending: int)
    requires SamePlaces(m, m') && NewOk(m, newBuckets, pending)
    requires forall id :: id in m ==> m'[id].refCount == m[id].refCount
    ensures NewOk(m', newBuckets, pending)
  {
    forall b ensures NewBucketOk(m', newBuckets, b) { assert NewBucketOk(m, newBuckets, b); }
    forall id ensures RefOk(m', newBuckets, id, pending) { assert RefOk(m, newBuckets, id, pending); }
  }

  lemma PosKeep(m: map<int, Entry>, m': map<int, Entry>, order: seq<int>)
    requires (forall id :: id in m <==> id in m') && forall id :: id in m ==> m'[id].pos == m[id].pos
    requires OrderOk(m, order)
    ensures OrderOk(m', order)
  {
    forall i ensures PointsBack(m', order, i) { assert PointsBack(m, order, i); }
    forall id ensures Placed(m', order, id) { assert Placed(m, order, id); }
  }

  // ----- homes -----

  lemma HomesDrop(buckets: seq<set<int>>, b: int, id: int, x: int)
    requires 0 <= b < |buckets|
    ensures Homes(buckets[b := buckets[b] - {id}], x) == if x == id then Homes(buckets, x) - {b} else Homes(buckets, x)
  {
  }

  lemma HomesPut(buckets: seq<set<int>>, b: int, id: int, x: int)
    requires 0 <= b < |buckets|
    ensures Homes(buckets[b := buckets[b] + {id}], x) == if x == id then Homes(buckets, x) + {b} else Homes(buckets, x)
  {
  }

  /** Tried and unknown ids are in no "new" bucket. */
  lemma NoHome(m: map<int, Entry>, buckets: seq<set<int>>, id: int, pending: int)
    requires NewOk(m, buckets, pending) && (id !in m || m[id].inTried)
    ensures Homes(buckets, id) == {}
  {
    forall b | 0 <= b < |buckets| ensures id !in buckets[b] { assert NewBucketOk(m, buckets, b); }
  }

  /** Dropping one reference that is not the last. */
  lemma DropRef(m: map<int, Entry>, buckets: seq<set<int>>, pending: int, b: int, id: int)
    requires NewOk(m, buckets, pending) && 0 <= b < |buckets| && id in buckets[b] && id != pending
    requires id in m && m[id].refCount != 1
    ensures NewOk(m[id := m[id].(refCount := m[id].refCount - 1)], buckets[b := buckets[b] - {id}], pending)
  {
    var m', bs' := m[id := m[id].(refCount := m[id].refCount - 1)], buckets[b := buckets[b] - {id}];
    forall c ensures NewBucketOk(m', bs', c) { assert NewBucketOk(m, buckets, c); }
    forall x ensures RefOk(m', bs', x, pending) {
      HomesDrop(buckets, b, id, x);
      assert NewBucketOk(m, buckets, b);
      assert RefOk(m, buckets, x, pending);
      assert x == id ==> b in Homes(buckets, x);
    }
  }

  /** Dropping the last reference, and with it the entry. */
  lemma DropLast(m: map<int, Entry>, buckets: seq<set<int>>, pending: int, b: int, id: int)
    requires NewOk(m, buckets, pending) && 0 <= b < |buckets| && id in buckets[b] && id != pending
    requires id in m && m[id].refCount == 1
    ensures NewOk(m - {id}, buckets[b := buckets[b] - {id}], pending) && !m[id].inTried
    ensures TriedIds(m - {id}) == TriedIds(m) && NewIds(m - {id}) == NewIds(m) - {id} && id in NewIds(m)
  {
    var m', bs' := m - {id}, buckets[b := buckets[b] - {id}];
    assert RefOk(m, buckets, id, pending) && NewBucketOk(m, buckets, b);
    assert b in Homes(buckets, id);
    assert |Homes(buckets, id) - {b}| == 0;
    forall c ensures NewBucketOk(m', bs', c) {
      assert NewBucketOk(m, buckets, c);
      assert 0 <= c < |bs'| && id in bs'[c] ==> c in Homes(buckets, id) - {b};
    }
    forall x ensures RefOk(m', bs', x, pending) {
      HomesDrop(buckets, b, id, x);
      assert RefOk(m, buckets, x, pending);
    }
  }

  /** Forgetting an entry that is not tried. */
  lemma ForgetKeeps(env: Env, key: seq<int>, m: map<int, Entry>, triedBuckets: seq<seq<int>>, nextId: int, id: int)
    requires TriedOk(env, key, m, triedBuckets) && IdsOk(m, nextId) && id in m && !m[id].inTried
    ensures TriedOk(env, key, m - {id}, triedBuckets) && IdsOk(m - {id}, nextId)
  {
    forall b ensures TriedBucketOk(env, key, m - {id}, triedBuckets, b) {
      assert TriedBucketOk(env, key, m, triedBuckets, b);
    }
    forall x ensures TriedPlaced(env, key, m - {id}, triedBuckets, x) {
      assert TriedPlaced(env, key, m, triedBuckets, x);
    }
  }

  /** The pending entry reaches its bucket. */
  lemma PutPending(m: map<int, Entry>, buckets: seq<set<int>>, pending: int, b: int)
    requires NewOk(m, buckets, pending) && 0 <= b < |buckets| && pending !in buckets[b]
    requires pending in m && !m[pending].inTried && |buckets[b]| < NEW_BUCKET_SIZE
    requires -1 !in m
    ensures NewOk(m, buckets[b := buckets[b] + {pending}], -1)
  {
    var bs' := buckets[b := buckets[b] + {pending}];
    forall c ensures NewBucketOk(m, bs', c) { assert NewBucketOk(m, buckets, c); }
    forall x ensures RefOk(m, bs', x, -1) {
      HomesPut(buckets, b, pending, x);
      assert RefOk(m, buckets, x, pending);
      assert x == pending ==> b !in Homes(buckets, x);
    }
  }

  /** The pending entry starts waiting for its bucket. */
  lemma Await(m: map<int, Entry>, buckets: seq<set<int>>, id: int)
    requires NewOk(m, buckets, -1) && id in m && !m[id].inTried && -1 !in m
    requires m[id].refCount < NEW_BUCKETS_PER_ADDRESS
    ensures NewOk(m[id := m[id].(refCount := m[id].refCount + 1)], buckets, id)
  {
    var m' := m[id := m[id].(refCount := m[id].refCount + 1)];
    forall c ensures NewBucketOk(m', buckets, c) { assert NewBucketOk(m, buckets, c); }
    forall x ensures RefOk(m', buckets, x, id) { assert RefOk(m, buckets, x, -1); }
  }

  /** A brand-new entry waits for its first bucket. */
  lemma AwaitFirst(m: map<int, Entry>, buckets: seq<set<int>>, id: int, e: Entry)
    requires NewOk(m, buckets, -1) && id !in m && -1 !in m && !e.inTried && e.refCount == 1
    ensures NewOk(m[id := e], buckets, id)
    ensures TriedIds(m[id := e]) == TriedIds(m) && NewIds(m[id := e]) == NewIds(m) + {id}
  {
    var m' := m[id := e];
    NoHome(m, buckets, id, -1);
    forall c ensures NewBucketOk(m', buckets, c) { assert NewBucketOk(m, buckets, c); }
    forall x ensures RefOk(m', buckets, x, id) { assert RefOk(m, buckets, x, -1); }
  }

  // ----- moving between the tables -----

  /** Leaving every "new" bucket and becoming tried. */
  lemma Promote(m: map<int, Entry>, buckets: seq<set<int>>, buckets': seq<set<int>>, id: int, e: Entry)
    requires NewOk(m, buckets, -1) && id in m && !m[id].inTried
    requires |buckets'| == |buckets| && forall b :: 0 <= b < |buckets| ==> buckets'[b] == buckets[b] - {id}
    requires e.inTried && e.refCount == 0
    ensures NewOk(m[id := e], buckets', -1)
    ensures TriedIds(m[id := e]) == TriedIds(m) + {id} && id !in TriedIds(m)
    ensures NewIds(m[id := e]) == NewIds(m) - {id} && id in NewIds(m)
  {
    var m' := m[id := e];
    forall b ensures NewBucketOk(m', buckets', b) {
      assert NewBucketOk(m, buckets, b);
      assert 0 <= b < |buckets| ==> id in buckets[b] || buckets[b] - {id} == buckets[b];
    }
    forall x ensures RefOk(m', buckets', x, -1) {
      assert x != id ==> Homes(buckets', x) == Homes(buckets, x);
      assert RefOk(m, buckets, x, -1);
    }
  }

  /** Going back from tried to one "new" bucket with room. */
  lemma Demote(m: map<int, Entry>, buckets: seq<set<int>>, id: int, b: int, e: Entry)
    requires NewOk(m, buckets, -1) && id in m && m[id].inTried && -1 !in m
    requires 0 <= b < |buckets| && |buckets[b]| < NEW_BUCKET_SIZE
    requires !e.inTried && e.refCount == 1
    ensures NewOk(m[id := e], buckets[b := buckets[b] + {id}], -1)
    ensures TriedIds(m[id := e]) == TriedIds(m) - {id} && id in TriedIds(m)
    ensures NewIds(m[id := e]) == NewIds(m) + {id} && id !in NewIds(m)
  {
    var m', bs' := m[id := e], buckets[b := buckets[b] + {id}];
    NoHome(m, buckets, id, -1);
    forall c ensures NewBucketOk(m', bs', c) { assert NewBucketOk(m, buckets, c); }
    forall x ensures RefOk(m', bs', x, -1) {
      HomesPut(buckets, b, id, x);
      assert RefOk(m, buckets, x, -1);
    }
  }

  lemma TriedPush(env: Env, key: seq<int>, m: map<int, Entry>, buckets: seq<seq<int>>, id: int, e: Entry)
    requires TriedOk(env, key, m, buckets) && id in m && !m[id].inTried && e.inTried
    requires |buckets[TriedBucket(env, key, e.address.service)]| < TRIED_BUCKET_SIZE
    ensures var k := TriedBucket(env, key, e.address.service);
      TriedOk(env, key, m[id := e], buckets[k := buckets[k] + [id]])
  {
    var k := TriedBucket(env, key, e.address.service);
    var m', bs' := m[id := e], buckets[k := buckets[k] + [id]];
    forall b ensures TriedBucketOk(env, key, m', bs', b) { assert TriedBucketOk(env, key, m, buckets, b); }
    forall x ensures TriedPlaced(env, key, m', bs', x) { assert TriedPlaced(env, key, m, buckets, x); }
  }

  lemma TriedReplace(env: Env, key: seq<int>, m: map<int, Entry>, buckets: seq<seq<int>>,
                     id: int, e: Entry, pos: int, evicted: Entry)
    requires TriedOk(env, key, m, buckets) && id in m && !m[id].inTried && e.inTried && !evicted.inTried
    requires 0 <= pos < |buckets[TriedBucket(env, key, e.address.service)]|
    ensures var k := TriedBucket(env, key, e.address.service);
      && buckets[k][pos] in m && m[buckets[k][pos]].inTried
      && TriedOk(env, key, m[id := e][buckets[k][pos] := evicted], buckets[k := buckets[k][pos := id]])
  {
    var k := TriedBucket(env, key, e.address.service);
    var out := buckets[k][pos];
    assert out in buckets[k] && TriedBucketOk(env, key, m, buckets, k);
    var m', bs' := m[id := e][out := evicted], buckets[k := buckets[k][pos := id]];
    forall b ensures TriedBucketOk(env, key, m', bs', b) {
      assert TriedBucketOk(env, key, m, buckets, b);
      forall x | 0 <= b < |bs'| && x in bs'[b]
        ensures x in m' && m'[x].inTried && TriedBucket(env, key, m'[x].address.service) == b
      {
        var i :| 0 <= i < |bs'[b]| && bs'[b][i] == x;
        assert b == k && i != pos ==> buckets[k][i] != out;
        assert x == id || x in buckets[b];
      }
    }
    forall x ensures TriedPlaced(env, key, m', bs', x) {
      assert TriedPlaced(env, key, m, buckets, x);
      if x == id {
        assert bs'[k][pos] == id;
      } else if x in m' && m'[x].inTried {
        var b := TriedBucket(env, key, m'[x].address.service);
        var i :| 0 <= i < |buckets[b]| && buckets[b][i] == x;
        assert bs'[b][i] == x;
      }
    }
  }

  lemma TriedSwap(env: Env, key: seq<int>, m: map<int, Entry>, buckets: seq<seq<int>>, k: int, i: int, j: int)
    requires TriedOk(env, key, m, buckets) && 0 <= k < |buckets| && 0 <= i < |buckets[k]| && 0 <= j < |buckets[k]|
    ensures var bk := buckets[k];
      TriedOk(env, key, m, buckets[k := bk[i := bk[j]][j := bk[i]]])
  {
    var bk := buckets[k];
    var bk' := bk[i := bk[j]][j := bk[i]];
    var bs' := buckets[k := bk'];
    forall x ensures x in bk' <==> x in bk {
      if x in bk {
        var n :| 0 <= n < |bk| && bk[n] == x;
        assert bk'[if n == i then j else if n == j then i else n] == x;
      }
      if x in bk' {
        var n :| 0 <= n < |bk'| && bk'[n] == x;
        assert bk[if n == i then j else if n == j then i else n] == x;
      }
    }
    forall b ensures TriedBucketOk(env, key, m, bs', b) { assert TriedBucketOk(env, key, m, buckets, b); }
    forall x ensures TriedPlaced(env, key, m, bs', x) { assert TriedPlaced(env, key, m, buckets, x); }
  }

  // ----- the random order -----

  lemma OrderPop(m: map<int, Entry>, ids: map<NetAddr, int>, order: seq<int>, id: int)
    requires OrderOk(m, order) && IndexOk(m, ids) && id in m && 0 <= m[id].pos == |order| - 1
    ensures OrderOk(m - {id}, order[..|order| - 1])
    ensures IndexOk(m - {id}, ids - {m[id].address.service.net})
  {
    var m', order', ids' := m - {id}, order[..|order| - 1], ids - {m[id].address.service.net};
    assert Placed(m, order, id) && Indexed(m, ids, id);
    forall n ensures PointsBack(m', order', n) { assert PointsBack(m, order, n); }
    forall x ensures Placed(m', order', x) { assert Placed(m, order, x); }
    forall a ensures Names(m', ids', a) { assert Names(m, ids, a); }
    forall x ensures Indexed(m', ids', x) { assert Indexed(m, ids, x); }
  }

  lemma OrderPush(m: map<int, Entry>, ids: map<NetAddr, int>, order: seq<int>, id: int, e: Entry)
    requires OrderOk(m, order) && IndexOk(m, ids) && id !in m && e.pos == |order|
    requires e.address.service.net !in ids
    ensures OrderOk(m[id := e], order + [id])
    ensures IndexOk(m[id := e], ids[e.address.service.net := id])
  {
    var m', order', ids' := m[id := e], order + [id], ids[e.address.service.net := id];
    forall n ensures PointsBack(m', order', n) { assert PointsBack(m, order, n); }
    forall x ensures Placed(m', order', x) { assert Placed(m, order, x); }
    forall a ensures Names(m', ids', a) { assert Names(m, ids, a); }
    forall x ensures Indexed(m', ids', x) { assert Indexed(m, ids, x); }
  }
}
