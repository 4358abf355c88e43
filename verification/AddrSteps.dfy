/** The steps of the address manager as functions on its state, and why each keeps it consistent. */
module AddrSteps {
  import opened AddrBook

  /** Exchanging two places of the random order. */
  ghost function Swap(k: Book, i: int, j: int): Book
    requires OrderOk(k.infos, k.order) && 0 <= i < |k.order| && 0 <= j < |k.order|
  {
    if i == j then k
    else
      var a, b := k.order[i], k.order[j];
      assert PointsBack(k.infos, k.order, i) && PointsBack(k.infos, k.order, j);
      k.(infos := k.infos[a := k.infos[a].(pos := j)][b := k.infos[b].(pos := i)], order := k.order[i := b][j := a])
  }

  /** Forgetting an entry: last place of the order, then out of all maps. */
  ghost function Forget(k: Book, id: int): Book
    requires OrderOk(k.infos, k.order) && id in k.infos
  {
    assert Placed(k.infos, k.order, id);
    var s := Swap(k, k.infos[id].pos, |k.order| - 1);
    s.(order := s.order[..|s.order| - 1],
       ids := s.ids - {k.infos[id].address.service.net},
       infos := s.infos - {id},
       newCount := s.newCount - 1)
  }

  /** Taking an id out of one "new" bucket, forgetting the entry with its last reference. */
  ghost function Drop(k: Book, b: int, id: int): Book
    requires OrderOk(k.infos, k.order) && id in k.infos && 0 <= b < |k.newBuckets|
  {
    var e := k.infos[id];
    var s := if e.refCount == 1 then Forget(k, id) else k.(infos := k.infos[id := e.(refCount := e.refCount - 1)]);
    s.(newBuckets := s.newBuckets[b := s.newBuckets[b] - {id}])
  }

  /** Replacing the details of one entry. */
  ghost function Edit(k: Book, id: int, e: Entry): Book { k.(infos := k.infos[id := e]) }

  /** A new entry at the end of the random order, in no bucket yet. */
  ghost function Admit(k: Book, addr: Address, source: NetAddr, penalty: int): Book {
    var e := NewEntry(addr.(time := U32(Max0(addr.time - penalty))), source).(pos := |k.order|);
    k.(nextId := k.nextId + 1,
       infos := k.infos[k.nextId := e],
       ids := k.ids[addr.service.net := k.nextId],
       order := k.order + [k.nextId],
       newCount := k.newCount + 1)
  }

  /** One more reference, ahead of the bucket. */
  ghost function Raise(k: Book, id: int): Book
    requires id in k.infos
  {
    Edit(k, id, k.infos[id].(refCount := k.infos[id].refCount + 1))
  }

  /** The raised entry takes its place in the bucket, from which `dropped` leaves if it was full. */
  ghost function Settle(k: Book, b: int, id: int, dropped: int): Book
    requires OrderOk(k.infos, k.order) && 0 <= b < |k.newBuckets|
  {
    var s := if |k.newBuckets[b]| == NEW_BUCKET_SIZE && dropped in k.infos then Drop(k, b, dropped) else k;
    s.(newBuckets := s.newBuckets[b := s.newBuckets[b] + {id}])
  }

  lemma OrderSwap(k: Book, i: int, j: int)
    requires OrderOk(k.infos, k.order) && 0 <= i < |k.order| && 0 <= j < |k.order|
    ensures OrderOk(Swap(k, i, j).infos, Swap(k, i, j).order) && SameButPos(k.infos, Swap(k, i, j).infos)
  {
    var s := Swap(k, i, j);
    assert PointsBack(k.infos, k.order, i) && PointsBack(k.infos, k.order, j);
    forall n ensures PointsBack(s.infos, s.order, n) { assert PointsBack(k.infos, k.order, n); }
    forall id ensures Placed(s.infos, s.order, id) { assert Placed(k.infos, k.order, id); }
  }

  // ----- consistency of the operations -----

  lemma SwapOk(env: Env, k: Book, i: int, j: int, pending: int)
    requires Ok(env, k, pending) && 0 <= i < |k.order| && 0 <= j < |k.order|
    ensures Ok(env, Swap(k, i, j), pending) && SameButPos(k.infos, Swap(k, i, j).infos)
  {
    var s := Swap(k, i, j);
    OrderSwap(k, i, j);
    PlacesKeep(env, k.key, k.infos, s.infos, k.ids, k.triedBuckets, k.nextId);
    RefsKeep(k.infos, s.infos, k.newBuckets, pending);
  }

  lemma DropRefOk(env: Env, k: Book, b: int, id: int, pending: int)
    requires Ok(env, k, pending) && 0 <= b < |k.newBuckets| && id in k.newBuckets[b] && id != pending
    requires id in k.infos && k.infos[id].refCount != 1
    ensures Ok(env, Drop(k, b, id), pending)
  {
    var d := Drop(k, b, id);
    DropRef(k.infos, k.newBuckets, pending, b, id);
    PosKeep(k.infos, d.infos, k.order);
    PlacesKeep(env, k.key, k.infos, d.infos, k.ids, k.triedBuckets, k.nextId);
  }

  lemma DropLastOk(env: Env, k: Book, b: int, id: int, pending: int)
    requires Ok(env, k, pending) && 0 <= b < |k.newBuckets| && id in k.newBuckets[b] && id != pending
    requires id in k.infos && k.infos[id].refCount == 1 && 0 <= k.infos[id].pos == |k.order| - 1
    ensures Ok(env, Drop(k, b, id), pending)
  {
    OrderPop(k.infos, k.ids, k.order, id);
    DropLast(k.infos, k.newBuckets, pending, b, id);
    ForgetKeeps(env, k.key, k.infos, k.triedBuckets, k.nextId, id);
  }

  /** An entry about to be forgotten may as well be moved to the last place first. */
  lemma DropAfterSwap(k: Book, b: int, id: int)
    requires OrderOk(k.infos, k.order) && id in k.infos && 0 <= b < |k.newBuckets| && k.infos[id].refCount == 1
    ensures 0 <= k.infos[id].pos < |k.order|
    ensures var s := Swap(k, k.infos[id].pos, |k.order| - 1);
      OrderOk(s.infos, s.order) && id in s.infos && s.infos[id] == k.infos[id].(pos := |k.order| - 1) &&
      Drop(s, b, id) == Drop(k, b, id)
  {
    assert Placed(k.infos, k.order, id);
    assert PointsBack(k.infos, k.order, k.infos[id].pos) && PointsBack(k.infos, k.order, |k.order| - 1);
    OrderSwap(k, k.infos[id].pos, |k.order| - 1);
  }

  /** Forgetting does not depend on the reference count of the entry. */
  lemma ForgetAnyRef(k: Book, id: int)
    requires OrderOk(k.infos, k.order) && id in k.infos
    ensures var k' := k.(infos := k.infos[id := k.infos[id].(refCount := k.infos[id].refCount - 1)]);
      OrderOk(k'.infos, k'.order) && Forget(k', id) == Forget(k, id)
  {
    var k' := k.(infos := k.infos[id := k.infos[id].(refCount := k.infos[id].refCount - 1)]);
    PosKeep(k.infos, k'.infos, k.order);
    assert Placed(k.infos, k.order, id);
    assert PointsBack(k.infos, k.order, |k.order| - 1);
  }

  lemma DropOk(env: Env, k: Book, b: int, id: int, pending: int)
    requires Ok(env, k, pending) && 0 <= b < |k.newBuckets| && id in k.newBuckets[b] && id != pending
    ensures id in k.infos && Ok(env, Drop(k, b, id), pending)
  {
    assert NewBucketOk(k.infos, k.newBuckets, b);
    if k.infos[id].refCount == 1 {
      DropAfterSwap(k, b, id);
      SwapOk(env, k, k.infos[id].pos, |k.order| - 1, pending);
      DropLastOk(env, Swap(k, k.infos[id].pos, |k.order| - 1), b, id, pending);
    } else {
      DropRefOk(env, k, b, id, pending);
    }
  }

  lemma EditOk(env: Env, k: Book, id: int, e: Entry)
    requires Ok(env, k, -1) && id in k.infos
    requires e.address.service == k.infos[id].address.service && e.inTried == k.infos[id].inTried
    requires e.pos == k.infos[id].pos && e.refCount == k.infos[id].refCount
    ensures Ok(env, Edit(k, id, e), -1)
  {
    var s := Edit(k, id, e);
    PosKeep(k.infos, s.infos, k.order);
    PlacesKeep(env, k.key, k.infos, s.infos, k.ids, k.triedBuckets, k.nextId);
    RefsKeep(k.infos, s.infos, k.newBuckets, -1);
  }

  lemma RaiseOk(env: Env, k: Book, id: int)
    requires Ok(env, k, -1) && id in k.infos && !k.infos[id].inTried
    requires k.infos[id].refCount < NEW_BUCKETS_PER_ADDRESS
    ensures Ok(env, Raise(k, id), id)
  {
    var s := Raise(k, id);
    Await(k.infos, k.newBuckets, id);
    PosKeep(k.infos, s.infos, k.order);
    PlacesKeep(env, k.key, k.infos, s.infos, k.ids, k.triedBuckets, k.nextId);
  }

  lemma AdmitOk(env: Env, k: Book, addr: Address, source: NetAddr, penalty: int)
    requires Ok(env, k, -1) && addr.service.net !in k.ids
    ensures Ok(env, Raise(Admit(k, addr, source, penalty), k.nextId), k.nextId)
    ensures forall b :: 0 <= b < |k.newBuckets| ==> k.nextId !in k.newBuckets[b]
  {
    var s := Raise(Admit(k, addr, source, penalty), k.nextId);
    var e := s.infos[k.nextId];
    assert s.infos == k.infos[k.nextId := e];
    OrderPush(k.infos, k.ids, k.order, k.nextId, e);
    AwaitFirst(k.infos, k.newBuckets, k.nextId, e);
    NoHome(k.infos, k.newBuckets, k.nextId, -1);
    forall b | 0 <= b < |k.newBuckets| ensures k.nextId !in k.newBuckets[b] {
      assert NewBucketOk(k.infos, k.newBuckets, b);
    }
    AdmitTried(env, k.key, k.infos, k.triedBuckets, k.nextId, e);
  }

  lemma AdmitTried(env: Env, key: seq<int>, m: map<int, Entry>, buckets: seq<seq<int>>, id: int, e: Entry)
    requires TriedOk(env, key, m, buckets) && id !in m && !e.inTried
    ensures TriedOk(env, key, m[id := e], buckets)
  {
    var m' := m[id := e];
    forall b ensures TriedBucketOk(env, key, m', buckets, b) { assert TriedBucketOk(env, key, m, buckets, b); }
    forall x ensures TriedPlaced(env, key, m', buckets, x) { assert TriedPlaced(env, key, m, buckets, x); }
  }

  lemma SettleOk(env: Env, k: Book, b: int, id: int, dropped: int)
    requires Ok(env, k, id) && 0 <= b < |k.newBuckets| && id in k.infos && !k.infos[id].inTried
    requires id !in k.newBuckets[b]
    requires |k.newBuckets[b]| == NEW_BUCKET_SIZE ==> dropped in k.newBuckets[b]
    ensures Ok(env, Settle(k, b, id, dropped), -1)
  {
    assert NewBucketOk(k.infos, k.newBuckets, b);
    if |k.newBuckets[b]| == NEW_BUCKET_SIZE {
      DropOk(env, k, b, dropped, id);
      DropFrame(k, b, dropped);
      PutPending(Drop(k, b, dropped).infos, Drop(k, b, dropped).newBuckets, id, b);
    } else {
      PutPending(k.infos, k.newBuckets, id, b);
    }
  }

  /** What leaving a bucket changes: nothing but that entry, the places in the order, and the bucket. */
  lemma DropFrame(k: Book, b: int, id: int)
    requires OrderOk(k.infos, k.order) && id in k.infos && 0 <= b < |k.newBuckets|
    ensures var d := Drop(k, b, id);
      && SameButPos(DropOne(k.infos, id), d.infos)
      && d.newBuckets == k.newBuckets[b := k.newBuckets[b] - {id}]
      && d.triedBuckets == k.triedBuckets && d.key == k.key && d.nextId == k.nextId
  {
    assert Placed(k.infos, k.order, id) && PointsBack(k.infos, k.order, |k.order| - 1);
    assert PointsBack(k.infos, k.order, k.infos[id].pos);
  }

  // ----- from "new" to "tried" -----

  ghost function Without(buckets: seq<set<int>>, id: int): (r: seq<set<int>>)
    ensures |r| == |buckets| && forall b :: 0 <= b < |buckets| ==> r[b] == buckets[b] - {id}
  {
    seq(|buckets|, b requires 0 <= b < |buckets| => buckets[b] - {id})
  }

  function AsTried(e: Entry): Entry { e.(inTried := true, refCount := 0) }

  function AsNew(e: Entry): Entry { e.(inTried := false, refCount := 1) }

  /** Out of all "new" buckets and not yet tried. */
  ghost function Leave(k: Book, id: int): Book
    requires id in k.infos
  {
    k.(infos := k.infos[id := k.infos[id].(refCount := 0)],
       newBuckets := Without(k.newBuckets, id),
       newCount := k.newCount - 1)
  }

  /** Moving an entry to its tried bucket, which has room. */
  ghost function Graduate(env: Env, k: Book, id: int): Book
    requires id in k.infos && |k.triedBuckets| == TRIED_BUCKET_COUNT
  {
    var t := TriedBucket(env, k.key, k.infos[id].address.service);
    k.(infos := k.infos[id := AsTried(k.infos[id])],
       newBuckets := Without(k.newBuckets, id),
       newCount := k.newCount - 1,
       triedCount := k.triedCount + 1,
       triedBuckets := k.triedBuckets[t := k.triedBuckets[t] + [id]])
  }

  /** Moving an entry to its full tried bucket, shuffled to `bucket`: the entry at `pos` goes
      back to "new" bucket `b`. */
  ghost function Exchange(env: Env, k: Book, id: int, bucket: seq<int>, pos: int, b: int): Book
    requires id in k.infos && |k.triedBuckets| == TRIED_BUCKET_COUNT && 0 <= b < |k.newBuckets|
    requires 0 <= pos < |bucket| && bucket[pos] in k.infos
  {
    var t := TriedBucket(env, k.key, k.infos[id].address.service);
    var nb := Without(k.newBuckets, id);
    k.(infos := k.infos[id := AsTried(k.infos[id])][bucket[pos] := AsNew(k.infos[bucket[pos]])],
       newBuckets := nb[b := nb[b] + {bucket[pos]}],
       triedBuckets := k.triedBuckets[t := bucket[pos := id]])
  }

  // ----- looking for an entry to evict -----

  /** The bucket as shuffled so far, the place of the least recently successful entry looked at, and
      the place it was drawn from. */
  datatype Look = Look(bucket: seq<int>, front: int, pos: int)

  ghost function LastSuccess(m: map<int, Entry>, id: int): int { if id in m then m[id].lastSuccess else 0 }

  /** The i-th look draws place p, which changes hands with place i. */
  ghost function LookNext(m: map<int, Entry>, l: Look, i: int, p: int): (r: Look)
    requires 0 <= i <= p < |l.bucket|
    ensures |r.bucket| == |l.bucket|
  {
    var drawn := l.bucket[p];
    var bucket := l.bucket[p := l.bucket[i]][i := drawn];
    if l.front < 0 || l.front >= |bucket| || LastSuccess(m, drawn) < LastSuccess(m, bucket[l.front])
    then Look(bucket, i, p) else Look(bucket, l.front, l.pos)
  }

  /** The i-th draw is a place from i on. */
  ghost predicate Drawn(draws: seq<int>, size: nat) {
    |draws| <= size && forall i :: 0 <= i < |draws| ==> i <= draws[i] < size
  }

  ghost function Looked(m: map<int, Entry>, bucket: seq<int>, draws: seq<int>): (l: Look)
    requires Drawn(draws, |bucket|)
    ensures |l.bucket| == |bucket|
    decreases |draws|
  {
    if draws == [] then Look(bucket, -1, -1)
    else
      var n := |draws| - 1;
      LookNext(m, Looked(m, bucket, draws[..n]), n, draws[n])
  }

  /** The entry at the front place has the least time of success of those looked at, the first such one;
      the answered place, from which it was drawn, holds it exactly if the draw was its own place. */
  ghost predicate FrontIsOldest(m: map<int, Entry>, l: Look, draws: seq<int>) {
    && 0 <= l.front < |draws| <= |l.bucket| && l.pos == draws[l.front] && l.front <= l.pos < |l.bucket|
    && (forall j :: 0 <= j < |draws| ==> LastSuccess(m, l.bucket[l.front]) <= LastSuccess(m, l.bucket[j]))
    && (forall j :: 0 <= j < l.front ==> LastSuccess(m, l.bucket[l.front]) < LastSuccess(m, l.bucket[j]))
    && (l.bucket[l.pos] == l.bucket[l.front] <==> draws[l.front] == l.front)
  }

  lemma SwapKeeps(s: seq<int>, i: int, p: int)
    requires 0 <= i <= p < |s| && NoDup(s)
    ensures var r := s[p := s[i]][i := s[p]];
      NoDup(r) && multiset(r) == multiset(s) && r[..i] == s[..i] && r[i] == s[p]
  {
    var r := s[p := s[i]][i := s[p]];
    forall a, b | 0 <= a < b < |r| ensures r[a] != r[b] {
      var a' := if a == i then p else if a == p then i else a;
      var b' := if b == i then p else if b == p then i else b;
      assert r[a] == s[a'] && r[b] == s[b'] && a' != b';
    }
  }

  lemma LookStep(m: map<int, Entry>, l: Look, draws: seq<int>, i: int, p: int)
    requires 0 <= i == |draws| <= p < |l.bucket| && NoDup(l.bucket)
    requires if draws == [] then l.front == l.pos == -1 else FrontIsOldest(m, l, draws)
    ensures FrontIsOldest(m, LookNext(m, l, i, p), draws + [p])
  {
    SwapKeeps(l.bucket, i, p);
    var r := LookNext(m, l, i, p);
    assert forall j :: 0 <= j < i ==> r.bucket[j] == r.bucket[..i][j] == l.bucket[..i][j] == l.bucket[j];
  }

  /** What looking finds, for any draws. */
  lemma {:induction false} LookFinds(m: map<int, Entry>, bucket: seq<int>, draws: seq<int>)
    requires Drawn(draws, |bucket|) && NoDup(bucket)
    ensures Found(m, bucket, Looked(m, bucket, draws), draws)
    decreases |draws|
  {
    if draws != [] {
      var n := |draws| - 1;
      LookFinds(m, bucket, draws[..n]);
      FoundMore(m, bucket, Looked(m, bucket, draws[..n]), draws[..n], draws[n]);
      assert draws[..n] + [draws[n]] == draws;
    }
  }

  /** The bucket is permuted, and the front is the oldest of those looked at. */
  ghost predicate Found(m: map<int, Entry>, bucket: seq<int>, l: Look, draws: seq<int>) {
    && NoDup(l.bucket) && multiset(l.bucket) == multiset(bucket)
    && if draws == [] then l.front == l.pos == -1 else FrontIsOldest(m, l, draws)
  }

  lemma FoundMore(m: map<int, Entry>, bucket: seq<int>, l: Look, draws: seq<int>, p: int)
    requires Found(m, bucket, l, draws) && |draws| <= p < |l.bucket|
    ensures Found(m, bucket, LookNext(m, l, |draws|, p), draws + [p])
  {
    SwapKeeps(l.bucket, |draws|, p);
    LookStep(m, l, draws, |draws|, p);
  }

  /** The variables of the loop that looks. */
  ghost predicate Looking(m: map<int, Entry>, whole: seq<int>, draws: seq<int>, l: Look, oldest: int) {
    && Drawn(draws, |whole|) && Looked(m, whole, draws) == l
    && if draws == [] then oldest == l.front == -1
       else 0 <= l.front < |l.bucket| && oldest == l.bucket[l.front] && oldest in m
  }

  lemma LookingOn(m: map<int, Entry>, whole: seq<int>, draws: seq<int>, l: Look, oldest: int, p: int)
    requires Looking(m, whole, draws, l, oldest) && -1 !in m && |draws| <= p < |l.bucket|
    requires NoDup(l.bucket) && l.bucket[p] in m && l.front < |draws|
    ensures var drawn := l.bucket[p];
      Looking(m, whole, draws + [p], LookNext(m, l, |draws|, p),
        if oldest == -1 || m[drawn].lastSuccess < m[oldest].lastSuccess then drawn else oldest)
  {
    LookMore(m, whole, draws, p);
  }

  lemma {:induction false} LookSame(m: map<int, Entry>, m': map<int, Entry>, bucket: seq<int>, draws: seq<int>)
    requires Drawn(draws, |bucket|) && forall x :: LastSuccess(m, x) == LastSuccess(m', x)
    ensures Looked(m, bucket, draws) == Looked(m', bucket, draws)
    decreases |draws|
  {
    if draws != [] { LookSame(m, m', bucket, draws[..|draws| - 1]); }
  }

  lemma LookMore(m: map<int, Entry>, bucket: seq<int>, draws: seq<int>, p: int)
    requires Drawn(draws, |bucket|) && |draws| < |bucket| && |draws| <= p < |bucket|
    ensures Drawn(draws + [p], |bucket|)
    ensures Looked(m, bucket, draws + [p]) == LookNext(m, Looked(m, bucket, draws), |draws|, p)
  {
    assert (draws + [p])[..|draws|] == draws;
  }

  lemma FrontSame(m: map<int, Entry>, m': map<int, Entry>, l: Look, draws: seq<int>)
    requires FrontIsOldest(m, l, draws) && forall x :: LastSuccess(m, x) == LastSuccess(m', x)
    ensures FrontIsOldest(m', l, draws)
  {
  }

  /** The answered place need not hold the oldest entry: of two, the older one is drawn first and from
      the second place, where the other one then is. */
  lemma AnswerMayBeTheOther(m: map<int, Entry>, x: int, y: int)
    requires x != y && LastSuccess(m, y) < LastSuccess(m, x)
    ensures Drawn([1, 1], 2) && Looked(m, [x, y], [1, 1]) == Look([y, x], 0, 1)
  {
    var draws := [1, 1];
    assert draws[..1] == [1] && [1][..0] == [];
    assert Looked(m, [x, y], []) == Look([x, y], -1, -1);
    assert Looked(m, [x, y], [1]) == Look([y, x], 0, 1) by { assert [x, y][1 := x][0 := y] == [y, x]; }
    assert [y, x][1 := x][1 := x] == [y, x];
  }

  /** What moving an entry to "tried" does: it simply joins its bucket, or takes the answered place of
      the bucket shuffled by four looks, whose entry goes to its own "new" bucket if that has room and
      to the bucket the promoted entry came from otherwise. */
  ghost predicate Promotes(env: Env, k: Book, k': Book, id: int, origin: int, draws: seq<int>)
    requires id in k.infos && |k.triedBuckets| == TRIED_BUCKET_COUNT
  {
    var full := k.triedBuckets[TriedBucket(env, k.key, k.infos[id].address.service)];
    if |full| < TRIED_BUCKET_SIZE then k' == Graduate(env, k, id)
    else
      && |draws| == TRIED_ENTRIES_INSPECT_ON_EVICT && Drawn(draws, |full|)
      && var l := Looked(k.infos, full, draws);
      && FrontIsOldest(k.infos, l, draws)
      && l.bucket[l.pos] in k.infos && k.infos[l.bucket[l.pos]].inTried
      && var b := EvictionBucket(env, k, id, l.bucket[l.pos], origin);
      && 0 <= b < |k.newBuckets|
      && k' == Exchange(env, k, id, l.bucket, l.pos, b)
  }

  /** Putting an entry at place p of its full tried bucket, and the one there back in "new". */
  ghost function Evicted(env: Env, k: Book, id: int, origin: int, t: int, p: int): Book
    requires id in k.infos && 0 <= t < |k.triedBuckets| && 0 <= p < |k.triedBuckets[t]|
    requires k.triedBuckets[t][p] in k.infos && |k.newBuckets| == NEW_BUCKET_COUNT && 0 <= origin < NEW_BUCKET_COUNT
  {
    var out := k.triedBuckets[t][p];
    var home := NewBucket(env, k.key, k.infos[out].address.service, k.infos[out].source);
    var b := if |k.newBuckets[home]| < NEW_BUCKET_SIZE then home else origin;
    k.(infos := k.infos[id := k.infos[id].(inTried := true)][out := AsNew(k.infos[out])],
       newBuckets := k.newBuckets[b := k.newBuckets[b] + {out}],
       triedBuckets := k.triedBuckets[t := k.triedBuckets[t][p := id]],
       newCount := k.newCount + 1)
  }

  /** Leaving "new", shuffling and evicting is the exchange. */
  lemma EvictedIs(env: Env, k: Book, s: Book, id: int, origin: int, bucket: seq<int>, pos: int)
    requires Ok(env, k, -1) && id in k.infos && !k.infos[id].inTried && 0 <= origin < NEW_BUCKET_COUNT
    requires 0 <= pos < |bucket| && bucket[pos] in k.infos && bucket[pos] != id
    requires s == Leave(k, id).(triedBuckets := s.triedBuckets)
    requires s.triedBuckets == k.triedBuckets[TriedBucket(env, k.key, k.infos[id].address.service) := bucket]
    ensures var t := TriedBucket(env, k.key, k.infos[id].address.service);
      var b := EvictionBucket(env, k, id, bucket[pos], origin);
      && 0 <= b < |k.newBuckets| && s.triedBuckets[t] == bucket
      && Evicted(env, s, id, origin, t, pos) == Exchange(env, k, id, bucket, pos, b)
  {
    var t := TriedBucket(env, k.key, k.infos[id].address.service);
    var b := EvictionBucket(env, k, id, bucket[pos], origin);
    var e, x := Evicted(env, s, id, origin, t, pos), Exchange(env, k, id, bucket, pos, b);
    assert e.triedBuckets == x.triedBuckets;
    assert e.newBuckets == x.newBuckets;
    assert e.infos == x.infos;
  }

  lemma LeaveLooksSame(k: Book, id: int, bucket: seq<int>, draws: seq<int>)
    requires id in k.infos && Drawn(draws, |bucket|)
    ensures Looked(Leave(k, id).infos, bucket, draws) == Looked(k.infos, bucket, draws)
  {
    LookSame(Leave(k, id).infos, k.infos, bucket, draws);
  }

  /** The position chosen in the shuffled bucket holds a tried entry, and its target has room. */
  lemma EvictionTarget(env: Env, k: Book, id: int, origin: int, bucket: seq<int>, pos: int) returns (b: int)
    requires Ok(env, k, -1) && id in k.infos && !k.infos[id].inTried
    requires 0 <= origin < NEW_BUCKET_COUNT && id in k.newBuckets[origin] && 0 <= pos < |bucket|
    requires var t := TriedBucket(env, k.key, k.infos[id].address.service);
      multiset(bucket) == multiset(k.triedBuckets[t])
    ensures bucket[pos] in k.infos && k.infos[bucket[pos]].inTried && bucket[pos] != id
    ensures b == EvictionBucket(env, k, id, bucket[pos], origin) && 0 <= b < |k.newBuckets|
    ensures |Without(k.newBuckets, id)[b]| < NEW_BUCKET_SIZE
  {
    var t := TriedBucket(env, k.key, k.infos[id].address.service);
    assert bucket[pos] in multiset(bucket);
    assert bucket[pos] in k.triedBuckets[t];
    assert TriedBucketOk(env, k.key, k.infos, k.triedBuckets, t);
    assert NewBucketOk(k.infos, k.newBuckets, origin);
    b := EvictionBucket(env, k, id, bucket[pos], origin);
  }

  /** The "new" bucket an evicted entry goes to. */
  ghost function EvictionBucket(env: Env, k: Book, id: int, evicted: int, origin: int): int
    requires evicted in k.infos
  {
    var e := k.infos[evicted];
    var home := NewBucket(env, k.key, e.address.service, e.source);
    if home < |k.newBuckets| && |Without(k.newBuckets, id)[home]| < NEW_BUCKET_SIZE then home else origin
  }

  lemma GraduateOk(env: Env, k: Book, id: int)
    requires Ok(env, k, -1) && id in k.infos && !k.infos[id].inTried
    requires |k.triedBuckets[TriedBucket(env, k.key, k.infos[id].address.service)]| < TRIED_BUCKET_SIZE
    ensures Ok(env, Graduate(env, k, id), -1)
  {
    var s := Graduate(env, k, id);
    Promote(k.infos, k.newBuckets, s.newBuckets, id, s.infos[id]);
    TriedPush(env, k.key, k.infos, k.triedBuckets, id, s.infos[id]);
    PosKeep(k.infos, s.infos, k.order);
    MovedIndex(k.infos, s.infos, k.ids);
  }

  lemma MovedIndex(m: map<int, Entry>, m': map<int, Entry>, ids: map<NetAddr, int>)
    requires IndexOk(m, ids) && (forall id :: id in m <==> id in m')
    requires forall id :: id in m ==> m'[id].address.service == m[id].address.service
    ensures IndexOk(m', ids)
  {
    forall a ensures Names(m', ids, a) { assert Names(m, ids, a); }
    forall id ensures Indexed(m', ids, id) { assert Indexed(m, ids, id); }
  }

  lemma ExchangeOk(env: Env, k: Book, id: int, bucket: seq<int>, pos: int, b: int)
    requires Ok(env, k, -1) && id in k.infos && !k.infos[id].inTried && 0 <= pos < |bucket|
    requires var t := TriedBucket(env, k.key, k.infos[id].address.service);
      TriedOk(env, k.key, k.infos, k.triedBuckets[t := bucket])
    requires 0 <= b < |k.newBuckets| && |Without(k.newBuckets, id)[b]| < NEW_BUCKET_SIZE
    ensures bucket[pos] in k.infos && k.infos[bucket[pos]].inTried && Ok(env, Exchange(env, k, id, bucket, pos, b), -1)
  {
    var t := TriedBucket(env, k.key, k.infos[id].address.service);
    var tried := k.triedBuckets[t := bucket];
    var out := bucket[pos];
    var e, nb := AsTried(k.infos[id]), Without(k.newBuckets, id);
    assert out in tried[t] && TriedBucketOk(env, k.key, k.infos, tried, t);
    TriedReplace(env, k.key, k.infos, tried, id, e, pos, AsNew(k.infos[out]));
    Promote(k.infos, k.newBuckets, nb, id, e);
    Demote(k.infos[id := e], nb, out, b, AsNew(k.infos[out]));
    var s := Exchange(env, k, id, bucket, pos, b);
    assert tried[t := bucket[pos := id]] == s.triedBuckets;
    TwoMoved(k, id, out, e, AsNew(k.infos[out]));
  }

  /** Moving two entries between tables leaves ids, index and order alone. */
  lemma TwoMoved(k: Book, id: int, out: int, e: Entry, e': Entry)
    requires id in k.infos && out in k.infos && id != out
    requires IdsOk(k.infos, k.nextId) && IndexOk(k.infos, k.ids) && OrderOk(k.infos, k.order)
    requires e.address == k.infos[id].address && e.pos == k.infos[id].pos
    requires e'.address == k.infos[out].address && e'.pos == k.infos[out].pos
    ensures var m := k.infos[id := e][out := e'];
      IdsOk(m, k.nextId) && IndexOk(m, k.ids) && OrderOk(m, k.order)
  {
    var m := k.infos[id := e][out := e'];
    PosKeep(k.infos, m, k.order);
    MovedIndex(k.infos, m, k.ids);
  }

  // ----- announcing an address -----

  /** Who leaves a full "new" bucket: the first terrible entry or, if there is none, the least recently
      seen of four picked ones. */
  ghost predicate Leaves(m: map<int, Entry>, bucket: set<int>, now: int, out: int) {
    && out in bucket && out in m
    && if IsTerrible(m[out], now)
       then forall x :: x in bucket && x in m && x < out ==> !IsTerrible(m[x], now)
       else (forall x :: x in bucket && x in m ==> !IsTerrible(m[x], now)) &&
            exists picks :: |picks| == 4 && OldestPick(m, bucket, picks, out)
  }

  /** In terms of the entries: one tried within the last minute leaves only as the oldest of four picks; if
      any other is unseen or failing, the one that leaves is such a one, and the first. */
  ghost predicate LeavesFairly(m: map<int, Entry>, bucket: set<int>, now: int, out: int) {
    && out in bucket && out in m
    && (TriedLately(m[out], now) ==> exists picks :: |picks| == 4 && OldestPick(m, bucket, picks, out))
    && (forall x :: x in bucket && x in m && !TriedLately(m[x], now) && (Unseen(m[x], now) || Failing(m[x], now)) ==>
          out <= x && !TriedLately(m[out], now) && (Unseen(m[out], now) || Failing(m[out], now)))
    && (!Unseen(m[out], now) && !Failing(m[out], now) ==>
          exists picks :: |picks| == 4 && OldestPick(m, bucket, picks, out))
  }

  lemma LeavesMeans(m: map<int, Entry>, bucket: set<int>, now: int, out: int)
    requires Leaves(m, bucket, now, out)
    ensures LeavesFairly(m, bucket, now, out)
  {
    TerribleIff(m[out], now);
    forall x | x in bucket && x in m && !TriedLately(m[x], now) && (Unseen(m[x], now) || Failing(m[x], now))
      ensures out <= x && !TriedLately(m[out], now) && (Unseen(m[out], now) || Failing(m[out], now))
    {
      TerribleIff(m[x], now);
    }
  }

  /** Bucket b is full, and the entry leaves it by that rule. */
  ghost predicate MakesRoom(k: Book, b: int, now: int, out: int) {
    && 0 <= b < |k.newBuckets| && |k.newBuckets[b]| == NEW_BUCKET_SIZE
    && Leaves(k.infos, k.newBuckets[b], now, out) && LeavesFairly(k.infos, k.newBuckets[b], now, out)
  }

  lemma RoomMade(env: Env, k: Book, m: map<int, Entry>, id: int, b: int, now: int, out: int)
    requires Ok(env, k, -1) && 0 <= b < |k.newBuckets| && id !in k.newBuckets[b]
    requires id in m && m == k.infos[id := m[id]]
    requires if |k.newBuckets[b]| < NEW_BUCKET_SIZE then out == -1 else Leaves(m, k.newBuckets[b], now, out)
    ensures out != -1 ==> MakesRoom(k, b, now, out)
  {
    assert NewBucketOk(k.infos, k.newBuckets, b);
    if out != -1 {
      LeavesSame(m, k.infos, k.newBuckets[b], k.newBuckets[b], now, out);
      LeavesMeans(k.infos, k.newBuckets[b], now, out);
    }
  }

  lemma LeavesSame(m: map<int, Entry>, m': map<int, Entry>, bucket: set<int>, bucket': set<int>, now: int, out: int)
    requires Leaves(m, bucket, now, out) && (forall x :: x in bucket <==> x in bucket')
    requires forall x :: x in bucket ==> (x in m <==> x in m') && (x in m && x in m' ==> m[x] == m'[x])
    ensures Leaves(m', bucket', now, out)
  {
    if !IsTerrible(m[out], now) {
      var picks :| |picks| == 4 && OldestPick(m, bucket, picks, out);
      assert OldestPick(m', bucket', picks, out);
    }
  }

  /** Raising another entry's count changes nothing for a bucket. */
  lemma LeavesRaised(k: Book, id: int, bucket: set<int>, now: int, out: int)
    requires id in k.infos && id !in bucket && Leaves(Raise(k, id).infos, bucket, now, out)
    ensures Leaves(k.infos, bucket, now, out)
  {
    LeavesSame(Raise(k, id).infos, k.infos, bucket, bucket, now, out);
  }

  ghost predicate OldestPick(m: map<int, Entry>, bucket: set<int>, picks: seq<int>, out: int) {
    && out in picks && out in m
    && forall x :: x in picks ==> x in bucket && x in m && m[out].address.time <= m[x].address.time
  }

  /** A known entry gains nothing from this announcement. */
  predicate Declines(e: Entry, addr: Address) {
    || addr.time == 0
    || (e.address.time != 0 && addr.time <= e.address.time)
    || e.inTried
    || e.refCount == NEW_BUCKETS_PER_ADDRESS
  }

  /** The state after announcing `addr`: `lucky` is the outcome of the stochastic test for a known
      entry, `dropped` the entry that leaves a full bucket. */
  ghost function Announce(env: Env, k: Book, addr: Address, source: NetAddr, penalty: int, now: int,
                          lucky: bool, dropped: int): Book
    requires Ok(env, k, -1)
  {
    var net := addr.service.net;
    if !env.routable(net) then k
    else if net in k.ids then
      assert Names(k.infos, k.ids, net);
      var id := k.ids[net];
      var r := Edit(k, id, Refreshed(k.infos[id], addr, penalty, now));
      var b := NewBucket(env, k.key, r.infos[id].address.service, source);
      if Declines(r.infos[id], addr) || !lucky || id in r.newBuckets[b] then r
      else
        EditOk(env, k, id, r.infos[id]);
        assert RefOk(r.infos, r.newBuckets, id, -1);
        RaiseOk(env, r, id);
        Settle(Raise(r, id), b, id, dropped)
    else
      AdmitOk(env, k, addr, source, penalty);
      var b := NewBucket(env, k.key, addr.service, source);
      Settle(Raise(Admit(k, addr, source, penalty), k.nextId), b, k.nextId, dropped)
  }

  /** What announcing a known address does: if it brings nothing new, or the entry is tried, has four
      references or is not lucky, only its time and services may change; else it is in the bucket its
      address and the source select. */
  lemma AnnounceKnown(env: Env, k: Book, addr: Address, source: NetAddr, penalty: int, now: int, lucky: bool,
                      dropped: int)
    requires Ok(env, k, -1) && env.routable(addr.service.net) && addr.service.net in k.ids
    ensures k.ids[addr.service.net] in k.infos
    ensures var k', id := Announce(env, k, addr, source, penalty, now, lucky, dropped), k.ids[addr.service.net];
      var e := Refreshed(k.infos[id], addr, penalty, now);
      var newer := addr.time != 0 && (e.address.time == 0 || addr.time > e.address.time);
      if newer && !e.inTried && e.refCount != 4 && lucky
      then id in k'.newBuckets[NewBucket(env, k.key, addr.service, source)]
      else k' == k.(infos := k.infos[id := e])
  {
    assert Names(k.infos, k.ids, addr.service.net);
  }

  /** What announcing an unknown one does: a new entry with these details, in the bucket selected. */
  lemma AnnounceNew(env: Env, k: Book, addr: Address, source: NetAddr, penalty: int, now: int, lucky: bool,
                    dropped: int)
    requires Ok(env, k, -1) && env.routable(addr.service.net) && addr.service.net !in k.ids && dropped != k.nextId
    ensures var k' := Announce(env, k, addr, source, penalty, now, lucky, dropped);
      && k.nextId !in k.infos && k.nextId in k'.infos && k'.nextId == k.nextId + 1
      && k'.infos[k.nextId] == Entry(
           addr.(time := (if addr.time < penalty then 0 else addr.time - penalty) % 0x1_0000_0000), source,
           0, 0, 0, 1, false, k'.infos[k.nextId].pos)
      && k.nextId in k'.newBuckets[NewBucket(env, k.key, addr.service, source)]
  {
    AdmitOk(env, k, addr, source, penalty);
    var s := Raise(Admit(k, addr, source, penalty), k.nextId);
    var b := NewBucket(env, k.key, addr.service, source);
    if |s.newBuckets[b]| == NEW_BUCKET_SIZE && dropped in s.infos { DropFrame(s, b, dropped); }
  }

  /** What promoting an entry does: it is tried and in the bucket its key selects; from a full bucket one
      returns to "new" with one reference, to the bucket its own address and source select if that has
      room once the promoted one has left, and to the bucket the promoted one was found in otherwise. */
  lemma PromotedMeans(env: Env, k: Book, k': Book, id: int, origin: int, draws: seq<int>)
    requires Ok(env, k, -1) && id in k.infos && !k.infos[id].inTried && 0 <= origin < NEW_BUCKET_COUNT
    requires Promotes(env, k, k', id, origin, draws)
    ensures var t := TriedBucket(env, k.key, k.infos[id].address.service);
      && id in k'.infos && k'.infos[id] == k.infos[id].(inTried := true, refCount := 0)
      && |k'.triedBuckets| == 64 && id in k'.triedBuckets[t]
      && |k'.newBuckets| == 256 && (forall b :: 0 <= b < 256 ==> id !in k'.newBuckets[b])
      && if |k.triedBuckets[t]| < 64 then k'.triedCount == k.triedCount + 1 && k'.newCount == k.newCount - 1
         else
           && k'.triedCount == k.triedCount && k'.newCount == k.newCount
           && |draws| == 4 && Drawn(draws, |k.triedBuckets[t]|)
           && var l := Looked(k.infos, k.triedBuckets[t], draws);
           && 0 <= l.pos < |l.bucket| && l.bucket[l.pos] in k.infos
           && var out := l.bucket[l.pos];
           var e := k.infos[out];
           var home := NewBucket(env, k.key, e.address.service, e.source);
           && out in k'.infos && k'.infos[out] == e.(inTried := false, refCount := 1)
           && (|k.newBuckets[home] - {id}| < 64 ==> out in k'.newBuckets[home])
           && (|k.newBuckets[home] - {id}| >= 64 ==> out in k'.newBuckets[origin])
  {
    var t := TriedBucket(env, k.key, k.infos[id].address.service);
    if |k.triedBuckets[t]| >= TRIED_BUCKET_SIZE {
      var l := Looked(k.infos, k.triedBuckets[t], draws);
      var out := l.bucket[l.pos];
      assert k'.triedBuckets[t][l.pos] == id;
      assert Without(k.newBuckets, id)[NewBucket(env, k.key, k.infos[out].address.service, k.infos[out].source)] ==
        k.newBuckets[NewBucket(env, k.key, k.infos[out].address.service, k.infos[out].source)] - {id};
    }
  }

  lemma LeaveKeepsTried(env: Env, k: Book, id: int)
    requires Ok(env, k, -1) && id in k.infos
    ensures TriedOk(env, k.key, Leave(k, id).infos, k.triedBuckets)
  {
    PlacesKeep(env, k.key, k.infos, Leave(k, id).infos, k.ids, k.triedBuckets, k.nextId);
  }

  /** Once the bucket is shuffled, the exchange is determined and consistent. */
  lemma ExchangeReady(env: Env, k: Book, id: int, origin: int, bucket: seq<int>, pos: int) returns (b: int)
    requires Ok(env, k, -1) && id in k.infos && !k.infos[id].inTried
    requires 0 <= origin < NEW_BUCKET_COUNT && id in k.newBuckets[origin] && 0 <= pos < |bucket|
    requires var t := TriedBucket(env, k.key, k.infos[id].address.service);
      && multiset(bucket) == multiset(k.triedBuckets[t])
      && TriedOk(env, k.key, Leave(k, id).infos, k.triedBuckets[t := bucket])
    ensures bucket[pos] in k.infos && k.infos[bucket[pos]].inTried && bucket[pos] != id
    ensures b == EvictionBucket(env, k, id, bucket[pos], origin) && 0 <= b < |k.newBuckets|
    ensures Ok(env, Exchange(env, k, id, bucket, pos, b), -1)
    ensures var m := Leave(k, id).infos;
      m[id := m[id].(inTried := true)][bucket[pos] := AsNew(m[bucket[pos]])] ==
      Exchange(env, k, id, bucket, pos, b).infos
  {
    var t := TriedBucket(env, k.key, k.infos[id].address.service);
    b := EvictionTarget(env, k, id, origin, bucket, pos);
    PlacesKeep(env, k.key, Leave(k, id).infos, k.infos, k.ids, k.triedBuckets[t := bucket], k.nextId);
    ExchangeOk(env, k, id, bucket, pos, b);
  }

  /** Different places of the order hold different addresses. */
  lemma OrderDistinct(env: Env, k: Book, i: int, j: int)
    requires Ok(env, k, -1) && 0 <= i < j < |k.order|
    ensures k.order[i] in k.infos && k.order[j] in k.infos
    ensures k.infos[k.order[i]].address.service.net != k.infos[k.order[j]].address.service.net
  {
    assert PointsBack(k.infos, k.order, i) && PointsBack(k.infos, k.order, j);
    assert Indexed(k.infos, k.ids, k.order[i]) && Indexed(k.infos, k.ids, k.order[j]);
  }

  lemma ListedDistinct(env: Env, k: Book, addrs: seq<Address>)
    requires Ok(env, k, -1) && |addrs| <= |k.order| && Lists(k.infos, k.order[..|addrs|], addrs)
    ensures forall i :: 0 <= i < |addrs| ==> k.order[i] in k.infos && addrs[i] == k.infos[k.order[i]].address
    ensures forall i, j :: 0 <= i < j < |addrs| ==> addrs[i].service.net != addrs[j].service.net
  {
    var list := k.order[..|addrs|];
    forall i | 0 <= i < |addrs| ensures k.order[i] in k.infos && addrs[i] == k.infos[k.order[i]].address {
      assert list[i] == k.order[i];
    }
    forall i, j | 0 <= i < j < |addrs| ensures addrs[i].service.net != addrs[j].service.net {
      OrderDistinct(env, k, i, j);
    }
  }

  /** The addresses of a list of entries, in order. */
  ghost predicate Lists(m: map<int, Entry>, list: seq<int>, addrs: seq<Address>) {
    |list| == |addrs| && forall i :: 0 <= i < |list| ==> list[i] in m && addrs[i] == m[list[i]].address
  }

  /** The order is permuted and its first entries are listed, all as in an earlier state. */
  ghost predicate Picked(m0: map<int, Entry>, order0: seq<int>, m: map<int, Entry>, order: seq<int>,
                         addrs: seq<Address>,
                         n: int) {
    && SameButPos(m0, m) && |order| == |order0| && multiset(order) == multiset(order0)
    && 0 <= n == |addrs| <= |order| && Lists(m, order[..n], addrs)
  }

  lemma PickedMore(m0: map<int, Entry>, order0: seq<int>, m: map<int, Entry>, order: seq<int>, addrs: seq<Address>,
                   n: int,
                   m': map<int, Entry>, order': seq<int>)
    requires Picked(m0, order0, m, order, addrs, n) && SameButPos(m, m') && n < |order'|
    requires |order'| == |order| && multiset(order') == multiset(order) && order'[..n] == order[..n] && order'[n] in m'
    ensures Picked(m0, order0, m', order', addrs + [m'[order'[n]].address], n + 1)
  {
    SameTrans(m0, m, m');
    assert order'[..n + 1] == order[..n] + [order'[n]];
    ListsMore(m, m', order[..n], addrs, order'[n]);
  }

  lemma ListsMore(m: map<int, Entry>, m': map<int, Entry>, list: seq<int>, addrs: seq<Address>, id: int)
    requires Lists(m, list, addrs) && SameButPos(m, m') && id in m'
    ensures Lists(m', list + [id], addrs + [m'[id].address])
  {
    forall i | 0 <= i < |list| ensures list[i] in m' && addrs[i] == m'[list[i]].address {
      var x := list[i];
      assert x in m && x in m';
    }
  }

  lemma SameRefl(m: map<int, Entry>)
    ensures SameButPos(m, m)
  {
    assert forall id :: id in m ==> m[id] == m[id].(pos := m[id].pos);
  }

  lemma SameTrans(a: map<int, Entry>, b: map<int, Entry>, c: map<int, Entry>)
    requires SameButPos(a, b) && SameButPos(b, c)
    ensures SameButPos(a, c)
  {
  }
}
