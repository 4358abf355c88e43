/** Which pools can make block assembly meet a pointer to a removed orphan. */
module CutShort {
  import opened AssemblyQueue
  import opened BlockAssembly
  import Sets

  /** No block transaction has a list that names a removed orphan. */
  ghost predicate Untouched(pool: Pool, block: seq<TxId>) {
    forall h, o {:trigger h in Left(pool, o)} :: h in Left(pool, o) ==> h !in block
  }

  lemma UntouchedMore(pool: Pool, block: seq<TxId>, h: TxId)
    requires Untouched(pool, block)
    ensures Untouched(pool, block + [h]) <==> forall o :: h !in Left(pool, o)
  {
    if Untouched(pool, block + [h]) {
      forall o ensures h !in Left(pool, o) { assert h in block + [h]; }
    }
  }

  lemma SafeIsUntouched(pool: Pool, block: seq<TxId>)
    requires forall id :: id in pool && !pool[id].excluded ==> Safe(pool, pool[id].inputs)
    ensures Untouched(pool, block)
  {
    forall o ensures Left(pool, o) == {} {
      if o in pool && !pool[o].excluded { LeftIffUnsafe(pool, o); }
    }
  }

  /** Some transactions can stand in a block together, and the list of one of them names a removed
      orphan. */
  ghost predicate CanBeCut(pool: Pool) {
    exists list :: InOrder(pool, list) && Fits(pool, list) && !Untouched(pool, list)
  }

  /** The transactions stay below the largest limits. */
  predicate Fits(pool: Pool, list: seq<TxId>) {
    && 1000 + Sum(id => SizeAt(pool, id), list) < MAX_BLOCK_SIZE - 1000
    && 100 + Sum(id => SigopsAt(pool, id), list) < MAX_BLOCK_SIGOPS
  }

  /** Some run under these options and outcomes has a block that touches a removed orphan. */
  ghost predicate CutIn(env: Env, pool: Pool) {
    exists trace :: Schedule(env, pool, trace) && !Untouched(pool, BlockOf(trace))
  }

  /** Every finished run has. */
  ghost predicate AlwaysCut(env: Env, pool: Pool) {
    forall trace :: Schedule(env, pool, trace) && Exhausted(pool, trace) ==> !Untouched(pool, BlockOf(trace))
  }

  // ----- sums -----

  function Sum(w: TxId -> nat, s: seq<TxId>): nat {
    if s == [] then 0 else Sum(w, s[..|s| - 1]) + w(s[|s| - 1])
  }

  lemma {:induction false} SumAppend(w: TxId -> nat, a: seq<TxId>, b: seq<TxId>)
    ensures Sum(w, a + b) == Sum(w, a) + Sum(w, b)
  {
    if b == [] {
      assert a + b == a;
    } else {
      assert (a + b)[..|a + b| - 1] == a + b[..|b| - 1];
      SumAppend(w, a, b[..|b| - 1]);
    }
  }

  ghost predicate Distinct(s: seq<TxId>) { forall i, j :: 0 <= i < j < |s| ==> s[i] != s[j] }

  /** Different members of a list add up to no more than the list. */
  lemma {:induction false} SumWithin(w: TxId -> nat, part: seq<TxId>, list: seq<TxId>)
    requires Distinct(part) && Elems(part) <= Elems(list)
    ensures Sum(w, part) <= Sum(w, list)
  {
    if list == [] {
      assert forall i :: 0 <= i < |part| ==> part[i] in Elems(part);
    } else {
      var init, x := list[..|list| - 1], list[|list| - 1];
      if x in part {
        var i :| 0 <= i < |part| && part[i] == x;
        var a, b := part[..i], part[i + 1..];
        WithoutOne(part, i, init, list);
        SumWithin(w, a + b, init);
        assert part == a + ([x] + b);
        SumAppend(w, a, b);
        SumAppend(w, a, [x] + b);
        SumAppend(w, [x], b);
        assert [x][..0] == [];
      } else {
        WithoutLast(part, init, list);
        SumWithin(w, part, init);
      }
    }
  }

  lemma WithoutOne(part: seq<TxId>, i: nat, init: seq<TxId>, list: seq<TxId>)
    requires Distinct(part) && Elems(part) <= Elems(list) && i < |part| && list == init + [part[i]]
    ensures Distinct(part[..i] + part[i + 1..]) && Elems(part[..i] + part[i + 1..]) <= Elems(init)
  {
    var rest := part[..i] + part[i + 1..];
    forall k | 0 <= k < |rest| ensures rest[k] in init {
      var j := if k < i then k else k + 1;
      assert rest[k] == part[j] && part[j] in Elems(part);
      assert part[j] in list && part[j] != part[i];
    }
  }

  lemma WithoutLast(part: seq<TxId>, init: seq<TxId>, list: seq<TxId>)
    requires list != [] && init == list[..|list| - 1] && list[|list| - 1] !in part && Elems(part) <= Elems(list)
    ensures Elems(part) <= Elems(init)
  {
    forall x | x in Elems(part) ensures x in init {
      assert x in Elems(list);
      var j :| 0 <= j < |list| && list[j] == x;
      assert init[j] == x;
    }
  }

  lemma {:induction false} SizeIsSum(pool: Pool, block: seq<TxId>)
    ensures SizeOf(pool, block) == 1000 + Sum(id => SizeAt(pool, id), block)
  {
    if block != [] { SizeIsSum(pool, block[..|block| - 1]); }
  }

  lemma {:induction false} SigopsAreSum(env: Env, pool: Pool, block: seq<TxId>)
    ensures SigopsOf(env, pool, block) >= 100 + Sum(id => SigopsAt(pool, id), block)
    ensures (forall b, id :: env.connect(b, id).p2shSigops == 0) ==>
      SigopsOf(env, pool, block) == 100 + Sum(id => SigopsAt(pool, id), block)
  {
    if block != [] { SigopsAreSum(env, pool, block[..|block| - 1]); }
  }

  // ----- a pool that can be cut is cut under some options -----

  /** The latest of the transactions' times. */
  function Latest(pool: Pool, list: seq<TxId>): (t: int)
    ensures forall id :: id in list && id in pool ==> pool[id].time <= t
  {
    if list == [] then 0
    else
      var t, id := Latest(pool, list[..|list| - 1]), list[|list| - 1];
      assert list == list[..|list| - 1] + [id];
      if id in pool && pool[id].time > t then pool[id].time else t
  }

  /** The largest limits, a late clock, and exactly the listed transactions connect, for free. */
  function Generous(pool: Pool, list: seq<TxId>): Env {
    Env(MAX_BLOCK_SIZE, 0, MAX_BLOCK_SIZE, 0, Latest(pool, list), false, 0,
      (block: seq<TxId>, id: TxId) => Outcome(id in list, 0, 0, id in list), (id: TxId, size: nat) => 0)
  }

  /** Then any of them is admissible after any others of them. */
  lemma ListedAdmissible(pool: Pool, list: seq<TxId>, block: seq<TxId>, byFee: bool, id: TxId)
    requires Fits(pool, list) && id in list && id in pool
    requires Distinct(block + [id]) && Elems(block + [id]) <= Elems(list)
    ensures Admissible(Generous(pool, list), pool, block, byFee, EntryOf(pool, id))
  {
    var env := Generous(pool, list);
    ListedLimits(env, pool, list, block, id);
  }

  lemma ListedLimits(env: Env, pool: Pool, list: seq<TxId>, block: seq<TxId>, id: TxId)
    requires Fits(pool, list) && id in pool && Distinct(block + [id]) && Elems(block + [id]) <= Elems(list)
    requires forall b, x :: env.connect(b, x).p2shSigops == 0
    ensures SizeOf(pool, block) + pool[id].size < MAX_BLOCK_SIZE - 1000
    ensures SigopsOf(env, pool, block) + pool[id].sigops < MAX_BLOCK_SIGOPS
  {
    SumWithin(x => SizeAt(pool, x), block + [id], list);
    SumWithin(x => SigopsAt(pool, x), block + [id], list);
    SizeIsSum(pool, block + [id]);
    SigopsAreSum(env, pool, block + [id]);
    SumsMore(env, pool, block, id);
  }

  lemma {:induction false} OnlyListed(pool: Pool, list: seq<TxId>, trace: seq<Taken>)
    requires Schedule(Generous(pool, list), pool, trace)
    ensures Elems(BlockOf(trace)) <= Elems(list)
  {
    if trace != [] { OnlyListed(pool, list, trace[..|trace| - 1]); }
  }

  lemma ListedNotRefused(pool: Pool, list: seq<TxId>, trace: seq<Taken>, n: nat)
    requires Schedule(Generous(pool, list), pool, trace) && Fits(pool, list) && n < |trace| && trace[n].id in list
    ensures trace[n].joined
  {
    var env, before, id := Generous(pool, list), trace[..n], trace[n].id;
    ScheduleAt(env, pool, trace, n);
    SchedulePrefix(env, pool, trace, n);
    ScheduleInOrder(env, pool, before);
    OnlyListed(pool, list, before);
    SumsMore(env, pool, BlockOf(before), id);
    ListedAdmissible(pool, list, BlockOf(before), ByFee(env, pool, before), id);
  }

  lemma {:induction false} SchedulePrefix(env: Env, pool: Pool, trace: seq<Taken>, n: nat)
    requires Schedule(env, pool, trace) && n <= |trace|
    ensures Schedule(env, pool, trace[..n])
  {
    if n < |trace| {
      SchedulePrefix(env, pool, trace[..|trace| - 1], n);
      assert trace[..|trace| - 1][..n] == trace[..n];
    } else {
      assert trace[..n] == trace;
    }
  }

  /** A finished run takes them all, the j-th after the ones before it. */
  lemma {:induction false} ListedJoin(pool: Pool, list: seq<TxId>, trace: seq<Taken>, j: nat)
    requires Schedule(Generous(pool, list), pool, trace) && Exhausted(pool, trace)
    requires InOrder(pool, list) && Fits(pool, list) && j < |list|
    ensures list[j] in BlockOf(trace)
  {
    var env, id := Generous(pool, list), list[j];
    NothingLost(env, pool, trace, id);
    if n :| 0 <= n < |trace| && RefusedAt(env, pool, trace, id, n) {
      ListedNotRefused(pool, list, trace, n);
    } else if id !in BlockOf(trace) {
      var parent :| parent in ParentsOf(pool, id) && parent !in BlockOf(trace);
      assert parent in list[..j];
      var i :| 0 <= i < j && list[i] == parent;
      ListedJoin(pool, list, trace, i);
    }
  }

  lemma ListedTouches(pool: Pool, list: seq<TxId>, trace: seq<Taken>)
    requires Schedule(Generous(pool, list), pool, trace) && Exhausted(pool, trace)
    requires InOrder(pool, list) && Fits(pool, list) && !Untouched(pool, list)
    ensures !Untouched(pool, BlockOf(trace))
  {
    var h, o :| h in Left(pool, o) && h in list;
    var j :| 0 <= j < |list| && list[j] == h;
    ListedJoin(pool, list, trace, j);
  }

  // ----- every run can be finished -----

  function TakenIn(trace: seq<Taken>): set<TxId> { set i | 0 <= i < |trace| :: trace[i].id }

  lemma {:induction false} TakenAre(trace: seq<Taken>)
    ensures TakenIn(trace) == Elems(BlockOf(trace)) + RefusedOf(trace)
  {
    if trace != [] {
      var init, last := trace[..|trace| - 1], trace[|trace| - 1];
      TakenAre(init);
      assert trace == init + [last];
      assert TakenIn(trace) == TakenIn(init) + {last.id};
      assert Elems(BlockOf(init) + [last.id]) == Elems(BlockOf(init)) + {last.id};
    }
  }

  lemma {:induction false} Highest(pool: Pool, s: set<TxId>, byFee: bool) returns (x: TxId)
    requires s != {}
    ensures x in s && forall y :: y in s ==> !Less(EntryOf(pool, x), EntryOf(pool, y), byFee)
    decreases s
  {
    var any := Sets.Witness(s);
    var rest := s - {any};
    x := any;
    if rest != {} {
      var y := Highest(pool, rest, byFee);
      x := Higher(pool, rest, byFee, any, y);
    }
    forall z | z in s ensures !Less(EntryOf(pool, x), EntryOf(pool, z), byFee) {
      assert z in rest || z == any;
    }
  }

  lemma Higher(pool: Pool, rest: set<TxId>, byFee: bool, x: TxId, y: TxId) returns (top: TxId)
    requires forall z :: z in rest ==> !Less(EntryOf(pool, y), EntryOf(pool, z), byFee)
    ensures top == x || top == y
    ensures forall z :: z in rest || z == x ==> !Less(EntryOf(pool, top), EntryOf(pool, z), byFee)
  {
    top := if Less(EntryOf(pool, y), EntryOf(pool, x), byFee) then x else y;
    forall z | z in rest || z == x ensures !Less(EntryOf(pool, top), EntryOf(pool, z), byFee) {
      if z != x { assert !Less(EntryOf(pool, y), EntryOf(pool, z), byFee); }
    }
  }

  lemma {:induction false} Finished(env: Env, pool: Pool, trace: seq<Taken>) returns (done: seq<Taken>)
    requires Schedule(env, pool, trace)
    ensures Schedule(env, pool, done) && Exhausted(pool, done) && trace <= done
    decreases pool.Keys - TakenIn(trace)
  {
    var ready := set id | id in pool && IsReady(pool, trace, id);
    if ready == {} {
      done := trace;
      forall x {:trigger IsReady(pool, trace, x)} ensures !IsReady(pool, trace, x) { assert x !in ready; }
    } else {
      var byFee := ByFee(env, pool, trace);
      var id := Highest(pool, ready, byFee);
      var next := Taken(id, Admissible(env, pool, BlockOf(trace), byFee, EntryOf(pool, id)));
      assert MayTake(env, pool, trace, next);
      ScheduleMore(env, pool, trace, next);
      TakenAre(trace);
      assert id !in TakenIn(trace) && id in TakenIn(trace + [next]) by {
        assert (trace + [next])[|trace|].id == id;
      }
      assert TakenIn(trace) <= TakenIn(trace + [next]) by {
        forall x | x in TakenIn(trace) ensures x in TakenIn(trace + [next]) {
          var i :| 0 <= i < |trace| && trace[i].id == x;
          assert (trace + [next])[i].id == x;
        }
      }
      assert id in pool.Keys - TakenIn(trace);
      done := Finished(env, pool, trace + [next]);
    }
  }

  // ----- exactly which pools -----

  lemma TouchedCanBeCut(env: Env, pool: Pool, trace: seq<Taken>)
    requires Schedule(env, pool, trace) && !Untouched(pool, BlockOf(trace))
    ensures CanBeCut(pool)
  {
    var block := BlockOf(trace);
    ScheduleInOrder(env, pool, trace);
    ScheduleWithin(env, pool, trace);
    SizeIsSum(pool, block);
    SigopsAreSum(env, pool, block);
  }

  /** A pool can be cut exactly if some run under some options and outcomes touches a removed orphan;
      and then under some of them every finished run does. */
  lemma CutShortIff(pool: Pool)
    ensures CanBeCut(pool) <==> exists env :: CutIn(env, pool)
    ensures CanBeCut(pool) ==> exists env :: AlwaysCut(env, pool) && CutIn(env, pool)
  {
    if CanBeCut(pool) {
      var list :| InOrder(pool, list) && Fits(pool, list) && !Untouched(pool, list);
      var env := Generous(pool, list);
      var trace := Finished(env, pool, []);
      forall t | Schedule(env, pool, t) && Exhausted(pool, t) ensures !Untouched(pool, BlockOf(t)) {
        ListedTouches(pool, list, t);
      }
      assert AlwaysCut(env, pool) && CutIn(env, pool);
    }
    if env :| CutIn(env, pool) {
      var trace :| Schedule(env, pool, trace) && !Untouched(pool, BlockOf(trace));
      TouchedCanBeCut(env, pool, trace);
    }
  }

  /** A transaction without pool parents, and one that spends from it and then from one nobody knows. */
  lemma UnsafeCanBeCut(a: TxId, b: TxId, gone: TxId)
    requires a != b && gone != a && gone != b
    ensures CanBeCut(map[a := Tx([], 1, 0, 0, 0, false),
      b := Tx([Input(a, false, 0, 0), Input(gone, false, 0, 0)], 1, 0, 0, 0, false)])
  {
    var pool: Pool := map[a := Tx([], 1, 0, 0, 0, false),
      b := Tx([Input(a, false, 0, 0), Input(gone, false, 0, 0)], 1, 0, 0, 0, false)];
    UnsafePool(a, b, gone, multiset{}, map[], map[]);
    assert a in Left(pool, b);
    assert [a][..0] == [] && Sum(id => SizeAt(pool, id), [a]) == 1 && Sum(id => SigopsAt(pool, id), [a]) == 0;
    assert InOrder(pool, [a]) && Fits(pool, [a]) && !Untouched(pool, [a]);
  }
}
