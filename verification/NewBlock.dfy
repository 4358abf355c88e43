/** The assembler: the loops that fill a new block, and the block's header time. */
module NewBlock {
  import opened AssemblyQueue
  import opened BlockAssembly
  import opened CutShort
  import opened BlockTree
  import MedianTime
  import opened Seqs
  import Sets

  function WithParents(deps: map<TxId, set<TxId>>, id: TxId, parents: set<TxId>): map<TxId, set<TxId>> {
    if parents == {} then deps else deps[id := parents]
  }

  lemma OneParentMore(deps: map<TxId, set<TxId>>, id: TxId, parents: set<TxId>, h: TxId, now: map<TxId, set<TxId>>)
    requires id !in deps && now == WithParents(deps, id, parents)
    ensures now[id := (if id in now then now[id] else {}) + {h}] == WithParents(deps, id, parents + {h})
  {
    assert h in parents + {h};
  }

  class Assembler {
    const pool: Pool
    const env: Env
    var block: seq<TxId>
    var size: nat
    var sigops: nat
    var fees: int
    var queue: seq<Entry>
    var byFee: bool
    var deps: map<TxId, set<TxId>>
    var dependers: map<TxId, seq<TxId>>
    ghost var trace: seq<Taken>

    constructor (pool: Pool, env: Env)
      ensures this.pool == pool && this.env == env
      ensures block == [] && queue == [] && deps == map[] && dependers == map[] && trace == []
      ensures size == 1000 && sigops == 100 && fees == 0 && byFee == (env.PrioritySize() <= 0)
    {
      this.pool, this.env := pool, env;
      block, size, sigops, fees, queue := [], 1000, 100, 0, [];
      deps, dependers, trace := map[], map[], [];
      byFee := env.PrioritySize() <= 0;
    }

    // ----- collecting -----

    /** Notes that o has to wait for h. */
    method Record(o: TxId, h: TxId, ghost done: set<TxId>, ghost before: map<TxId, set<TxId>>, ghost parents: set<TxId>)
      requires Noted(pool, done, deps, dependers) && o !in before && deps == WithParents(before, o, parents)
      modifies this`deps, this`dependers
      ensures Noted(pool, done, deps, dependers) && deps == WithParents(before, o, parents + {h})
    {
      OneParentMore(before, o, parents, h, deps);
      NotedStep(pool, done, deps, dependers, o, h);
      dependers := dependers[h := DependersOf(dependers, h) + [o]];
      deps := deps[o := (if o in deps then deps[o] else {}) + {h}];
    }

    /** Goes through the inputs of a transaction. At a missing one its orphan, if there is one by then,
        is removed, but not its name from the lists of dependers. */
    method Scan(id: TxId, ghost done: set<TxId>) returns (complete: bool, age: int, totalIn: int)
      requires id in pool && !pool[id].excluded && id !in deps && id !in done && Noted(pool, done, deps, dependers)
      modifies this`deps, this`dependers
      ensures complete <==> forall k :: 0 <= k < |pool[id].inputs| ==>
                pool[id].inputs[k].onDisk || pool[id].inputs[k].prev in pool
      ensures complete == Wanted(pool, id) && Noted(pool, done + {id}, deps, dependers)
      ensures deps == WithParents(old(deps), id, if complete then ParentsOf(pool, id) else {})
      ensures !complete && Mirror(old(deps), old(dependers)) ==>
        (Mirror(deps, dependers) <==> Safe(pool, pool[id].inputs))
      ensures complete ==> var inputs := pool[id].inputs;
        age == Age(inputs, |inputs|) && totalIn == TotalIn(inputs, |inputs|)
    {
      var inputs := pool[id].inputs;
      ghost var before := deps;
      var k := 0;
      complete, age, totalIn := true, 0, 0;
      while k < |inputs|
        invariant k <= |inputs| && Noted(pool, done, deps, dependers)
        invariant Complete(pool, inputs, k)
        invariant deps == WithParents(before, id, Parents(inputs, k))
        invariant age == Age(inputs, k) && totalIn == TotalIn(inputs, k)
      {
        var i := inputs[k];
        if !i.onDisk {
          if i.prev !in pool {
            ReachIs(pool, inputs, k);
            NotedGone(pool, done, deps, dependers, id);
            deps := deps - {id};
            assert deps == before;
            if Mirror(before, old(dependers)) { GivenUp(pool, done, before, old(dependers), dependers, id); }
            return false, age, totalIn;
          }
          Record(id, i.prev, done, before, Parents(inputs, k));
        } else {
          age := age + Weight(i);
        }
        totalIn := totalIn + i.value;
        k := k + 1;
      }
      NotedKept(pool, done, deps, dependers, id);
    }

    method CollectOne(id: TxId, ghost done: set<TxId>)
      requires id in pool && id !in done
      requires Noted(pool, done, deps, dependers) && Gathered(pool, done, multiset(queue), deps)
      modifies this`deps, this`dependers, this`queue
      ensures Noted(pool, done + {id}, deps, dependers) && Gathered(pool, done + {id}, multiset(queue), deps)
    {
      var tx := pool[id];
      if tx.excluded {
        GatherNone(pool, done, multiset(queue), deps, id);
        NotedKept(pool, done, deps, dependers, id);
        return;
      }
      ghost var deps0 := deps;
      var complete, age, totalIn := Scan(id, done);
      if !complete {
        GatherNone(pool, done, multiset(queue), deps, id);
        return;
      }
      ghost var bag := multiset(queue);
      if id !in deps { queue := queue + [EntryFor(id, tx, age, totalIn)]; }
      GatherOne(pool, done, bag, deps0, id, multiset(queue), deps);
    }

    /** Goes through the pool. No list names a removed orphan exactly if the whole pool is safe. */
    method Collect()
      requires queue == [] && deps == map[] && dependers == map[]
      modifies this`deps, this`dependers, this`queue
      ensures AllPlaced(pool, {}, {}, multiset(queue), deps) && Linked(pool, dependers) && OnlyWanted(pool, deps)
      ensures Mirror(deps, dependers) <==>
        forall id :: id in pool && !pool[id].excluded ==> Safe(pool, pool[id].inputs)
    {
      var todo := pool.Keys;
      assert pool.Keys - todo == {};
      assert forall h, o :: IsNoted(pool, {}, deps, dependers, h, o);
      while todo != {}
        invariant todo <= pool.Keys
        invariant Noted(pool, pool.Keys - todo, deps, dependers)
        invariant Gathered(pool, pool.Keys - todo, multiset(queue), deps)
        decreases todo
      {
        var id := Sets.AnyOf(todo);
        CollectOne(id, pool.Keys - todo);
        assert pool.Keys - (todo - {id}) == pool.Keys - todo + {id};
        todo := todo - {id};
      }
      assert pool.Keys - todo == pool.Keys;
      GatheredAll(pool, multiset(queue), deps, dependers);
      MirrorIffSafe(pool, pool.Keys, multiset(queue), deps, dependers);
    }

    // ----- filling the block -----

    ghost predicate Sums()
      reads this
    {
      size == SizeOf(pool, block) && sigops == SigopsOf(env, pool, block) && fees == FeesOf(env, block)
    }

    ghost predicate History()
      reads this
    {
      block == BlockOf(trace) && byFee == ByFee(env, pool, trace) && Schedule(env, pool, trace)
    }

    ghost predicate Valid()
      reads this
    {
      && AllPlaced(pool, Elems(block), RefusedOf(trace), multiset(queue), deps)
      && Linked(pool, dependers) && OnlyWanted(pool, deps) && Untouched(pool, block) && Sums() && History()
    }

    /** The checks on a transaction taken off the queue; may change the order of the rest. */
    method Consider(e: Entry) returns (ok: bool, txFees: int, txSigops: nat)
      requires e.id in pool && Sums()
      modifies this`byFee
      ensures ok == Admissible(env, pool, block, old(byFee), e)
      ensures byFee == (old(byFee) || (Promising(env, pool, block, old(byFee), e) && Switches(env, pool, block, e)))
      ensures ok ==> txFees == env.connect(block, e.id).fees
      ensures ok ==> txSigops == pool[e.id].sigops + env.connect(block, e.id).p2shSigops
    {
      var tx := pool[e.id];
      txFees, txSigops := 0, tx.sigops;
      if size + tx.size >= env.MaxSize() { return false, txFees, txSigops; }
      if sigops + txSigops >= MAX_BLOCK_SIGOPS { return false, txFees, txSigops; }
      if tx.time > env.now || (env.stake && tx.time > env.coinbaseTime) { return false, txFees, txSigops; }
      var minFee := env.minFee(e.id, size);
      if byFee && e.feePerKb < env.minTxFee as real && size + tx.size >= env.MinSize() {
        return false, txFees, txSigops;
      }
      if !byFee && (size + tx.size >= env.PrioritySize() || e.priority < (COIN * 144 / 250) as real) { byFee := true; }
      var outcome := env.connect(block, e.id);
      if !outcome.fetched { return false, txFees, txSigops; }
      txFees := outcome.fees;
      if txFees < minFee { return false, txFees, txSigops; }
      txSigops := txSigops + outcome.p2shSigops;
      if sigops + txSigops >= MAX_BLOCK_SIGOPS { return false, txFees, txSigops; }
      if !outcome.connected { return false, txFees, txSigops; }
      return true, txFees, txSigops;
    }

    /** Tells those that wait for h that it is in the block, and queues the ones left free. Stops at a
        list entry whose orphan was removed: what the source does from there on is undefined. */
    method Release(h: TxId, ghost blk: set<TxId>, ghost refused: set<TxId>, ghost work: nat) returns (ok: bool)
      requires work == |queue| + |Waiting(deps)|
      requires h in blk && Linked(pool, dependers) && OnlyWanted(pool, deps)
      requires PartlyTold(pool, blk, h, {}, refused, multiset(queue), deps)
      modifies this`queue, this`deps
      ensures ok <==> forall o :: h !in Left(pool, o)
      ensures ok ==> AllPlaced(pool, blk, refused, multiset(queue), deps) && OnlyWanted(pool, deps)
      ensures ok ==> |queue| + |Waiting(deps)| == work
    {
      var list := DependersOf(dependers, h);
      var j := 0;
      while j < |list|
        invariant j <= |list| && OnlyWanted(pool, deps)
        invariant forall i :: 0 <= i < j ==> Wanted(pool, list[i])
        invariant PartlyTold(pool, blk, h, Elems(list[..j]), refused, multiset(queue), deps)
        invariant |queue| + |Waiting(deps)| == work
      {
        assert IsLinked(pool, dependers, h, list[j]);
        if list[j] !in deps {
          Removed(pool, blk, h, Elems(list[..j]), refused, multiset(queue), deps, list[j]);
          return false;
        }
        TellNext(list[j], h, blk, Elems(list[..j]), refused);
        assert Elems(list[..j + 1]) == Elems(list[..j]) + {list[j]};
        j := j + 1;
      }
      assert list[..j] == list;
      forall o ensures h !in Left(pool, o) && (Wanted(pool, o) && h in ParentsOf(pool, o) ==> o in Elems(list)) {
        assert IsLinked(pool, dependers, h, o);
      }
      AllTold(pool, blk, h, Elems(list), refused, multiset(queue), deps);
      return true;
    }

    method TellNext(o: TxId, h: TxId, ghost blk: set<TxId>, ghost told: set<TxId>, ghost refused: set<TxId>)
      requires h in blk && Wanted(pool, o) && h in ParentsOf(pool, o) && o in deps && OnlyWanted(pool, deps)
      requires PartlyTold(pool, blk, h, told, refused, multiset(queue), deps)
      modifies this`queue, this`deps
      ensures PartlyTold(pool, blk, h, told + {o}, refused, multiset(queue), deps) && OnlyWanted(pool, deps)
      ensures |queue| + |Waiting(deps)| == old(|queue| + |Waiting(deps)|)
    {
      ghost var bag, deps0 := multiset(queue), deps;
      if o in told {
        assert told + {o} == told;
        ToldAlready(pool, blk, h, told, refused, bag, deps, o);
      } else {
        assert Placed(pool, blk, blk - {h}, refused, bag, deps, o);
        assert h in deps[o];
      }
      if deps[o] != {} {
        deps := deps[o := deps[o] - {h}];
        WaitingStep(deps0, o, h);
        if deps[o] == {} { queue := queue + [EntryOf(pool, o)]; }
        if o in told {
          assert deps0[o] - {h} == deps0[o] && deps == deps0;
        } else {
          Tell(pool, blk, h, told, refused, bag, deps0, o, multiset(queue), deps);
        }
      }
    }

    /** Puts a transaction that passed all checks into the block. */
    method AddTx(e: Entry, txFees: int, txSigops: nat, ghost before: seq<Taken>, ghost bag: multiset<Entry>,
                 ghost work: nat) returns (ok: bool)
      requires work == |queue| + |Waiting(deps)|
      requires AllPlaced(pool, Elems(block), RefusedOf(before), bag, deps) && bag == multiset(queue) + multiset{e}
      requires trace == before + [Taken(e.id, true)] && block == BlockOf(before) && Untouched(pool, block)
      requires Schedule(env, pool, trace) && byFee == ByFee(env, pool, trace)
      requires Linked(pool, dependers) && OnlyWanted(pool, deps) && Sums()
      requires e.id in pool && txFees == env.connect(block, e.id).fees
      requires txSigops == pool[e.id].sigops + env.connect(block, e.id).p2shSigops
      modifies this`block, this`size, this`sigops, this`fees, this`queue, this`deps
      ensures Sums() && History() && block == old(block) + [e.id]
      ensures ok <==> Untouched(pool, block)
      ensures ok ==> Valid() && |queue| + |Waiting(deps)| == work
    {
      ghost var more := block + [e.id];
      UntouchedMore(pool, block, e.id);
      Entered(env, pool, before, trace, block, bag, deps, e, multiset(queue));
      Enter(e, txFees, txSigops);
      assert block == more && History();
      ok := Release(e.id, Elems(more), RefusedOf(trace), work);
    }

    method Enter(e: Entry, txFees: int, txSigops: nat)
      requires Sums() && e.id in pool && txFees == env.connect(block, e.id).fees
      requires txSigops == pool[e.id].sigops + env.connect(block, e.id).p2shSigops
      modifies this`block, this`size, this`sigops, this`fees
      ensures Sums() && block == old(block) + [e.id]
    {
      SumsMore(env, pool, block, e.id);
      block := block + [e.id];
      size, sigops, fees := size + pool[e.id].size, sigops + txSigops, fees + txFees;
    }

    /** Takes a highest entry off the queue and decides on it. */
    method Take(ghost before: seq<Taken>, ghost bag: multiset<Entry>)
      returns (e: Entry, joins: bool, txFees: int, txSigops: nat)
      requires Valid() && queue != [] && before == trace && bag == multiset(queue)
      modifies this`queue, this`byFee, this`trace
      ensures bag == multiset(queue) + multiset{e} && |queue| == |old(queue)| - 1 && e.id in pool
      ensures trace == before + [Taken(e.id, joins)] && Schedule(env, pool, trace) && byFee == ByFee(env, pool, trace)
      ensures joins ==> txFees == env.connect(block, e.id).fees
      ensures joins ==> txSigops == pool[e.id].sigops + env.connect(block, e.id).p2shSigops
    {
      var rest;
      e, rest := Pop(queue, byFee);
      TopMayBeTaken(env, pool, before, bag, deps, e);
      queue := rest;
      joins, txFees, txSigops := Consider(e);
      ScheduleMore(env, pool, before, Taken(e.id, joins));
      TraceMore(env, pool, before, Taken(e.id, joins));
      trace := before + [Taken(e.id, joins)];
    }

    /** One round: a highest entry joins the block or is refused. */
    method Step(ghost work: nat) returns (ok: bool)
      requires Valid() && queue != [] && work == |queue| + |Waiting(deps)|
      modifies this`block, this`size, this`sigops, this`fees, this`queue, this`deps, this`byFee, this`trace
      ensures Sums() && History() && |trace| == |old(trace)| + 1 && trace[..|old(trace)|] == old(trace)
      ensures ok <==> Untouched(pool, block)
      ensures ok ==> Valid() && |queue| + |Waiting(deps)| < work
    {
      ghost var bag, before := multiset(queue), trace;
      var e, joins, txFees, txSigops := Take(before, bag);
      if joins {
        ok := AddTx(e, txFees, txSigops, before, bag, work - 1);
      } else {
        Refuse(pool, Elems(block), RefusedOf(before), bag, deps, e, multiset(queue));
        TraceMore(env, pool, before, Taken(e.id, false));
        ok := true;
      }
    }

    /** Fills the block from the pool. It is cut short, `dangled`, exactly if the block comes to hold a
        transaction whose list names a removed orphan. */
    method Fill() returns (dangled: bool)
      requires block == [] && queue == [] && deps == map[] && dependers == map[] && trace == []
      requires size == 1000 && sigops == 100 && fees == 0 && byFee == (env.PrioritySize() <= 0)
      modifies this
      ensures Sums() && block == BlockOf(trace) && Schedule(env, pool, trace)
      ensures dangled <==> !Untouched(pool, block)
      ensures !dangled ==> Exhausted(pool, trace)
    {
      Collect();
      assert Elems(block) == {};
      while queue != []
        invariant Valid()
        decreases |queue| + |Waiting(deps)|
      {
        var ok := Step(|queue| + |Waiting(deps)|);
        if !ok { return true; }
      }
      forall x {:trigger IsReady(pool, trace, x)} ensures !IsReady(pool, trace, x) {
        QueueIsReady(env, pool, trace, multiset(queue), deps, x);
      }
      return false;
    }
  }

  /** A transaction enters the block. */
  lemma Entered(env: Env, pool: Pool, before: seq<Taken>, trace: seq<Taken>, block: seq<TxId>, bag: multiset<Entry>,
                deps: map<TxId, set<TxId>>, e: Entry, rest: multiset<Entry>)
    requires AllPlaced(pool, Elems(block), RefusedOf(before), bag, deps) && bag == rest + multiset{e}
    requires trace == before + [Taken(e.id, true)] && block == BlockOf(before)
    ensures BlockOf(trace) == block + [e.id] && e.id in Elems(block + [e.id])
    ensures PartlyTold(pool, Elems(block + [e.id]), e.id, {}, RefusedOf(trace), rest, deps)
  {
    Join(pool, Elems(block), RefusedOf(before), bag, deps, e, rest);
    TraceMore(env, pool, before, Taken(e.id, true));
    assert Elems(block + [e.id]) == Elems(block) + {e.id};
  }

  /** Whatever is taken outranks all that are ready: it pays no less for its size while the order is by
      fee, and is no younger for its size while it is by priority. */
  ghost predicate HighestFirst(env: Env, pool: Pool, trace: seq<Taken>) {
    forall n, x {:trigger IsReady(pool, trace[..n], x)} :: 0 <= n < |trace| && IsReady(pool, trace[..n], x) ==>
      x in pool && trace[n].id in pool && Outranks(pool[trace[n].id], pool[x], ByFee(env, pool, trace[..n]))
  }

  lemma ScheduleHighestFirst(env: Env, pool: Pool, trace: seq<Taken>)
    requires Schedule(env, pool, trace)
    ensures HighestFirst(env, pool, trace)
  {
    forall n, x {:trigger IsReady(pool, trace[..n], x)} | 0 <= n < |trace| && IsReady(pool, trace[..n], x)
      ensures x in pool && trace[n].id in pool && Outranks(pool[trace[n].id], pool[x], ByFee(env, pool, trace[..n]))
    {
      TakenRanksFirst(env, pool, trace, n, x);
    }
  }

  /** A run that assembles the block: a schedule, finished unless it was cut short. */
  ghost predicate Assembles(env: Env, pool: Pool, trace: seq<Taken>, block: seq<TxId>, dangled: bool) {
    && Schedule(env, pool, trace) && block == BlockOf(trace) && HighestFirst(env, pool, trace)
    && (!dangled ==> Exhausted(pool, trace) && forall id :: Wanted(pool, id) ==> AccountedFor(env, pool, trace, id))
  }

  /** Assembles the transactions of a new block after the coinbase. `dangled` says that the source meets
      a pointer to a removed orphan, which no safe pool makes it do. */
  method CreateNewBlock(pool: Pool, env: Env)
    returns (block: seq<TxId>, size: nat, sigops: nat, fees: int, dangled: bool)
    ensures exists trace :: Assembles(env, pool, trace, block, dangled)
    ensures InOrder(pool, block)
    ensures size == SizeOf(pool, block) && sigops == SigopsOf(env, pool, block) && fees == FeesOf(env, block)
    ensures Within(env, pool, block)
    ensures dangled <==> !Untouched(pool, block)
    ensures dangled ==> CanBeCut(pool)
    ensures (forall id :: id in pool && !pool[id].excluded ==> Safe(pool, pool[id].inputs)) ==> !dangled
  {
    var a := new Assembler(pool, env);
    dangled := a.Fill();
    block, size, sigops, fees := a.block, a.size, a.sigops, a.fees;
    ghost var trace := a.trace;
    ScheduleInOrder(env, pool, trace);
    ScheduleWithin(env, pool, trace);
    ScheduleHighestFirst(env, pool, trace);
    if dangled {
      TouchedCanBeCut(env, pool, trace);
    } else {
      forall id | Wanted(pool, id) ensures AccountedFor(env, pool, trace, id) { NothingLost(env, pool, trace, id); }
    }
    assert Assembles(env, pool, trace, block, dangled);
    if forall id :: id in pool && !pool[id].excluded ==> Safe(pool, pool[id].inputs) { SafeIsUntouched(pool, block); }
  }

  lemma ReachIs(pool: Pool, inputs: seq<Input>, k: nat)
    requires k < |inputs| && Complete(pool, inputs, k) && Missing(pool, inputs[k])
    ensures Reach(pool, inputs, 0) == k
  {
    var n := Reach(pool, inputs, 0);
    assert !(n < k) && !(k < n);
  }

  /** A listed transaction without orphan was given up. */
  lemma Removed(pool: Pool, blk: set<TxId>, h: TxId, told: set<TxId>, refused: set<TxId>, queue: multiset<Entry>,
                deps: map<TxId, set<TxId>>, o: TxId)
    requires PartlyTold(pool, blk, h, told, refused, queue, deps) && o !in deps
    ensures Wanted(pool, o) ==> h !in ParentsOf(pool, o)
  {
    if Wanted(pool, o) {
      assert Placed(pool, blk, if o in told then blk else blk - {h}, refused, queue, deps, o);
    }
  }

  lemma WaitingStep(deps: map<TxId, set<TxId>>, o: TxId, h: TxId)
    requires o in deps && deps[o] != {}
    ensures var deps' := deps[o := deps[o] - {h}];
      |Waiting(deps')| == |Waiting(deps)| - if deps'[o] == {} then 1 else 0
  {
    var deps' := deps[o := deps[o] - {h}];
    if deps'[o] == {} {
      assert Waiting(deps') == Waiting(deps) - {o};
    } else {
      assert Waiting(deps') == Waiting(deps);
    }
  }

  /** A depender listed twice: nothing is left to do the second time. */
  lemma ToldAlready(pool: Pool, blk: set<TxId>, h: TxId, told: set<TxId>, refused: set<TxId>, queue: multiset<Entry>,
                    deps: map<TxId, set<TxId>>, o: TxId)
    requires PartlyTold(pool, blk, h, told, refused, queue, deps) && o in told && h in blk
    requires Wanted(pool, o) && h in ParentsOf(pool, o)
    ensures o in deps && h !in deps[o]
  {
    assert Placed(pool, blk, blk, refused, queue, deps, o);
  }

  // ----- the header -----

  function PastDrift(time: int): int { time - 10 * 60 }

  /** The latest time of the transactions in the block, coinbase included. */
  method MaxTransactionTime(times: seq<nat>) returns (m: nat)
    ensures forall i :: 0 <= i < |times| ==> times[i] <= m
    ensures m == 0 || m in times
  {
    m := 0;
    for k := 0 to |times|
      invariant forall i :: 0 <= i < k ==> times[i] <= m
      invariant m == 0 || m in times
    {
      if times[k] > m { m := times[k]; }
    }
  }

  /** What a new block's time has to be at least. */
  ghost predicate LateEnough(t: Tree, prev: Hash, times: seq<nat>, now: int, stake: bool, time: int)
    requires WellFormed(t) && prev in t
  {
    && time > MedianTime.MedianTimePast(t, prev, MedianTime.MEDIAN_TIME_SPAN)
    && time >= PastDrift(t[prev].time)
    && (!stake ==> time >= now)
    && forall i :: 0 <= i < |times| ==> times[i] <= time
  }

  /** The time of the header: the earliest that is late enough. */
  method HeaderTime(t: Tree, prev: Hash, times: seq<nat>, now: int, stake: bool) returns (time: nat)
    requires WellFormed(t) && prev in t
    ensures LateEnough(t, prev, times, now, stake, time)
    ensures time > MedianTime.MedianTimePast(t, prev, 11) && time >= t[prev].time - 600
    ensures (!stake ==> time >= now) && forall i :: 0 <= i < |times| ==> times[i] <= time
    ensures time == MedianTime.MedianTimePast(t, prev, 11) + 1 || time == t[prev].time - 600 ||
      (!stake && time == now) || time in times
    ensures forall earlier: nat :: earlier < time ==> !LateEnough(t, prev, times, now, stake, earlier)
  {
    var limit := MedianTime.GetMedianTimePast(t, prev);
    MedianTime.MedianNatural(t, prev, 11);
    var latest := MaxTransactionTime(times);
    time := Max(limit + 1, latest);
    time := Max(time, PastDrift(t[prev].time));
    if !stake { time := Max(time, now); }
  }

  /** A block with the header time of its assembly keeps median time past from going back. */
  lemma HeaderKeepsTimes(t: Tree, h: Hash, b: BlockIndex, prev: Hash, times: seq<nat>, now: int, stake: bool)
    requires WellFormed(t) && prev in t && h !in t && MedianTime.TimesOk(t, MedianTime.MEDIAN_TIME_SPAN)
    requires b.pprev == Some(prev) && b.height == t[prev].height + 1 && LateEnough(t, prev, times, now, stake, b.time)
    ensures WellFormed(t[h := b]) && MedianTime.TimesOk(t[h := b], MedianTime.MEDIAN_TIME_SPAN)
    ensures MedianTime.MedianTimePast(t[h := b], h, MedianTime.MEDIAN_TIME_SPAN) >=
      MedianTime.MedianTimePast(t, prev, MedianTime.MEDIAN_TIME_SPAN)
  {
    HeaderKeeps(t, h, b, prev, MedianTime.MEDIAN_TIME_SPAN);
  }

  lemma HeaderKeeps(t: Tree, h: Hash, b: BlockIndex, prev: Hash, span: nat)
    requires WellFormed(t) && prev in t && h !in t && span > 0 && MedianTime.TimesOk(t, span)
    requires b.pprev == Some(prev) && b.height == t[prev].height + 1
    requires b.time > MedianTime.MedianTimePast(t, prev, span)
    ensures WellFormed(t[h := b]) && MedianTime.TimesOk(t[h := b], span)
    ensures MedianTime.MedianTimePast(t[h := b], h, span) >= MedianTime.MedianTimePast(t, prev, span)
  {
    MedianTime.AddedKeepsTimes(t, h, b, span);
    AddedBlock(t, h, b);
    MedianTime.TimesGrow(t, t[h := b], prev, span);
    MedianTime.MedianDoesNotDecrease(t[h := b], h, span);
  }
}
