/** Collecting memory pool transactions into a new block. */
module BlockAssembly {
  import opened AssemblyQueue
  import opened Seqs
  import Sets

  const MAX_BLOCK_SIZE: nat := 1000000
  const MAX_BLOCK_SIGOPS: nat := MAX_BLOCK_SIZE / 50
  const COIN: nat := 1000000

  /** What fetching and connecting the inputs of a transaction gives. */
  datatype Outcome = Outcome(fetched: bool, fees: int, p2shSigops: nat, connected: bool)

  /** Options, clock and the parts of the node that are consulted. Connecting depends on the
      transactions already in the block. */
  datatype Env = Env(optionMax: nat, optionPriority: nat, optionMin: nat, minTxFee: int, now: int,
                     stake: bool, coinbaseTime: int,
                     connect: (seq<TxId>, TxId) -> Outcome, minFee: (TxId, nat) -> int) {
    function MaxSize(): (n: nat)
      ensures 1000 <= n <= 999000 && (1000 <= optionMax <= 999000 ==> n == optionMax)
      ensures (optionMax < 1000 ==> n == 1000) && (optionMax > 999000 ==> n == 999000)
    {
      var n := Min(MAX_BLOCK_SIZE - 1000, optionMax);
      if n < 1000 then 1000 else n
    }

    function PrioritySize(): (n: nat)
      ensures n <= MaxSize() && n <= optionPriority && (n == MaxSize() || n == optionPriority)
    {
      Min(MaxSize(), optionPriority)
    }

    function MinSize(): (n: nat)
      ensures n <= MaxSize() && n <= optionMin && (n == MaxSize() || n == optionMin)
    {
      Min(MaxSize(), optionMin)
    }
  }

  // ----- what a block adds up to -----

  function SizeAt(pool: Pool, id: TxId): nat { if id in pool then pool[id].size else 0 }
  function SigopsAt(pool: Pool, id: TxId): nat { if id in pool then pool[id].sigops else 0 }

  function SizeOf(pool: Pool, block: seq<TxId>): nat {
    if block == [] then 1000 else SizeOf(pool, block[..|block| - 1]) + SizeAt(pool, block[|block| - 1])
  }

  function SigopsOf(env: Env, pool: Pool, block: seq<TxId>): nat {
    if block == [] then 100
    else
      var init, id := block[..|block| - 1], block[|block| - 1];
      SigopsOf(env, pool, init) + SigopsAt(pool, id) + env.connect(init, id).p2shSigops
  }

  function FeesOf(env: Env, block: seq<TxId>): int {
    if block == [] then 0
    else
      var init, id := block[..|block| - 1], block[|block| - 1];
      FeesOf(env, init) + env.connect(init, id).fees
  }

  // ----- when a transaction may join a block -----

  predicate WithinLimits(env: Env, pool: Pool, block: seq<TxId>, e: Entry)
    requires e.id in pool
  {
    var tx := pool[e.id];
    && SizeOf(pool, block) + tx.size < env.MaxSize()
    && SigopsOf(env, pool, block) + tx.sigops + env.connect(block, e.id).p2shSigops < MAX_BLOCK_SIGOPS
    && tx.time <= env.now
    && (env.stake ==> tx.time <= env.coinbaseTime)
  }

  /** Free transactions are passed over once the block is sorted by fee and large enough. */
  predicate TooCheap(env: Env, pool: Pool, block: seq<TxId>, byFee: bool, e: Entry)
    requires e.id in pool
  {
    byFee && e.feePerKb < env.minTxFee as real && SizeOf(pool, block) + pool[e.id].size >= env.MinSize()
  }

  predicate Connects(env: Env, pool: Pool, block: seq<TxId>, e: Entry) {
    var o := env.connect(block, e.id);
    o.fetched && o.connected && o.fees >= env.minFee(e.id, SizeOf(pool, block))
  }

  predicate Admissible(env: Env, pool: Pool, block: seq<TxId>, byFee: bool, e: Entry)
    requires e.id in pool
  {
    WithinLimits(env, pool, block, e) && !TooCheap(env, pool, block, byFee, e) && Connects(env, pool, block, e)
  }

  function Elems(s: seq<TxId>): set<TxId> { set x | x in s }

  /** The transaction can come right after these: it is new, and all its pool parents are among them. */
  predicate Follows(pool: Pool, block: seq<TxId>, id: TxId) {
    Wanted(pool, id) && id !in block && ParentsOf(pool, id) <= Elems(block)
  }

  /** The checks made before the order may change. */
  predicate Promising(env: Env, pool: Pool, block: seq<TxId>, byFee: bool, e: Entry)
    requires e.id in pool
  {
    var tx := pool[e.id];
    && SizeOf(pool, block) + tx.size < env.MaxSize()
    && SigopsOf(env, pool, block) + tx.sigops < MAX_BLOCK_SIGOPS
    && tx.time <= env.now && (env.stake ==> tx.time <= env.coinbaseTime)
    && !TooCheap(env, pool, block, byFee, e)
  }

  /** Whether the order changes to fee order at this transaction. */
  predicate Switches(env: Env, pool: Pool, block: seq<TxId>, e: Entry)
    requires e.id in pool
  {
    SizeOf(pool, block) + pool[e.id].size >= env.PrioritySize() || e.priority < (COIN * 144 / 250) as real
  }

  // ----- the whole run, without queue or orphans -----

  /** A transaction taken off the queue, and whether it joined the block. */
  datatype Taken = Taken(id: TxId, joined: bool)

  /** The block after a run: those that joined, in order. */
  function BlockOf(trace: seq<Taken>): seq<TxId> {
    if trace == [] then []
    else
      var init, last := trace[..|trace| - 1], trace[|trace| - 1];
      if last.joined then BlockOf(init) + [last.id] else BlockOf(init)
  }

  function RefusedOf(trace: seq<Taken>): set<TxId> {
    if trace == [] then {}
    else
      var init, last := trace[..|trace| - 1], trace[|trace| - 1];
      if last.joined then RefusedOf(init) else RefusedOf(init) + {last.id}
  }

  /** The order in force after a run: by fee from the start if no space is set aside for priority, or
      else since the first promising transaction at which it switches. */
  function ByFee(env: Env, pool: Pool, trace: seq<Taken>): bool {
    if trace == [] then env.PrioritySize() <= 0
    else
      var init, id := trace[..|trace| - 1], trace[|trace| - 1].id;
      var e, block := EntryOf(pool, id), BlockOf(init);
      || ByFee(env, pool, init)
      || (id in pool && Promising(env, pool, block, false, e) && Switches(env, pool, block, e))
  }

  /** May be taken next: wanted, not taken yet, and all its pool parents are in the block. */
  predicate IsReady(pool: Pool, trace: seq<Taken>, id: TxId) {
    Follows(pool, BlockOf(trace), id) && id !in RefusedOf(trace)
  }

  /** The next transaction is a highest one of all that are ready, in the order in force, and joins
      the block exactly if it is admissible. */
  ghost predicate MayTake(env: Env, pool: Pool, trace: seq<Taken>, next: Taken) {
    var byFee := ByFee(env, pool, trace);
    && IsReady(pool, trace, next.id)
    && (next.joined <==> Admissible(env, pool, BlockOf(trace), byFee, EntryOf(pool, next.id)))
    && forall x {:trigger IsReady(pool, trace, x)} :: IsReady(pool, trace, x) ==>
         !Less(EntryOf(pool, next.id), EntryOf(pool, x), byFee)
  }

  ghost predicate Schedule(env: Env, pool: Pool, trace: seq<Taken>) {
    trace == [] ||
    var n := |trace| - 1;
    Schedule(env, pool, trace[..n]) && MayTake(env, pool, trace[..n], trace[n])
  }

  /** Nothing is left to take. */
  ghost predicate Exhausted(pool: Pool, trace: seq<Taken>) {
    forall x {:trigger IsReady(pool, trace, x)} :: !IsReady(pool, trace, x)
  }

  lemma ScheduleMore(env: Env, pool: Pool, trace: seq<Taken>, next: Taken)
    requires Schedule(env, pool, trace) && MayTake(env, pool, trace, next)
    ensures Schedule(env, pool, trace + [next])
  {
    assert (trace + [next])[..|trace|] == trace;
  }

  lemma TraceMore(env: Env, pool: Pool, trace: seq<Taken>, next: Taken)
    ensures BlockOf(trace + [next]) == if next.joined then BlockOf(trace) + [next.id] else BlockOf(trace)
    ensures RefusedOf(trace + [next]) == if next.joined then RefusedOf(trace) else RefusedOf(trace) + {next.id}
    ensures next.id in pool ==> var block, e := BlockOf(trace), EntryOf(pool, next.id);
      ByFee(env, pool, trace + [next]) == (ByFee(env, pool, trace) ||
        (Promising(env, pool, block, ByFee(env, pool, trace), e) && Switches(env, pool, block, e)))
  {
    assert (trace + [next])[..|trace|] == trace;
  }

  lemma SumsMore(env: Env, pool: Pool, block: seq<TxId>, id: TxId)
    ensures SizeOf(pool, block + [id]) == SizeOf(pool, block) + SizeAt(pool, id)
    ensures SigopsOf(env, pool, block + [id]) ==
      SigopsOf(env, pool, block) + SigopsAt(pool, id) + env.connect(block, id).p2shSigops
    ensures FeesOf(env, block + [id]) == FeesOf(env, block) + env.connect(block, id).fees
    ensures Elems(block + [id]) == Elems(block) + {id}
  {
    assert (block + [id])[..|block|] == block;
  }

  /** The signature operations and fees of a block are those of its transactions, as each connects to those
      before it. */
  lemma {:induction false} SigopsAre(env: Env, pool: Pool, block: seq<TxId>)
    ensures SigopsOf(env, pool, block) == 100 + Sum(seq(|block|, i requires 0 <= i < |block| =>
      SigopsAt(pool, block[i]) + env.connect(block[..i], block[i]).p2shSigops))
  {
    if block != [] {
      var n, init := |block| - 1, block[..|block| - 1];
      SigopsAre(env, pool, init);
      assert forall i :: 0 <= i < n ==> init[..i] == block[..i];
      assert seq(n + 1, i requires 0 <= i < n + 1 =>
        SigopsAt(pool, block[i]) + env.connect(block[..i], block[i]).p2shSigops)[..n] ==
        seq(n, i requires 0 <= i < n => SigopsAt(pool, init[i]) + env.connect(init[..i], init[i]).p2shSigops);
    }
  }

  lemma {:induction false} FeesAre(env: Env, block: seq<TxId>)
    ensures FeesOf(env, block) ==
      Sum(seq(|block|, i requires 0 <= i < |block| => env.connect(block[..i], block[i]).fees))
  {
    if block != [] {
      var n, init := |block| - 1, block[..|block| - 1];
      FeesAre(env, init);
      assert forall i :: 0 <= i < n ==> init[..i] == block[..i];
      assert seq(n + 1, i requires 0 <= i < n + 1 => env.connect(block[..i], block[i]).fees)[..n] ==
        seq(n, i requires 0 <= i < n => env.connect(init[..i], init[i]).fees);
    }
  }

  // ----- what holds of every run -----

  /** At every step of a run: a highest one of those ready then was taken, and joined if admissible. */
  lemma {:induction false} ScheduleAt(env: Env, pool: Pool, trace: seq<Taken>, n: nat)
    requires Schedule(env, pool, trace) && n < |trace|
    ensures MayTake(env, pool, trace[..n], trace[n])
  {
    var m := |trace| - 1;
    if n < m {
      ScheduleAt(env, pool, trace[..m], n);
      assert trace[..m][..n] == trace[..n] && trace[..m][n] == trace[n];
    }
  }

  /** Of two transactions the first one comes no later: in fee order it pays no less for its size, and if
      both pay the same its age is no less for its size; otherwise the other way round. */
  predicate Outranks(a: Tx, b: Tx, byFee: bool) {
    var fee, otherFee := Paid(a) * b.size, Paid(b) * a.size;
    var age, otherAge := AgeOf(a) * b.size, AgeOf(b) * a.size;
    if byFee then otherFee < fee || (otherFee == fee && otherAge <= age)
    else otherAge < age || (otherAge == age && otherFee <= fee)
  }

  lemma LessMeans(pool: Pool, a: TxId, b: TxId, byFee: bool)
    requires a in pool && b in pool
    ensures Less(EntryOf(pool, a), EntryOf(pool, b), byFee) <==> !Outranks(pool[a], pool[b], byFee)
  {
    var x, y, s, r := EntryOf(pool, a), EntryOf(pool, b), pool[a].size, pool[b].size;
    EntryMeans(pool, a);
    EntryMeans(pool, b);
    Cross(x.priority, AgeOf(pool[a]), s, y.priority, AgeOf(pool[b]), r, 1);
    Cross(x.feePerKb, Paid(pool[a]), s, y.feePerKb, Paid(pool[b]), r, 1000);
  }

  /** At every step, in integers: no ready transaction pays more for its size than the one taken while
      the order is by fee, and none is older for its size while it is by priority. */
  lemma TakenRanksFirst(env: Env, pool: Pool, trace: seq<Taken>, n: nat, x: TxId)
    requires Schedule(env, pool, trace) && n < |trace| && IsReady(pool, trace[..n], x)
    ensures x in pool && trace[n].id in pool
    ensures ByFee(env, pool, trace[..n]) ==>
      Paid(pool[x]) * pool[trace[n].id].size <= Paid(pool[trace[n].id]) * pool[x].size
    ensures !ByFee(env, pool, trace[..n]) ==>
      AgeOf(pool[x]) * pool[trace[n].id].size <= AgeOf(pool[trace[n].id]) * pool[x].size
    ensures Outranks(pool[trace[n].id], pool[x], ByFee(env, pool, trace[..n]))
  {
    ScheduleAt(env, pool, trace, n);
    LessMeans(pool, trace[n].id, x, ByFee(env, pool, trace[..n]));
  }

  /** When the one taken joins the block. */
  lemma JoinsIff(env: Env, pool: Pool, trace: seq<Taken>, n: nat)
    requires Schedule(env, pool, trace) && n < |trace|
    ensures trace[n].id in pool
    ensures var tx, block := pool[trace[n].id], BlockOf(trace[..n]);
      var size, o := SizeOf(pool, block), env.connect(block, trace[n].id);
      trace[n].joined <==>
      && size + tx.size < env.MaxSize()
      && SigopsOf(env, pool, block) + tx.sigops + o.p2shSigops < 20000
      && tx.time <= env.now && (env.stake ==> tx.time <= env.coinbaseTime)
      && (ByFee(env, pool, trace[..n]) && size + tx.size >= env.MinSize() ==>
            1000 * Paid(tx) >= env.minTxFee * tx.size)
      && o.fetched && o.connected && o.fees >= env.minFee(trace[n].id, size)
  {
    ScheduleAt(env, pool, trace, n);
    var id := trace[n].id;
    CheapIff(pool, id, env.minTxFee);
    AdmissibleIff(env, pool, BlockOf(trace[..n]), ByFee(env, pool, trace[..n]), EntryOf(pool, id));
  }

  lemma CheapIff(pool: Pool, id: TxId, limit: int)
    requires id in pool
    ensures EntryOf(pool, id).feePerKb < limit as real <==> 1000 * Paid(pool[id]) < limit * pool[id].size
    ensures EntryOf(pool, id).priority < limit as real <==> AgeOf(pool[id]) < limit * pool[id].size
  {
    var e := EntryOf(pool, id);
    EntryMeans(pool, id);
    Threshold(e.feePerKb, 1000 * Paid(pool[id]), pool[id].size, limit);
    Threshold(e.priority, AgeOf(pool[id]), pool[id].size, limit);
  }

  lemma AdmissibleIff(env: Env, pool: Pool, block: seq<TxId>, byFee: bool, e: Entry)
    requires e.id in pool
    requires e.feePerKb < env.minTxFee as real <==> 1000 * Paid(pool[e.id]) < env.minTxFee * pool[e.id].size
    ensures var tx, size, o := pool[e.id], SizeOf(pool, block), env.connect(block, e.id);
      Admissible(env, pool, block, byFee, e) <==>
      && size + tx.size < env.MaxSize()
      && SigopsOf(env, pool, block) + tx.sigops + o.p2shSigops < 20000
      && tx.time <= env.now && (env.stake ==> tx.time <= env.coinbaseTime)
      && (byFee && size + tx.size >= env.MinSize() ==> 1000 * Paid(tx) >= env.minTxFee * tx.size)
      && o.fetched && o.connected && o.fees >= env.minFee(e.id, size)
  {
  }

  lemma SwitchIff(env: Env, pool: Pool, block: seq<TxId>, e: Entry)
    requires e.id in pool && (e.priority < 576000.0 <==> AgeOf(pool[e.id]) < 576000 * pool[e.id].size)
    ensures var tx, size := pool[e.id], SizeOf(pool, block);
      Promising(env, pool, block, false, e) && Switches(env, pool, block, e) <==>
      && size + tx.size < env.MaxSize()
      && SigopsOf(env, pool, block) + tx.sigops < 20000
      && tx.time <= env.now && (env.stake ==> tx.time <= env.coinbaseTime)
      && (size + tx.size >= env.PrioritySize() || AgeOf(tx) < 576000 * tx.size)
  {
  }

  lemma Threshold(x: real, a: int, s: Size, limit: int)
    requires x * s as real == a as real
    ensures x < limit as real <==> a < limit * s
  {
    var y, d := limit as real, s as real;
    assert y * d == (limit * s) as real;
    if x < y { Scaled(x, y, d); }
    if y < x { Scaled(y, x, d); }
  }

  /** The order at the start: by fee exactly if no space is set aside for priority. */
  lemma OrderAtStart(env: Env, pool: Pool)
    ensures ByFee(env, pool, []) <==> env.optionPriority == 0
  {
    assert env.PrioritySize() == 0 <==> env.optionPriority == 0;
  }

  /** When the order changes: at the first transaction that passes the early checks and would take the
      block past the size set aside for priority, or whose age per byte is below 576000. */
  lemma SwitchesIff(env: Env, pool: Pool, trace: seq<Taken>, n: nat)
    requires Schedule(env, pool, trace) && n < |trace| && !ByFee(env, pool, trace[..n])
    ensures trace[n].id in pool
    ensures var tx, block := pool[trace[n].id], BlockOf(trace[..n]);
      var size := SizeOf(pool, block);
      ByFee(env, pool, trace[..n + 1]) <==>
      && size + tx.size < env.MaxSize()
      && SigopsOf(env, pool, block) + tx.sigops < 20000
      && tx.time <= env.now && (env.stake ==> tx.time <= env.coinbaseTime)
      && (size + tx.size >= env.PrioritySize() || AgeOf(tx) < 576000 * tx.size)
  {
    ScheduleAt(env, pool, trace, n);
    var id := trace[n].id;
    assert trace[..n + 1] == trace[..n] + [trace[n]];
    TraceMore(env, pool, trace[..n], trace[n]);
    CheapIff(pool, id, 576000);
    SwitchIff(env, pool, BlockOf(trace[..n]), EntryOf(pool, id));
  }

  /** The order changes at most once, to fee order. */
  lemma {:induction false} ByFeeStays(env: Env, pool: Pool, trace: seq<Taken>, n: nat)
    requires n <= |trace| && ByFee(env, pool, trace[..n])
    ensures ByFee(env, pool, trace)
  {
    var m := |trace| - 1;
    if n <= m {
      assert trace[..m][..n] == trace[..n];
      ByFeeStays(env, pool, trace[..m], n);
    } else {
      assert trace[..n] == trace;
    }
  }

  /** No transaction stands twice, and each comes after all its pool parents. */
  ghost predicate InOrder(pool: Pool, block: seq<TxId>) {
    && (forall i, j :: 0 <= i < j < |block| ==> block[i] != block[j])
    && (forall j :: 0 <= j < |block| ==> Wanted(pool, block[j]))
    && (forall j, parent :: 0 <= j < |block| && parent in ParentsOf(pool, block[j]) ==> parent in block[..j])
  }

  lemma InOrderMore(pool: Pool, block: seq<TxId>, id: TxId)
    requires InOrder(pool, block) && Follows(pool, block, id)
    ensures InOrder(pool, block + [id])
  {
    var more := block + [id];
    forall j, parent | 0 <= j < |more| && parent in ParentsOf(pool, more[j]) ensures parent in more[..j] {
      assert more[..j] == block[..j];
      assert block[..|block|] == block;
    }
  }

  lemma {:induction false} ScheduleInOrder(env: Env, pool: Pool, trace: seq<Taken>)
    requires Schedule(env, pool, trace)
    ensures InOrder(pool, BlockOf(trace))
  {
    if trace != [] {
      var n := |trace| - 1;
      ScheduleInOrder(env, pool, trace[..n]);
      if trace[n].joined { InOrderMore(pool, BlockOf(trace[..n]), trace[n].id); }
    }
  }

  /** A block that is not empty stays below its limits. */
  ghost predicate Within(env: Env, pool: Pool, block: seq<TxId>) {
    block == [] || (SizeOf(pool, block) < env.MaxSize() && SigopsOf(env, pool, block) < MAX_BLOCK_SIGOPS)
  }

  lemma {:induction false} ScheduleWithin(env: Env, pool: Pool, trace: seq<Taken>)
    requires Schedule(env, pool, trace)
    ensures Within(env, pool, BlockOf(trace))
  {
    if trace != [] {
      var n := |trace| - 1;
      ScheduleWithin(env, pool, trace[..n]);
      SumsMore(env, pool, BlockOf(trace[..n]), trace[n].id);
    }
  }

  /** Taken in a run and found not admissible then, in the order in force then. */
  ghost predicate RefusedIn(env: Env, pool: Pool, trace: seq<Taken>, id: TxId) {
    exists n :: 0 <= n < |trace| && RefusedAt(env, pool, trace, id, n)
  }

  ghost predicate RefusedAt(env: Env, pool: Pool, trace: seq<Taken>, id: TxId, n: nat)
    requires n < |trace|
  {
    && trace[n] == Taken(id, false) && id in pool
    && !Admissible(env, pool, BlockOf(trace[..n]), ByFee(env, pool, trace[..n]), EntryOf(pool, id))
  }

  lemma {:induction false} RefusedWere(env: Env, pool: Pool, trace: seq<Taken>, id: TxId)
    requires Schedule(env, pool, trace) && id in RefusedOf(trace)
    ensures RefusedIn(env, pool, trace, id)
  {
    var m := |trace| - 1;
    if id in RefusedOf(trace[..m]) {
      RefusedWere(env, pool, trace[..m], id);
      var n :| 0 <= n < m && RefusedAt(env, pool, trace[..m], id, n);
      assert trace[..m][..n] == trace[..n] && trace[..m][n] == trace[n];
      assert RefusedAt(env, pool, trace, id, n);
    } else {
      assert RefusedAt(env, pool, trace, id, m);
    }
  }

  /** In the block, taken and refused, or short of a parent that is not in the block. */
  ghost predicate AccountedFor(env: Env, pool: Pool, trace: seq<Taken>, id: TxId) {
    || id in BlockOf(trace)
    || RefusedIn(env, pool, trace, id)
    || exists parent :: parent in ParentsOf(pool, id) && parent !in BlockOf(trace)
  }

  /** Nothing is lost when a run leaves nothing to take. */
  lemma NothingLost(env: Env, pool: Pool, trace: seq<Taken>, id: TxId)
    requires Schedule(env, pool, trace) && Exhausted(pool, trace) && Wanted(pool, id)
    ensures AccountedFor(env, pool, trace, id)
  {
    assert !IsReady(pool, trace, id);
    if id in RefusedOf(trace) {
      RefusedWere(env, pool, trace, id);
    } else if id !in BlockOf(trace) {
      NothingLeft(ParentsOf(pool, id), Elems(BlockOf(trace)));
      var parent := Sets.Witness(ParentsOf(pool, id) - Elems(BlockOf(trace)));
    }
  }

  /** Different wanted transactions differ in priority or fee. */
  ghost predicate NoTies(pool: Pool) {
    forall x, y {:trigger EntryOf(pool, x), EntryOf(pool, y)} :: Wanted(pool, x) && Wanted(pool, y) && x != y ==>
      EntryOf(pool, x).priority != EntryOf(pool, y).priority || EntryOf(pool, x).feePerKb != EntryOf(pool, y).feePerKb
  }

  lemma SameNext(env: Env, pool: Pool, trace: seq<Taken>, a: Taken, b: Taken)
    requires NoTies(pool) && MayTake(env, pool, trace, a) && MayTake(env, pool, trace, b)
    ensures a == b
  {
    var x, y, byFee := EntryOf(pool, a.id), EntryOf(pool, b.id), ByFee(env, pool, trace);
    assert IsReady(pool, trace, a.id) && IsReady(pool, trace, b.id);
    assert !Less(x, y, byFee) && !Less(y, x, byFee);
  }

  /** Without ties the run is determined: of two runs one begins with the other. */
  lemma {:induction false} OneSchedule(env: Env, pool: Pool, a: seq<Taken>, b: seq<Taken>)
    requires NoTies(pool) && Schedule(env, pool, a) && Schedule(env, pool, b) && |a| <= |b|
    ensures a == b[..|a|]
  {
    if a != [] {
      var n := |a| - 1;
      var trace := a[..n];
      OneSchedule(env, pool, trace, b);
      ScheduleAt(env, pool, b, n);
      SameNext(env, pool, trace, a[n], b[n]);
      OneMore(a, b, n);
    }
  }

  lemma OneMore<T>(a: seq<T>, b: seq<T>, n: nat)
    requires |a| == n + 1 <= |b| && a[..n] == b[..n] && a[n] == b[n]
    ensures a == b[..n + 1]
  {
    assert a == a[..n] + [a[n]] && b[..n + 1] == b[..n] + [b[n]];
  }

  /** So two finished runs give the same block. */
  lemma OneBlock(env: Env, pool: Pool, a: seq<Taken>, b: seq<Taken>)
    requires NoTies(pool) && Schedule(env, pool, a) && Schedule(env, pool, b)
    requires Exhausted(pool, a) && Exhausted(pool, b)
    ensures a == b && BlockOf(a) == BlockOf(b)
  {
    if |a| < |b| { OneSchedule(env, pool, a, b); ScheduleAt(env, pool, b, |a|); }
    if |b| < |a| { OneSchedule(env, pool, b, a); ScheduleAt(env, pool, a, |b|); }
    OneSchedule(env, pool, a, b);
    assert b[..|b|] == b;
  }

  // ----- collecting the pool -----

  function DependersOf(dependers: map<TxId, seq<TxId>>, h: TxId): seq<TxId> {
    if h in dependers then dependers[h] else []
  }

  /** The two records of who waits for whom agree. */
  ghost predicate Mirror(deps: map<TxId, set<TxId>>, dependers: map<TxId, seq<TxId>>) {
    forall h, o {:trigger Waits(deps, dependers, h, o)} :: Waits(deps, dependers, h, o)
  }

  ghost predicate Waits(deps: map<TxId, set<TxId>>, dependers: map<TxId, seq<TxId>>, h: TxId, o: TxId) {
    o in DependersOf(dependers, h) <==> o in deps && h in deps[o]
  }

  /** The lists of dependers name those that wait, and those of `done` that were given up after some
      parents had been recorded. */
  ghost predicate Noted(pool: Pool, done: set<TxId>, deps: map<TxId, set<TxId>>, dependers: map<TxId, seq<TxId>>) {
    forall h, o {:trigger IsNoted(pool, done, deps, dependers, h, o)} :: IsNoted(pool, done, deps, dependers, h, o)
  }

  ghost predicate IsNoted(pool: Pool, done: set<TxId>, deps: map<TxId, set<TxId>>, dependers: map<TxId, seq<TxId>>,
                          h: TxId, o: TxId) {
    o in DependersOf(dependers, h) <==> (o in deps && h in deps[o]) || (o in done && h in Left(pool, o))
  }

  /** What the pool says of who is listed for whom: the wanted ones with their parents, and what is
      left of those given up. */
  ghost predicate Linked(pool: Pool, dependers: map<TxId, seq<TxId>>) {
    forall h, o {:trigger IsLinked(pool, dependers, h, o)} :: IsLinked(pool, dependers, h, o)
  }

  ghost predicate IsLinked(pool: Pool, dependers: map<TxId, seq<TxId>>, h: TxId, o: TxId) {
    o in DependersOf(dependers, h) <==> (Wanted(pool, o) && h in ParentsOf(pool, o)) || h in Left(pool, o)
  }

  lemma NotedStep(pool: Pool, done: set<TxId>, deps: map<TxId, set<TxId>>, dependers: map<TxId, seq<TxId>>,
                  o: TxId, h: TxId)
    requires Noted(pool, done, deps, dependers)
    ensures Noted(pool, done, deps[o := (if o in deps then deps[o] else {}) + {h}],
              dependers[h := DependersOf(dependers, h) + [o]])
  {
    var deps' := deps[o := (if o in deps then deps[o] else {}) + {h}];
    var dependers' := dependers[h := DependersOf(dependers, h) + [o]];
    forall x, y ensures IsNoted(pool, done, deps', dependers', x, y) {
      assert IsNoted(pool, done, deps, dependers, x, y);
    }
  }

  /** Giving a transaction up removes the orphan, but not its name from the lists. */
  lemma NotedGone(pool: Pool, done: set<TxId>, deps: map<TxId, set<TxId>>, dependers: map<TxId, seq<TxId>>, id: TxId)
    requires Noted(pool, done, deps, dependers) && id !in done
    requires Left(pool, id) == if id in deps then deps[id] else {}
    ensures Noted(pool, done + {id}, deps - {id}, dependers)
  {
    forall x, y ensures IsNoted(pool, done + {id}, deps - {id}, dependers, x, y) {
      assert IsNoted(pool, done, deps, dependers, x, y);
    }
  }

  lemma NotedKept(pool: Pool, done: set<TxId>, deps: map<TxId, set<TxId>>, dependers: map<TxId, seq<TxId>>, id: TxId)
    requires Noted(pool, done, deps, dependers) && Left(pool, id) == {}
    ensures Noted(pool, done + {id}, deps, dependers)
  {
    forall x, y ensures IsNoted(pool, done + {id}, deps, dependers, x, y) {
      assert IsNoted(pool, done, deps, dependers, x, y);
    }
  }

  /** The records agree, so that no list names a removed orphan, exactly if every transaction gone
      through is safe. */
  lemma MirrorIffSafe(pool: Pool, done: set<TxId>, queue: multiset<Entry>, deps: map<TxId, set<TxId>>,
                      dependers: map<TxId, seq<TxId>>)
    requires Gathered(pool, done, queue, deps) && Noted(pool, done, deps, dependers) && done <= pool.Keys
    ensures Mirror(deps, dependers) <==>
      forall id :: id in done && !pool[id].excluded ==> Safe(pool, pool[id].inputs)
  {
    if Mirror(deps, dependers) {
      forall id | id in done && !pool[id].excluded ensures Safe(pool, pool[id].inputs) {
        LeftIffUnsafe(pool, id);
        if Left(pool, id) != {} { LeftBreaks(pool, done, queue, deps, dependers, id); }
      }
    }
    if forall id :: id in done && !pool[id].excluded ==> Safe(pool, pool[id].inputs) {
      forall h, o ensures Waits(deps, dependers, h, o) {
        assert IsNoted(pool, done, deps, dependers, h, o);
        if o in done && !pool[o].excluded { LeftIffUnsafe(pool, o); }
      }
    }
  }

  lemma LeftBreaks(pool: Pool, done: set<TxId>, queue: multiset<Entry>, deps: map<TxId, set<TxId>>,
                   dependers: map<TxId, seq<TxId>>, id: TxId)
    requires Gathered(pool, done, queue, deps) && Noted(pool, done, deps, dependers)
    requires id in done && Left(pool, id) != {}
    ensures !Mirror(deps, dependers)
  {
    var h := Sets.Witness(Left(pool, id));
    assert IsNoted(pool, done, deps, dependers, h, id);
    assert !Waits(deps, dependers, h, id);
  }

  /** Giving up one transaction leaves the records in agreement exactly if it is safe. */
  lemma GivenUp(pool: Pool, done: set<TxId>, deps: map<TxId, set<TxId>>, before: map<TxId, seq<TxId>>,
                after: map<TxId, seq<TxId>>, id: TxId)
    requires id in pool && !pool[id].excluded && id !in done && id !in deps && Mirror(deps, before)
    requires Noted(pool, done, deps, before) && Noted(pool, done + {id}, deps, after)
    ensures Mirror(deps, after) <==> Safe(pool, pool[id].inputs)
  {
    LeftIffUnsafe(pool, id);
    if Left(pool, id) != {} {
      var h := Sets.Witness(Left(pool, id));
      assert IsNoted(pool, done + {id}, deps, after, h, id);
      assert !Waits(deps, after, h, id);
    } else {
      forall h, o ensures Waits(deps, after, h, o) {
        assert IsNoted(pool, done, deps, before, h, o) && IsNoted(pool, done + {id}, deps, after, h, o);
        assert Waits(deps, before, h, o);
      }
    }
  }

  /** Two transactions: one without pool parents, and one that spends from it and then from a
      transaction nobody knows. The second is given up, and the list of the first keeps naming it. */
  lemma UnsafePool(a: TxId, b: TxId, gone: TxId, queue: multiset<Entry>, deps: map<TxId, set<TxId>>,
                   dependers: map<TxId, seq<TxId>>)
    requires a != b && gone != a && gone != b
    ensures var pool: Pool := map[a := Tx([], 1, 0, 0, 0, false),
              b := Tx([Input(a, false, 0, 0), Input(gone, false, 0, 0)], 1, 0, 0, 0, false)];
      && !Safe(pool, pool[b].inputs) && Wanted(pool, a) && !Wanted(pool, b) && Left(pool, b) == {a}
      && (Gathered(pool, pool.Keys, queue, deps) && Noted(pool, pool.Keys, deps, dependers) ==>
          b in DependersOf(dependers, a) && b !in deps)
  {
    var inputs := [Input(a, false, 0, 0), Input(gone, false, 0, 0)];
    var pool: Pool := map[a := Tx([], 1, 0, 0, 0, false), b := Tx(inputs, 1, 0, 0, 0, false)];
    assert Parents(inputs, 0) == {} && Parents(inputs, 1) == {a};
    assert Missing(pool, inputs[1]) && !Missing(pool, inputs[0]);
    assert Reach(pool, inputs, 0) == 1;
    LeftIffUnsafe(pool, b);
    if Gathered(pool, pool.Keys, queue, deps) && Noted(pool, pool.Keys, deps, dependers) {
      assert IsNoted(pool, pool.Keys, deps, dependers, a, b);
    }
  }

  /** After going through `done`: each wanted transaction there is queued or waits, nothing else is. */
  ghost predicate Gathered(pool: Pool, done: set<TxId>, queue: multiset<Entry>, deps: map<TxId, set<TxId>>) {
    && QueueOk(pool, queue)
    && (forall id {:trigger Stands(pool, done, queue, deps, id)} :: Wanted(pool, id) ==>
          Stands(pool, done, queue, deps, id))
    && (forall o {:trigger deps[o]} :: o in deps ==> o in done && Wanted(pool, o) && deps[o] == ParentsOf(pool, o))
  }

  ghost predicate Stands(pool: Pool, done: set<TxId>, queue: multiset<Entry>, deps: map<TxId, set<TxId>>, id: TxId) {
    if id in done then Placed(pool, {}, {}, {}, queue, deps, id) else queue[EntryOf(pool, id)] == 0
  }

  lemma GatherNone(pool: Pool, done: set<TxId>, queue: multiset<Entry>, deps: map<TxId, set<TxId>>, id: TxId)
    requires Gathered(pool, done, queue, deps) && !Wanted(pool, id)
    ensures Gathered(pool, done + {id}, queue, deps)
  {
    forall x | Wanted(pool, x) ensures Stands(pool, done + {id}, queue, deps, x) {
      assert Stands(pool, done, queue, deps, x);
    }
  }

  lemma GatherOne(pool: Pool, done: set<TxId>, queue: multiset<Entry>, deps: map<TxId, set<TxId>>, id: TxId,
                  queue': multiset<Entry>, deps': map<TxId, set<TxId>>)
    requires Gathered(pool, done, queue, deps) && Wanted(pool, id) && id !in done
    requires var parents := ParentsOf(pool, id);
      if parents == {} then deps' == deps && queue' == queue + multiset{EntryOf(pool, id)}
      else deps' == deps[id := parents] && queue' == queue
    ensures Gathered(pool, done + {id}, queue', deps')
  {
    forall x {:trigger queue'[x]} | x in queue' ensures Wanted(pool, x.id) && x == EntryOf(pool, x.id) {
      assert x == EntryOf(pool, id) || queue[x] > 0;
    }
    forall x | Wanted(pool, x) ensures Stands(pool, done + {id}, queue', deps', x) {
      assert Stands(pool, done, queue, deps, x);
      assert x != id ==> queue'[EntryOf(pool, x)] == queue[EntryOf(pool, x)];
      if x == id {
        assert ParentsOf(pool, id) - {} == ParentsOf(pool, id);
      }
    }
  }

  /** The records are as the pool says. */
  lemma GatheredAll(pool: Pool, queue: multiset<Entry>, deps: map<TxId, set<TxId>>, dependers: map<TxId, seq<TxId>>)
    requires Gathered(pool, pool.Keys, queue, deps) && Noted(pool, pool.Keys, deps, dependers)
    ensures AllPlaced(pool, {}, {}, queue, deps) && Linked(pool, dependers) && OnlyWanted(pool, deps)
  {
    forall id | Wanted(pool, id) ensures Placed(pool, {}, {}, {}, queue, deps, id) {
      assert Stands(pool, pool.Keys, queue, deps, id);
    }
    forall h, o ensures IsLinked(pool, dependers, h, o) {
      assert IsNoted(pool, pool.Keys, deps, dependers, h, o);
      if Wanted(pool, o) { assert Placed(pool, {}, {}, {}, queue, deps, o); }
    }
  }

  ghost predicate OnlyWanted(pool: Pool, deps: map<TxId, set<TxId>>) {
    forall o {:trigger deps[o]} :: o in deps ==> Wanted(pool, o)
  }

  // ----- the queue holds exactly what is ready -----

  lemma QueueIsReady(env: Env, pool: Pool, trace: seq<Taken>, queue: multiset<Entry>, deps: map<TxId, set<TxId>>,
                     id: TxId)
    requires AllPlaced(pool, Elems(BlockOf(trace)), RefusedOf(trace), queue, deps)
    ensures IsReady(pool, trace, id) <==> EntryOf(pool, id) in queue
  {
    var block := Elems(BlockOf(trace));
    if Wanted(pool, id) {
      assert Placed(pool, block, block, RefusedOf(trace), queue, deps, id);
    } else {
      assert EntryOf(pool, id) in queue ==> queue[EntryOf(pool, id)] > 0;
    }
  }

  /** Taking a highest entry of the queue is what the schedule asks for. */
  lemma TopMayBeTaken(env: Env, pool: Pool, trace: seq<Taken>, queue: multiset<Entry>, deps: map<TxId, set<TxId>>,
                      e: Entry)
    requires AllPlaced(pool, Elems(BlockOf(trace)), RefusedOf(trace), queue, deps) && e in queue
    requires forall x :: x in queue ==> !Less(e, x, ByFee(env, pool, trace))
    ensures e == EntryOf(pool, e.id) && e.id in pool
    ensures MayTake(env, pool, trace,
              Taken(e.id, Admissible(env, pool, BlockOf(trace), ByFee(env, pool, trace), EntryOf(pool, e.id))))
  {
    assert queue[e] > 0;
    QueueIsReady(env, pool, trace, queue, deps, e.id);
    forall x {:trigger IsReady(pool, trace, x)} | IsReady(pool, trace, x)
      ensures !Less(e, EntryOf(pool, x), ByFee(env, pool, trace))
    {
      QueueIsReady(env, pool, trace, queue, deps, x);
    }
  }
}
