/** Block assembly as values: transactions waiting for their parents, the priority queue and the block. */
module AssemblyQueue {
  import opened Seqs

  datatype TxId = TxId(hash: nat)

  /** An input: the transaction it spends from, whether that one is on disk, the value it spends and the
      depth of the spent transaction in the main chain. */
  datatype Input = Input(prev: TxId, onDisk: bool, value: int, depth: int)

  type Size = n: nat | n > 0 witness 1

  /** A pool transaction; `excluded` holds for coinbase, coinstake and non-final transactions. */
  datatype Tx = Tx(inputs: seq<Input>, size: Size, sigops: nat, valueOut: int, time: int, excluded: bool)

  type Pool = map<TxId, Tx>

  /** A queue entry: priority, fee per kilobyte and transaction. */
  datatype Entry = Entry(priority: real, feePerKb: real, id: TxId)

  // ----- what is asked of a transaction -----

  /** The transactions not on disk that the first n inputs spend from. */
  function Parents(inputs: seq<Input>, n: nat): set<TxId>
    requires n <= |inputs|
  {
    if n == 0 then {}
    else if inputs[n - 1].onDisk then Parents(inputs, n - 1)
    else Parents(inputs, n - 1) + {inputs[n - 1].prev}
  }

  lemma {:induction false} ParentsAre(inputs: seq<Input>, n: nat, p: TxId)
    requires n <= |inputs|
    ensures p in Parents(inputs, n) <==> exists k :: 0 <= k < n && !inputs[k].onDisk && inputs[k].prev == p
  {
    if n > 0 { ParentsAre(inputs, n - 1, p); }
  }

  predicate Missing(pool: Pool, i: Input) { !i.onDisk && i.prev !in pool }

  /** None of the first n inputs is missing. */
  predicate Complete(pool: Pool, inputs: seq<Input>, n: nat)
    requires n <= |inputs|
  {
    forall k :: 0 <= k < n ==> !Missing(pool, inputs[k])
  }

  /** No input from the pool stands before the first missing one. Complete inputs are safe. */
  predicate Safe(pool: Pool, inputs: seq<Input>) {
    forall k :: 0 <= k < |inputs| && Missing(pool, inputs[k]) && Complete(pool, inputs, k) ==> Parents(inputs, k) == {}
  }

  /** How many inputs come before the first missing one. */
  function Reach(pool: Pool, inputs: seq<Input>, from: nat): (n: nat)
    requires from <= |inputs| && Complete(pool, inputs, from)
    ensures from <= n <= |inputs| && Complete(pool, inputs, n) && (n < |inputs| ==> Missing(pool, inputs[n]))
    decreases |inputs| - from
  {
    if from == |inputs| || Missing(pool, inputs[from]) then from else Reach(pool, inputs, from + 1)
  }

  /** The parents recorded of a transaction before it is given up for a missing input. */
  function Left(pool: Pool, id: TxId): set<TxId> {
    if id !in pool || pool[id].excluded || Wanted(pool, id) then {}
    else Parents(pool[id].inputs, Reach(pool, pool[id].inputs, 0))
  }

  lemma LeftIffUnsafe(pool: Pool, id: TxId)
    requires id in pool && !pool[id].excluded
    ensures Left(pool, id) == {} <==> Safe(pool, pool[id].inputs)
  {
    var inputs := pool[id].inputs;
    var n := Reach(pool, inputs, 0);
    forall k | 0 <= k < |inputs| && Missing(pool, inputs[k]) && Complete(pool, inputs, k) ensures k == n {
      assert !(n < k) && !(k < n);
    }
  }

  /** The transactions that compete for the block. */
  predicate Wanted(pool: Pool, id: TxId) {
    id in pool && !pool[id].excluded && Complete(pool, pool[id].inputs, |pool[id].inputs|)
  }

  function ParentsOf(pool: Pool, id: TxId): set<TxId> {
    if id in pool then Parents(pool[id].inputs, |pool[id].inputs|) else {}
  }

  /** What an input adds to the age of a transaction. */
  function Weight(i: Input): int { if i.onDisk then i.value * i.depth else 0 }

  /** Value times depth over the first n inputs, those on disk. */
  function Age(inputs: seq<Input>, n: nat): int
    requires n <= |inputs|
  {
    if n == 0 then 0 else Age(inputs, n - 1) + Weight(inputs[n - 1])
  }

  function TotalIn(inputs: seq<Input>, n: nat): int
    requires n <= |inputs|
  {
    if n == 0 then 0 else TotalIn(inputs, n - 1) + inputs[n - 1].value
  }

  function EntryFor(id: TxId, tx: Tx, age: int, totalIn: int): Entry {
    Entry(age as real / tx.size as real, (totalIn - tx.valueOut) as real / (tx.size as real / 1000.0), id)
  }

  function Scored(id: TxId, tx: Tx): Entry {
    EntryFor(id, tx, Age(tx.inputs, |tx.inputs|), TotalIn(tx.inputs, |tx.inputs|))
  }

  /** The age is the sum of value times depth over the inputs on disk, and the total that of all values. */
  lemma {:induction false} AgeIsSum(inputs: seq<Input>, n: nat)
    requires n <= |inputs|
    ensures Age(inputs, n) == Sum(seq(n, i requires 0 <= i < n =>
      if inputs[i].onDisk then inputs[i].value * inputs[i].depth else 0))
    ensures TotalIn(inputs, n) == Sum(seq(n, i requires 0 <= i < n => inputs[i].value))
  {
    if n > 0 {
      AgeIsSum(inputs, n - 1);
      var ages := seq(n, i requires 0 <= i < n => if inputs[i].onDisk then inputs[i].value * inputs[i].depth else 0);
      var values := seq(n, i requires 0 <= i < n => inputs[i].value);
      assert ages[..n - 1] == seq(n - 1, i requires 0 <= i < n - 1 =>
        if inputs[i].onDisk then inputs[i].value * inputs[i].depth else 0);
      assert values[..n - 1] == seq(n - 1, i requires 0 <= i < n - 1 => inputs[i].value);
    }
  }

  /** What a transaction pays, and its age. */
  function Paid(tx: Tx): int { TotalIn(tx.inputs, |tx.inputs|) - tx.valueOut }
  function AgeOf(tx: Tx): int { Age(tx.inputs, |tx.inputs|) }

  lemma Quotient(a: int, s: Size)
    ensures a as real / s as real * s as real == a as real
    ensures a as real / (s as real / 1000.0) * s as real == 1000.0 * a as real
  {
    var per, kb := a as real / (s as real / 1000.0), s as real / 1000.0;
    assert per * kb == a as real;
    assert kb * 1000.0 == s as real;
    assert per * s as real == per * kb * 1000.0;
  }

  /** Priority is age over size, the fee what is paid for 1000 bytes. */
  lemma EntryMeans(pool: Pool, id: TxId)
    requires id in pool
    ensures var e, tx := EntryOf(pool, id), pool[id];
      e.priority * tx.size as real == AgeOf(tx) as real && e.feePerKb * tx.size as real == 1000.0 * Paid(tx) as real
  {
    var tx := pool[id];
    Quotient(AgeOf(tx), tx.size);
    Quotient(Paid(tx), tx.size);
  }

  lemma {:induction false} CrossReal(x: real, y: real, s: real, r: real)
    requires s > 0.0 && r > 0.0
    ensures x < y <==> (x * s) * r < (y * r) * s
    ensures x == y <==> (x * s) * r == (y * r) * s
  {
    var d := s * r;
    assert d > 0.0 && (x * s) * r == x * d && (y * r) * s == y * d;
    if x < y { Scaled(x, y, d); }
    if y < x { Scaled(y, x, d); }
  }

  lemma Scaled(x: real, y: real, d: real)
    requires x < y && d > 0.0
    ensures x * d < y * d
  {
    assert (y - x) * d > 0.0;
    assert y * d == x * d + (y - x) * d;
  }

  /** Comparing two quotients of integers is comparing products. */
  lemma Cross(x: real, a: int, s: Size, y: real, b: int, r: Size, unit: int)
    requires unit > 0 && x * s as real == unit as real * a as real && y * r as real == unit as real * b as real
    ensures (x < y <==> a * r < b * s) && (x == y <==> a * r == b * s)
  {
    CrossReal(x, y, s as real, r as real);
    assert (x * s as real) * r as real == (unit * (a * r)) as real;
    assert (y * r as real) * s as real == (unit * (b * s)) as real;
    Unit(a * r, b * s, unit);
  }

  lemma Unit(p: int, q: int, unit: int)
    requires unit > 0
    ensures (unit * p < unit * q <==> p < q) && (unit * p == unit * q <==> p == q)
  {
    if p < q { assert unit * (q - p) > 0; }
    if q < p { assert unit * (p - q) > 0; }
  }

  /** The queue entry of a transaction. */
  function EntryOf(pool: Pool, id: TxId): (e: Entry)
    ensures e.id == id
  {
    if id in pool then Scored(id, pool[id]) else Entry(0.0, 0.0, id)
  }

  // ----- the order of the queue -----

  predicate Less(a: Entry, b: Entry, byFee: bool) {
    if byFee then
      (if a.feePerKb == b.feePerKb then a.priority < b.priority else a.feePerKb < b.feePerKb)
    else
      (if a.priority == b.priority then a.feePerKb < b.feePerKb else a.priority < b.priority)
  }

  predicate IsTop(q: seq<Entry>, i: nat, byFee: bool) {
    i < |q| && forall j :: 0 <= j < |q| ==> !Less(q[i], q[j], byFee)
  }

  lemma {:induction false} TopExists(q: seq<Entry>, byFee: bool) returns (i: nat)
    requires q != []
    ensures IsTop(q, i, byFee)
  {
    i := 0;
    if |q| > 1 {
      var init, last := q[..|q| - 1], q[|q| - 1];
      i := TopExists(init, byFee);
      assert forall j :: 0 <= j < |init| ==> init[j] == q[j];
      if Less(q[i], last, byFee) { i := |q| - 1; }
    }
  }

  lemma TopIsHighest(q: seq<Entry>, i: nat, byFee: bool, x: Entry)
    requires IsTop(q, i, byFee) && x in q
    ensures !Less(q[i], x, byFee)
  {
    var j :| 0 <= j < |q| && q[j] == x;
    assert !Less(q[i], q[j], byFee);
  }

  /** Takes a highest entry off the queue. */
  method Pop(q: seq<Entry>, byFee: bool) returns (e: Entry, rest: seq<Entry>)
    requires q != []
    ensures e in q && forall x :: x in q ==> !Less(e, x, byFee)
    ensures byFee ==> forall x :: x in q ==>
      x.feePerKb < e.feePerKb || (x.feePerKb == e.feePerKb && x.priority <= e.priority)
    ensures !byFee ==> forall x :: x in q ==>
      x.priority < e.priority || (x.priority == e.priority && x.feePerKb <= e.feePerKb)
    ensures multiset(q) == multiset(rest) + multiset{e} && |rest| == |q| - 1
  {
    ghost var top := TopExists(q, byFee);
    var i :| 0 <= i < |q| && IsTop(q, i, byFee);
    e, rest := q[i], q[..i] + q[i + 1..];
    assert q == q[..i] + [q[i]] + q[i + 1..];
    forall x | x in q ensures !Less(e, x, byFee) { TopIsHighest(q, i, byFee, x); }
  }

  // ----- where a transaction stands -----

  /** A wanted transaction is in the block, refused, queued exactly once, or waits for exactly those
      parents that are not yet in the block. `seen` is the part of the block it has been told of. */
  ghost predicate Placed(pool: Pool, block: set<TxId>, seen: set<TxId>, refused: set<TxId>,
                         queue: multiset<Entry>, deps: map<TxId, set<TxId>>, id: TxId) {
    var parents := ParentsOf(pool, id);
    && (id in block || id in refused ==> parents <= seen)
    && !(id in block && id in refused)
    && queue[EntryOf(pool, id)] == (if parents <= seen && id !in block && id !in refused then 1 else 0)
    && (parents != {} ==> id in deps && deps[id] == parents - seen)
  }

  ghost predicate QueueOk(pool: Pool, queue: multiset<Entry>) {
    forall e {:trigger queue[e]} :: e in queue ==> Wanted(pool, e.id) && e == EntryOf(pool, e.id)
  }

  /** Every wanted transaction has its place. */
  ghost predicate AllPlaced(pool: Pool, block: set<TxId>, refused: set<TxId>, queue: multiset<Entry>, deps: map<TxId,
                            set<TxId>>) {
    && QueueOk(pool, queue)
    && (forall id {:trigger Placed(pool, block, block, refused, queue, deps, id)} :: Wanted(pool, id) ==>
        Placed(pool, block, block, refused, queue, deps, id))
  }

  /** After h joined the block, those in `told` know of it. */
  ghost predicate PartlyTold(pool: Pool, block: set<TxId>, h: TxId, told: set<TxId>, refused: set<TxId>,
                             queue: multiset<Entry>, deps: map<TxId, set<TxId>>) {
    && QueueOk(pool, queue)
    && (forall id {:trigger Placed(pool, block, block, refused, queue, deps, id)}
        {:trigger Placed(pool, block, block - {h}, refused, queue, deps, id)} :: Wanted(pool, id) ==>
        Placed(pool, block, if id in told then block else block - {h}, refused, queue, deps, id))
  }

  /** The orphans that still wait. */
  ghost function Waiting(deps: map<TxId, set<TxId>>): set<TxId> { set o | o in deps && deps[o] != {} }

  // ----- steps -----

  /** The transaction taken off the queue is free and neither in the block nor refused. */
  lemma TakenIsFree(pool: Pool, block: set<TxId>, refused: set<TxId>, queue: multiset<Entry>, deps: map<TxId,
                    set<TxId>>, e: Entry)
    requires AllPlaced(pool, block, refused, queue, deps) && e in queue
    ensures Wanted(pool, e.id) && e == EntryOf(pool, e.id) && ParentsOf(pool, e.id) <= block
    ensures e.id !in block && e.id !in refused && queue[e] == 1
  {
    assert queue[e] > 0;
    assert Placed(pool, block, block, refused, queue, deps, e.id);
  }

  lemma Refuse(pool: Pool, block: set<TxId>, refused: set<TxId>, queue: multiset<Entry>, deps: map<TxId, set<TxId>>,
               e: Entry, rest: multiset<Entry>)
    requires AllPlaced(pool, block, refused, queue, deps) && queue == rest + multiset{e}
    ensures AllPlaced(pool, block, refused + {e.id}, rest, deps)
  {
    TakenIsFree(pool, block, refused, queue, deps, e);
    RestOk(pool, queue, e, rest);
    forall id | Wanted(pool, id) ensures Placed(pool, block, block, refused + {e.id}, rest, deps, id) {
      assert Placed(pool, block, block, refused, queue, deps, id);
      RestCount(pool, queue, e, rest, id);
    }
  }

  lemma RestOk(pool: Pool, queue: multiset<Entry>, e: Entry, rest: multiset<Entry>)
    requires QueueOk(pool, queue) && queue == rest + multiset{e}
    ensures QueueOk(pool, rest)
  {
    forall x {:trigger rest[x]} | x in rest ensures Wanted(pool, x.id) && x == EntryOf(pool, x.id) {
      assert queue[x] > 0;
    }
  }

  lemma RestCount(pool: Pool, queue: multiset<Entry>, e: Entry, rest: multiset<Entry>, id: TxId)
    requires queue == rest + multiset{e} && e == EntryOf(pool, e.id)
    ensures queue[EntryOf(pool, id)] == rest[EntryOf(pool, id)] + if id == e.id then 1 else 0
  {
  }

  /** A transaction joins the block; nobody has been told yet. */
  lemma Join(pool: Pool, block: set<TxId>, refused: set<TxId>, queue: multiset<Entry>, deps: map<TxId, set<TxId>>,
             e: Entry, rest: multiset<Entry>)
    requires AllPlaced(pool, block, refused, queue, deps) && queue == rest + multiset{e}
    ensures PartlyTold(pool, block + {e.id}, e.id, {}, refused, rest, deps)
  {
    TakenIsFree(pool, block, refused, queue, deps, e);
    RestOk(pool, queue, e, rest);
    var h := e.id;
    assert block + {h} - {h} == block;
    forall id | Wanted(pool, id) ensures Placed(pool, block + {h}, block + {h} - {h}, refused, rest, deps, id) {
      assert Placed(pool, block, block, refused, queue, deps, id);
      RestCount(pool, queue, e, rest, id);
    }
  }

  /** Telling one depender, which may leave it free for the queue. */
  lemma Tell(pool: Pool, block: set<TxId>, h: TxId, told: set<TxId>, refused: set<TxId>, queue: multiset<Entry>,
             deps: map<TxId, set<TxId>>, o: TxId, queue': multiset<Entry>, deps': map<TxId, set<TxId>>)
    requires PartlyTold(pool, block, h, told, refused, queue, deps) && h in block
    requires Wanted(pool, o) && h in ParentsOf(pool, o) && o !in told
    requires o in deps && deps' == deps[o := deps[o] - {h}]
    requires queue' == if deps'[o] == {} then queue + multiset{EntryOf(pool, o)} else queue
    ensures PartlyTold(pool, block, h, told + {o}, refused, queue', deps')
  {
    assert Placed(pool, block, block - {h}, refused, queue, deps, o);
    forall x {:trigger queue'[x]} | x in queue' ensures Wanted(pool, x.id) && x == EntryOf(pool, x.id) {
      assert x == EntryOf(pool, o) || queue[x] > 0;
    }
    forall id | Wanted(pool, id)
      ensures Placed(pool, block, if id in told + {o} then block else block - {h}, refused, queue', deps', id)
    {
      assert Placed(pool, block, if id in told then block else block - {h}, refused, queue, deps, id);
      if id == o {
        TellOne(pool, block, h, refused, queue, deps, o, queue', deps');
      }
    }
  }

  lemma TellOne(pool: Pool, block: set<TxId>, h: TxId, refused: set<TxId>, queue: multiset<Entry>,
                deps: map<TxId, set<TxId>>, o: TxId, queue': multiset<Entry>, deps': map<TxId, set<TxId>>)
    requires Placed(pool, block, block - {h}, refused, queue, deps, o) && h in block && h in ParentsOf(pool, o)
    requires o in deps && deps' == deps[o := deps[o] - {h}]
    requires queue' == if deps'[o] == {} then queue + multiset{EntryOf(pool, o)} else queue
    ensures Placed(pool, block, block, refused, queue', deps', o)
  {
    var parents := ParentsOf(pool, o);
    assert !(parents <= block - {h});
    assert deps'[o] == parents - block;
    NothingLeft(parents, block);
  }

  lemma NothingLeft<T>(a: set<T>, b: set<T>)
    ensures a - b == {} <==> a <= b
  {
    if a - b == {} {
      forall x | x in a ensures x in b { assert x !in a - b; }
    }
  }

  /** Once all dependers are told, everything is in place again. */
  lemma AllTold(pool: Pool, block: set<TxId>, h: TxId, told: set<TxId>, refused: set<TxId>, queue: multiset<Entry>,
                deps: map<TxId, set<TxId>>)
    requires PartlyTold(pool, block, h, told, refused, queue, deps) && h in block
    requires forall o :: Wanted(pool, o) && h in ParentsOf(pool, o) ==> o in told
    ensures AllPlaced(pool, block, refused, queue, deps)
  {
    forall id | Wanted(pool, id) ensures Placed(pool, block, block, refused, queue, deps, id) {
      assert Placed(pool, block, if id in told then block else block - {h}, refused, queue, deps, id);
      if id !in told {
        var parents := ParentsOf(pool, id);
        assert parents <= block - {h} <==> parents <= block;
        assert parents - (block - {h}) == parents - block;
      }
    }
  }
}
