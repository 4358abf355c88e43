/** The synchronized-checkpoint protocol: one current checkpoint, one pending one, and a gate on new blocks. */
module Checkpoints {
  import opened BlockTree

  datatype Mode = Strict | Advisory | Permissive

  /** Outcomes of the database, disk and chain operations that the protocol only reacts to. */
  datatype Outcome = Outcome(inMainChain: bool, blockRead: bool, bestChainSet: bool, written: bool)

  /** A checkpoint message; `signed` says whether its signature verifies. */
  datatype Message = NullMessage | Message(hash: Hash, signed: bool)

  class Node {
    const testnet: bool
    const mode: Mode
    var index: Tree
    var sync: Hash
    var pending: Hash
    var invalid: Hash
    var message: Message
    var pendingMessage: Message

    ghost predicate Valid()
      reads this
    {
      WellFormed(index) && sync in index
    }

    ghost function Now(): State
      reads this
    {
      State(index, sync)
    }

    ghost function All(): Protocol
      reads this
    {
      Protocol(index, sync, pending, invalid, message, pendingMessage)
    }

    constructor (testnet: bool, mode: Mode, index: Tree, sync: Hash)
      requires WellFormed(index) && sync in index
      ensures Valid() && Now() == State(index, sync) && this.testnet == testnet && this.mode == mode
      ensures pending == sync && Matching(All())
    {
      this.testnet, this.mode, this.index, this.sync := testnet, mode, index, sync;
      pending, invalid, message, pendingMessage := sync, 0, NullMessage, NullMessage;
    }

    /** Walks back from `h` to the given height. In a well-formed index no predecessor is missing
        on the way, so the walks' error exits are never taken. */
    method WalkBack(h: Hash, height: nat) returns (at: Hash)
      requires WellFormed(index) && h in index
      ensures at in index
      ensures at == if index[h].height >= height then Back(index, h, index[h].height - height) else h
    {
      at := h;
      while index[at].height > height
        invariant at in index && index[at].height <= index[h].height
        invariant if index[h].height >= height then index[at].height >= height else at == h
        invariant at == Back(index, h, index[h].height - index[at].height)
        decreases index[at].height
      {
        assert LinkOk(index, at);
        BackAdd(index, h, index[h].height - index[at].height, 1);
        at := index[at].pprev.value;
      }
    }

    /** Accepts exactly the strict descendants of the current checkpoint, and marks exactly the
        blocks on a conflicting branch as invalid. */
    method Validate(hash: Hash) returns (ok: bool)
      requires WellFormed(index)
      modifies `invalid
      ensures ok <==> StrictAncestor(index, sync, hash)
      ensures invalid == if Conflict(index, sync, hash) then hash else old(invalid)
    {
      if sync !in index { return false; }
      if hash !in index { return false; }
      if index[hash].height <= index[sync].height {
        var at := WalkBack(sync, index[hash].height);
        if at != hash { invalid := hash; }
        return false;
      }
      var at := WalkBack(hash, index[sync].height);
      if at != sync {
        invalid := hash;
        return false;
      }
      return true;
    }

    method WriteSync(hash: Hash, written: bool) returns (ok: bool)
      modifies `sync
      ensures ok == written && sync == if written then hash else old(sync)
    {
      if !written { return false; }
      sync := hash;
      return true;
    }

    /** Receives a checkpoint message. */
    method Process(msg: Message, o: Outcome) returns (ok: bool)
      requires Valid() && msg.Message?
      modifies `sync, `pending, `invalid, `message, `pendingMessage
      ensures Valid()
      ensures ok <==> msg.signed && StrictAncestor(index, old(sync), msg.hash) &&
                      (o.inMainChain || (o.blockRead && o.bestChainSet)) && o.written
      ensures ok ==> sync == msg.hash && pending == 0 && message == msg && pendingMessage == NullMessage
      ensures !ok ==> sync == old(sync) && message == old(message)
      ensures !ok ==> if msg.signed && msg.hash !in index
                      then pending == msg.hash && pendingMessage == msg
                      else pending == old(pending) && pendingMessage == old(pendingMessage)
      ensures invalid == if msg.signed && (Conflict(index, old(sync), msg.hash) ||
                           (StrictAncestor(index, old(sync), msg.hash) &&
                            !o.inMainChain && o.blockRead && !o.bestChainSet))
                         then msg.hash else old(invalid)
      ensures Follows(old(Now()), Now())
      ensures old(Settled(All())) ==> Settled(All())
      ensures old(Matching(All())) ==> Matching(All())
    {
      if !msg.signed { SameFollows(Now()); return false; }
      if msg.hash !in index {
        pending, pendingMessage := msg.hash, msg;
        SameFollows(Now());
        return false;
      }
      var valid := Validate(msg.hash);
      if !valid { SameFollows(Now()); return false; }
      if !o.inMainChain {
        if !o.blockRead { SameFollows(Now()); return false; }
        if !o.bestChainSet {
          invalid := msg.hash;
          SameFollows(Now());
          return false;
        }
      }
      var written := WriteSync(msg.hash, o.written);
      if !written { SameFollows(Now()); return false; }
      message, pending, pendingMessage := msg, 0, NullMessage;
      return true;
    }

    /** Tries the pending checkpoint, once its block has arrived. */
    method AcceptPending(o: Outcome) returns (ok: bool)
      requires Valid()
      modifies `sync, `pending, `invalid, `message, `pendingMessage
      ensures Valid()
      ensures ok <==> old(pending) != 0 && StrictAncestor(index, old(sync), old(pending)) &&
                      (o.inMainChain || (o.blockRead && o.bestChainSet)) && o.written
      ensures ok ==> sync == old(pending) && message == old(pendingMessage)
      ensures !ok ==> sync == old(sync) && message == old(message)
      ensures ok || (old(pending) in index && !StrictAncestor(index, old(sync), old(pending)) && old(pending) != 0) ==>
                pending == 0 && pendingMessage == NullMessage
      ensures !ok && (old(pending) !in index || StrictAncestor(index, old(sync), old(pending))) ==>
                pending == old(pending) && pendingMessage == old(pendingMessage)
      ensures old(pending) == 0 ==> All() == old(All())
      ensures invalid == if old(pending) != 0 && (Conflict(index, old(sync), old(pending)) ||
                           (StrictAncestor(index, old(sync), old(pending)) &&
                            !o.inMainChain && o.blockRead && !o.bestChainSet))
                         then old(pending) else old(invalid)
      ensures All() == AfterPending(old(All()), o)
      ensures Follows(old(Now()), Now())
      ensures Settled(All())
      ensures old(Matching(All())) ==> Matching(All())
    {
      if pending != 0 && pending in index {
        var valid := Validate(pending);
        if !valid {
          pending, pendingMessage := 0, NullMessage;
          SameFollows(Now());
          return false;
        }
        if !o.inMainChain {
          if !o.blockRead { SameFollows(Now()); return false; }
          if !o.bestChainSet {
            invalid := pending;
            SameFollows(Now());
            return false;
          }
        }
        var written := WriteSync(pending, o.written);
        if !written { SameFollows(Now()); return false; }
        pending, message := 0, pendingMessage;
        pendingMessage := NullMessage;
        return true;
      }
      SameFollows(Now());
      return false;
    }

    /** The gate: may a block with this hash follow `prev`? On the main network a block that is
        not indexed yet passes exactly if it would descend from the current checkpoint. */
    method CheckSync(hash: Hash, prev: Hash) returns (ok: bool)
      requires Valid() && prev in index
      ensures testnet ==> ok
      ensures !testnet && hash !in index ==> (ok <==> AncestorOrSelf(index, sync, prev))
      ensures !testnet && hash in index && index[hash].pprev == Some(prev) ==>
                (ok <==> index[hash].height < index[sync].height || AncestorOrSelf(index, sync, hash))
    {
      if testnet { return true; }
      var height := index[prev].height + 1;
      assert LinkOk(index, hash);
      if hash in index && index[hash].pprev == Some(prev) { ParentStep(index, hash, prev); }
      if height > index[sync].height {
        var at := WalkBack(prev, index[sync].height);
        if index[at].height < index[sync].height || at != sync { return false; }
      }
      if height == index[sync].height && hash != sync { return false; }
      if height < index[sync].height && hash !in index { return false; }
      return true;
    }

    /** The checks on a block `b`, `otherwiseValid` for all but the checkpoint gate. One that passes is
        indexed. */
    method AddToIndex(hash: Hash, b: BlockIndex, otherwiseValid: bool) returns (passed: bool)
      requires Valid()
      modifies `index
      ensures Valid()
      ensures passed <==>
        && hash !in old(index) && b.pprev.Some? && b.pprev.value in old(index) && otherwiseValid
        && (mode.Strict? && !testnet ==> AncestorOrSelf(old(index), old(sync), b.pprev.value))
      ensures passed ==> index == old(index)[hash := b.(height := old(index)[b.pprev.value].height + 1)]
      ensures !passed ==> index == old(index)
      ensures mode.Strict? && !testnet ==> Follows(old(Now()), Now())
      ensures mode.Strict? && !testnet && old(Settled(All())) ==> Settled(All())
    {
      SameFollows(Now());
      if hash in index { return false; }
      if b.pprev.None? || b.pprev.value !in index { return false; }
      if !otherwiseValid { return false; }
      var prev := b.pprev.value;
      var satisfied := CheckSync(hash, prev);
      if mode.Strict? && !satisfied { return false; }
      var added := b.(height := index[prev].height + 1);
      AddedBlock(index, hash, added);
      ghost var before := Now();
      index := index[hash := added];
      if mode.Strict? && !testnet {
        AncestorGrows(before.index, index, sync, sync);
        if pending in before.index { AncestorGrows(before.index, index, sync, pending); }
      }
      return true;
    }

    /** Receives a block, and whether it can be committed and the best chain set. A block that passes the
        checks is indexed; only if the rest succeeds too is the pending checkpoint tried and the block
        reported as accepted. */
    method AcceptBlock(hash: Hash, b: BlockIndex, otherwiseValid: bool, connected: bool, o: Outcome) returns (ok: bool)
      requires Valid()
      modifies `index, `sync, `pending, `invalid, `message, `pendingMessage
      ensures Valid()
      ensures var passes := && hash !in old(index) && b.pprev.Some? && b.pprev.value in old(index) && otherwiseValid
          && (mode.Strict? && !testnet ==> AncestorOrSelf(old(index), old(sync), b.pprev.value));
        && ok == (passes && connected)
        && index == if passes then old(index)[hash := b.(height := old(index)[b.pprev.value].height + 1)]
                    else old(index)
      ensures !ok ==> All() == old(All()).(index := index)
      ensures ok ==> All() == AfterPending(old(All()).(index := index), o)
      ensures ok ==> var moves := old(pending) != 0 && StrictAncestor(index, old(sync), old(pending)) &&
                                  (o.inMainChain || (o.blockRead && o.bestChainSet)) && o.written;
        && sync == (if moves then old(pending) else old(sync))
        && message == (if moves then old(pendingMessage) else old(message))
        && (moves || (old(pending) in index && !StrictAncestor(index, old(sync), old(pending)) && old(pending) != 0) ==>
              pending == 0 && pendingMessage == NullMessage)
      ensures mode.Strict? && !testnet ==> Follows(old(Now()), Now())
      ensures ok || (mode.Strict? && !testnet && old(Settled(All()))) ==> Settled(All())
      ensures old(Matching(All())) ==> Matching(All())
    {
      ghost var before := Now();
      var passed := AddToIndex(hash, b, otherwiseValid);
      if !passed || !connected { return false; }
      ghost var between := Now();
      var _ := AcceptPending(o);
      if mode.Strict? && !testnet { FollowsTransitive(before, between, Now()); }
      return true;
    }
  }

  /** The whole state of the protocol. */
  datatype Protocol = Protocol(index: Tree, sync: Hash, pending: Hash, invalid: Hash, message: Message,
                               pendingMessage: Message)

  /** The pending checkpoint, if its block is known, strictly descends from the current one. */
  ghost predicate Settled(p: Protocol) {
    WellFormed(p.index) && (p.pending == 0 || p.pending !in p.index || StrictAncestor(p.index, p.sync, p.pending))
  }

  /** The messages kept are signed ones for the current and for the pending checkpoint. */
  ghost predicate Matching(p: Protocol) {
    && (p.message.Message? ==> p.message == Message(p.sync, true))
    && (p.pendingMessage.Message? ==> p.pendingMessage == Message(p.pending, true))
  }

  /** What trying the pending checkpoint does: nothing until its block is known; then it becomes the
      checkpoint, or is dropped if it does not descend from the current one, or stays. */
  ghost function AfterPending(p: Protocol, o: Outcome): Protocol
    requires WellFormed(p.index)
  {
    var s, hash := State(p.index, p.sync), p.pending;
    if hash == 0 || hash !in p.index then p
    else
      var invalid := if Refused(s, hash, o) then hash else p.invalid;
      if Accepted(s, hash, o) then Protocol(p.index, hash, 0, invalid, p.pendingMessage, NullMessage)
      else if StrictAncestor(p.index, p.sync, hash) then p.(invalid := invalid)
      else p.(pending := 0, pendingMessage := NullMessage, invalid := invalid)
  }

  datatype State = State(index: Tree, sync: Hash)

  /** The new checkpoint is acceptable and everything it needs succeeds. */
  ghost predicate Accepted(s: State, hash: Hash, o: Outcome)
    requires WellFormed(s.index)
  {
    StrictAncestor(s.index, s.sync, hash) && (o.inMainChain || (o.blockRead && o.bestChainSet)) && o.written
  }

  /** The new checkpoint is marked invalid: on a conflicting branch, or its chain does not connect. */
  ghost predicate Refused(s: State, hash: Hash, o: Outcome)
    requires WellFormed(s.index)
  {
    || Conflict(s.index, s.sync, hash)
    || (StrictAncestor(s.index, s.sync, hash) && !o.inMainChain && o.blockRead && !o.bestChainSet)
  }

  /** What one event may do: blocks are added only below the checkpoint in force, and the
      checkpoint moves only to a strict descendant. */
  ghost predicate Follows(s: State, s': State) {
    && WellFormed(s.index) && WellFormed(s'.index) && s.sync in s.index
    && Grows(s.index, s'.index)
    && AncestorOrSelf(s'.index, s.sync, s'.sync)
    && forall h :: h in s'.index && h !in s.index ==> StrictAncestor(s'.index, s.sync, h)
  }

  lemma SameFollows(s: State)
    requires WellFormed(s.index) && s.sync in s.index
    ensures Follows(s, s)
  {
  }

  // ----- whole runs -----

  /** Steps compose: what holds between neighbours holds between any two states of a run. */
  lemma FollowsTransitive(a: State, b: State, c: State)
    requires Follows(a, b) && Follows(b, c)
    ensures Follows(a, c)
  {
    AncestorGrows(b.index, c.index, a.sync, b.sync);
    AncestorTransitive(c.index, a.sync, b.sync, c.sync);
    forall h | h in c.index && h !in a.index ensures StrictAncestor(c.index, a.sync, h) {
      if h in b.index {
        AncestorGrows(b.index, c.index, a.sync, h);
      } else {
        AncestorTransitive(c.index, a.sync, b.sync, h);
        StrictIsHigher(c.index, a.sync, h);
        StrictIsHigher(c.index, b.sync, h);
      }
    }
  }

  /** The states of a run. */
  ghost predicate IsRun(run: seq<State>) {
    forall i :: 0 <= i < |run| - 1 ==> Follows(run[i], run[i + 1])
  }

  lemma {:induction false} RunFollows(run: seq<State>, i: nat, j: nat)
    requires IsRun(run) && i < j < |run|
    ensures Follows(run[i], run[j])
    decreases j - i
  {
    if j > i + 1 {
      RunFollows(run, i, j - 1);
      FollowsTransitive(run[i], run[j - 1], run[j]);
    }
  }

  /** Safety of a run: a later checkpoint that differs from an earlier one strictly descends from
      it, every block indexed since an earlier checkpoint took force strictly descends from that
      checkpoint, and a checkpoint that was left never comes back. */
  lemma RunSafety(run: seq<State>, i: nat, j: nat)
    requires IsRun(run) && i < j < |run|
    ensures WellFormed(run[j].index)
    ensures run[i].sync != run[j].sync ==> StrictAncestor(run[j].index, run[i].sync, run[j].sync)
    ensures forall h :: h in run[j].index && h !in run[i].index ==> StrictAncestor(run[j].index, run[i].sync, h)
    ensures forall m :: i < m < j && run[i].sync == run[j].sync ==> run[m].sync == run[i].sync
  {
    RunFollows(run, i, j);
    forall m | i < m < j && run[i].sync == run[j].sync ensures run[m].sync == run[i].sync {
      RunFollows(run, i, m);
      RunFollows(run, m, j);
      AncestorGrows(run[m].index, run[j].index, run[i].sync, run[m].sync);
    }
  }

  datatype Event =
    | CheckpointMessage(msg: Message, o: Outcome)
    | NewBlock(hash: Hash, block: BlockIndex, otherwiseValid: bool, connected: bool, o: Outcome)
    | TryPending(o: Outcome)

  /** Events after which the pending checkpoint is settled: a retry, and an accepted block. */
  predicate Settles(e: Event, result: bool) { e.TryPending? || (e.NewBlock? && result) }

  /** Any sequence of events on the main network in strict mode is such a run. */
  method Run(n: Node, events: seq<Event>) returns (ghost run: seq<State>, results: seq<bool>)
    requires n.Valid() && n.mode.Strict? && !n.testnet
    modifies n
    ensures n.Valid() && IsRun(run) && |run| == |events| + 1
    ensures run[0] == old(n.Now()) && run[|events|] == n.Now() && |results| == |events|
    ensures old(Settled(n.All())) || (exists i :: 0 <= i < |events| && Settles(events[i], results[i])) ==>
              Settled(n.All())
    ensures old(Matching(n.All())) ==> Matching(n.All())
  {
    run, results := [n.Now()], [];
    for i := 0 to |events|
      invariant n.Valid() && |run| == i + 1 && IsRun(run) && run[0] == old(n.Now()) && run[i] == n.Now()
      invariant |results| == i
      invariant old(Settled(n.All())) || (exists k :: 0 <= k < i && Settles(events[k], results[k])) ==>
                  Settled(n.All())
      invariant old(Matching(n.All())) ==> Matching(n.All())
    {
      ghost var before := n.Now();
      SameFollows(before);
      var done := false;
      match events[i] {
        case CheckpointMessage(msg, o) => if msg.Message? { done := n.Process(msg, o); }
        case NewBlock(hash, block, otherwiseValid, connected, o) =>
          done := n.AcceptBlock(hash, block, otherwiseValid, connected, o);
        case TryPending(o) => done := n.AcceptPending(o);
      }
      assert Follows(before, n.Now());
      run, results := run + [n.Now()], results + [done];
    }
  }
}
