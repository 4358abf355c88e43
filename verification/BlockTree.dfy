/** The block index: a growing tree of blocks linked to their predecessors. */
module BlockTree {

  datatype Option<+T> = None | Some(value: T)

  type Hash = nat

  /** The fields of a block index entry that the other modules read. */
  datatype BlockIndex = BlockIndex(
    pprev: Option<Hash>,
    height: nat,
    time: nat,
    proofOfStake: bool,
    proofHash: Hash,
    entropyBit: bool,
    generated: bool,
    modifier: nat)

  type Tree = map<Hash, BlockIndex>

  ghost predicate LinkOk(t: Tree, h: Hash) {
    h in t ==>
      match t[h].pprev
      case None => t[h].height == 0
      case Some(p) => p in t && t[h].height == t[p].height + 1
  }

  ghost predicate WellFormed(t: Tree) { forall h {:trigger LinkOk(t, h)} :: LinkOk(t, h) }

  /** The block `n` generations before `h`. */
  ghost function Back(t: Tree, h: Hash, n: nat): (a: Hash)
    requires WellFormed(t) && h in t && n <= t[h].height
    ensures a in t && t[a].height == t[h].height - n
    decreases n
  {
    assert LinkOk(t, h);
    if n == 0 then h else Back(t, t[h].pprev.value, n - 1)
  }

  /** `a` is `d` or one of its ancestors. */
  ghost predicate AncestorOrSelf(t: Tree, a: Hash, d: Hash)
    requires WellFormed(t)
  {
    a in t && d in t && t[a].height <= t[d].height && Back(t, d, t[d].height - t[a].height) == a
  }

  ghost predicate StrictAncestor(t: Tree, a: Hash, d: Hash)
    requires WellFormed(t)
  {
    AncestorOrSelf(t, a, d) && a != d
  }

  /** Two blocks of the tree, neither on the other's branch. */
  ghost predicate Conflict(t: Tree, a: Hash, b: Hash)
    requires WellFormed(t)
  {
    a in t && b in t && !AncestorOrSelf(t, a, b) && !AncestorOrSelf(t, b, a)
  }

  lemma {:induction false} BackAdd(t: Tree, h: Hash, m: nat, n: nat)
    requires WellFormed(t) && h in t && m + n <= t[h].height
    ensures Back(t, h, m + n) == Back(t, Back(t, h, m), n)
    decreases m
  {
    assert LinkOk(t, h);
    if m > 0 { BackAdd(t, t[h].pprev.value, m - 1, n); }
  }

  lemma AncestorTransitive(t: Tree, a: Hash, b: Hash, c: Hash)
    requires WellFormed(t) && AncestorOrSelf(t, a, b) && AncestorOrSelf(t, b, c)
    ensures AncestorOrSelf(t, a, c)
  {
    BackAdd(t, c, t[c].height - t[b].height, t[b].height - t[a].height);
  }

  /** Different blocks of one branch differ in height. */
  lemma StrictIsHigher(t: Tree, a: Hash, d: Hash)
    requires WellFormed(t) && AncestorOrSelf(t, a, d)
    ensures StrictAncestor(t, a, d) <==> t[a].height < t[d].height
  {
  }

  /** The ancestors of a block are its predecessor and that one's ancestors. */
  lemma ParentStep(t: Tree, h: Hash, prev: Hash)
    requires WellFormed(t) && h in t && t[h].pprev == Some(prev)
    ensures StrictAncestor(t, prev, h)
    ensures forall a :: AncestorOrSelf(t, a, h) <==> a == h || AncestorOrSelf(t, a, prev)
  {
    assert LinkOk(t, h);
    assert Back(t, h, 0) == h && Back(t, h, 1) == prev;
  }

  // ----- descent as a chain of links -----

  /** Each element of the chain is the predecessor of the one before it. */
  ghost predicate Chain(t: Tree, c: seq<Hash>) {
    forall i :: 0 <= i < |c| ==> c[i] in t && (i + 1 < |c| ==> t[c[i]].pprev == Some(c[i + 1]))
  }

  /** Being an ancestor is the same as being linked by a chain of predecessors. */
  lemma {:induction false} AncestorIffChain(t: Tree, a: Hash, d: Hash)
    requires WellFormed(t) && d in t
    ensures AncestorOrSelf(t, a, d) <==> exists c: seq<Hash> :: |c| > 0 && c[0] == d && c[|c| - 1] == a && Chain(t, c)
    decreases t[d].height
  {
    assert LinkOk(t, d);
    if AncestorOrSelf(t, a, d) {
      if a == d {
        assert Chain(t, [d]);
      } else {
        var p := t[d].pprev.value;
        AncestorIffChain(t, a, p);
        var c: seq<Hash> :| |c| > 0 && c[0] == p && c[|c| - 1] == a && Chain(t, c);
        assert Chain(t, [d] + c);
      }
    }
    if c: seq<Hash> :| |c| > 0 && c[0] == d && c[|c| - 1] == a && Chain(t, c) {
      if |c| > 1 {
        var p := c[1];
        assert t[c[0]].pprev == Some(p);
        assert Chain(t, c[1..]);
        AncestorIffChain(t, a, p);
      }
    }
  }

  // ----- growth -----

  /** Blocks are only ever added. */
  ghost predicate Grows(t: Tree, t': Tree) { forall h :: h in t ==> h in t' && t'[h] == t[h] }

  lemma {:induction false} BackGrows(t: Tree, t': Tree, h: Hash, n: nat)
    requires WellFormed(t) && WellFormed(t') && Grows(t, t') && h in t && n <= t[h].height
    ensures h in t' && n <= t'[h].height && Back(t', h, n) == Back(t, h, n)
    decreases n
  {
    assert LinkOk(t, h);
    if n > 0 { BackGrows(t, t', t[h].pprev.value, n - 1); }
  }

  lemma AncestorGrows(t: Tree, t': Tree, a: Hash, d: Hash)
    requires WellFormed(t) && WellFormed(t') && Grows(t, t') && d in t
    ensures AncestorOrSelf(t, a, d) <==> AncestorOrSelf(t', a, d)
  {
    if AncestorOrSelf(t, a, d) { BackGrows(t, t', d, t[d].height - t[a].height); }
    if AncestorOrSelf(t', a, d) { BackGrows(t, t', d, t'[d].height - t'[a].height); }
  }

  lemma AddedBlock(t: Tree, h: Hash, b: BlockIndex)
    requires WellFormed(t) && h !in t && b.pprev.Some? && b.pprev.value in t && b.height == t[b.pprev.value].height + 1
    ensures WellFormed(t[h := b]) && Grows(t, t[h := b])
    ensures forall a :: AncestorOrSelf(t, a, b.pprev.value) ==> StrictAncestor(t[h := b], a, h)
  {
    var t' := t[h := b];
    forall x ensures LinkOk(t', x) { assert LinkOk(t, x); }
    forall a | AncestorOrSelf(t, a, b.pprev.value) ensures StrictAncestor(t', a, h) {
      BackGrows(t, t', b.pprev.value, t[b.pprev.value].height - t[a].height);
    }
  }
}
