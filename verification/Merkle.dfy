/** Merkle trees in a flat array: building, extracting a branch and checking one. */
module Merkle {
  import BlockTree
  import opened Seqs

  type Hash = BlockTree.Hash

  /** The hash of two concatenated hashes. */
  type PairHash = (Hash, Hash) -> Hash

  /** No two pairs have the same hash. */
  ghost predicate Injective(h: PairHash) {
    forall a, b, c, d {:trigger Apart(h, a, b, c, d)} :: Apart(h, a, b, c, d)
  }

  ghost predicate Apart(h: PairHash, a: Hash, b: Hash, c: Hash, d: Hash) { h(a, b) == h(c, d) ==> a == c && b == d }

  // ----- the tree level by level -----

  /** The level above: neighbours hashed together, a last one without neighbour with itself. */
  function Up(h: PairHash, level: seq<Hash>): (r: seq<Hash>)
    ensures |r| == (|level| + 1) / 2
  {
    if level == [] then []
    else if |level| == 1 then [h(level[0], level[0])]
    else [h(level[0], level[1])] + Up(h, level[2..])
  }

  /** All levels from the leaves up, one after the other. */
  function Tree(h: PairHash, level: seq<Hash>): seq<Hash>
    decreases |level|
  {
    if |level| <= 1 then level else level + Tree(h, Up(h, level))
  }

  function Root(h: PairHash, level: seq<Hash>): Hash
    requires level != []
    decreases |level|
  {
    if |level| == 1 then level[0] else Root(h, Up(h, level))
  }

  /** The sibling hashes on the way from leaf `i` to the root. */
  function Branch(h: PairHash, level: seq<Hash>, i: nat): seq<Hash>
    decreases |level|
  {
    if |level| <= 1 then []
    else [level[Min(Sibling(i), |level| - 1)]] + Branch(h, Up(h, level), i / 2)
  }

  /** i ^ 1 */
  function Sibling(i: nat): nat { if i % 2 == 0 then i + 1 else i - 1 }

  function Height(n: nat): nat
    decreases n
  {
    if n <= 1 then 0 else 1 + Height((n + 1) / 2)
  }

  /** Hashing up from a leaf with the siblings of a branch. */
  function Climb(h: PairHash, leaf: Hash, branch: seq<Hash>, i: int): Hash
    decreases |branch|
  {
    if branch == [] then leaf
    else Climb(h, if i % 2 == 1 then h(branch[0], leaf) else h(leaf, branch[0]), branch[1..], i / 2)
  }

  // ----- correctness -----

  /** The node above place `i` combines the node there with its sibling. */
  lemma {:induction false} UpAt(h: PairHash, level: seq<Hash>, i: nat)
    requires i < |level|
    ensures var s := level[Min(Sibling(i), |level| - 1)];
      Up(h, level)[i / 2] == if i % 2 == 1 then h(s, level[i]) else h(level[i], s)
  {
    if i >= 2 {
      UpAt(h, level[2..], i - 2);
      assert Min(Sibling(i), |level| - 1) == Min(Sibling(i - 2), |level| - 3) + 2;
    }
  }

  lemma ClimbStep(h: PairHash, leaf: Hash, branch: seq<Hash>, i: int)
    requires branch != []
    ensures Climb(h, leaf, branch, i) ==
      Climb(h, if i % 2 == 1 then h(branch[0], leaf) else h(leaf, branch[0]), branch[1..], i / 2)
  {
  }

  /** The branch of leaf `i` leads from leaf `i` to the root. */
  lemma {:induction false} BranchChecks(h: PairHash, level: seq<Hash>, i: nat)
    requires i < |level|
    ensures |Branch(h, level, i)| == Height(|level|)
    ensures Climb(h, level[i], Branch(h, level, i), i) == Root(h, level)
    decreases |level|
  {
    if |level| > 1 {
      UpAt(h, level, i);
      BranchChecks(h, Up(h, level), i / 2);
      var b := Branch(h, level, i);
      assert b[1..] == Branch(h, Up(h, level), i / 2);
      ClimbStep(h, level[i], b, i);
    }
  }

  /** A node determines the two nodes it was made of. */
  lemma SamePair(h: PairHash, level: seq<Hash>, i: nat, leaf: Hash, other: Hash)
    requires Injective(h) && i < |level|
    requires Up(h, level)[i / 2] == if i % 2 == 1 then h(other, leaf) else h(leaf, other)
    ensures leaf == level[i] && other == level[Min(Sibling(i), |level| - 1)]
  {
    UpAt(h, level, i);
    var s := level[Min(Sibling(i), |level| - 1)];
    assert Apart(h, other, leaf, s, level[i]) && Apart(h, leaf, other, level[i], s);
  }

  /** With an injective pair hash nothing but leaf `i` checks to the root at place `i`, and the only
      branch it checks with is its own. */
  lemma {:induction false} CheckedIsLeaf(h: PairHash, level: seq<Hash>, i: nat, leaf: Hash, branch: seq<Hash>)
    requires Injective(h) && i < |level| && |branch| == Height(|level|)
    requires Climb(h, leaf, branch, i) == Root(h, level)
    ensures leaf == level[i] && branch == Branch(h, level, i)
    decreases |level|
  {
    if |level| > 1 {
      ClimbStep(h, leaf, branch, i);
      var up := if i % 2 == 1 then h(branch[0], leaf) else h(leaf, branch[0]);
      CheckedIsLeaf(h, Up(h, level), i / 2, up, branch[1..]);
      SamePair(h, level, i, leaf, branch[0]);
      assert branch == [branch[0]] + branch[1..];
    }
  }

  /** With an injective pair hash the root determines a list among those of its length. */
  lemma RootDetermines(h: PairHash, a: seq<Hash>, b: seq<Hash>)
    requires Injective(h) && |a| == |b| > 0 && Root(h, a) == Root(h, b)
    ensures a == b
  {
    forall i | 0 <= i < |a| ensures a[i] == b[i] {
      BranchChecks(h, a, i);
      CheckedIsLeaf(h, b, i, a[i], Branch(h, a, i));
    }
  }

  // ----- which lists have one root -----

  /** Which of n leaves the i-th leaf of the filled-up tree is a copy of: wherever a level is odd, what
      belongs to its last node is repeated. */
  function Source(n: nat, i: nat): (s: nat)
    requires n > 0
    ensures s < n
    decreases n
  {
    if n == 1 then 0 else Min(2 * Source((n + 1) / 2, i / 2) + i % 2, n - 1)
  }

  /** The i-th leaf of the filled-up tree. */
  function Filled(level: seq<Hash>, i: nat): Hash
    requires level != []
  {
    level[Source(|level|, i)]
  }

  ghost predicate SameFilled(a: seq<Hash>, b: seq<Hash>)
    requires a != [] && b != []
  {
    forall i: nat {:trigger SameAt(a, b, i)} :: SameAt(a, b, i)
  }

  ghost predicate SameAt(a: seq<Hash>, b: seq<Hash>, i: nat)
    requires a != [] && b != []
  {
    Filled(a, i) == Filled(b, i)
  }

  /** A node of the filled-up tree hashes the two below it. */
  lemma FilledUp(h: PairHash, level: seq<Hash>, i: nat)
    requires |level| > 1
    ensures Filled(Up(h, level), i) == h(Filled(level, 2 * i), Filled(level, 2 * i + 1))
  {
    var s := Source((|level| + 1) / 2, i);
    SourceUp(|level|, i, s);
    UpAt(h, level, 2 * s);
    assert 2 * s / 2 == s && Sibling(2 * s) == 2 * s + 1;
  }

  lemma SourceUp(n: nat, i: nat, s: nat)
    requires n > 1 && s == Source((n + 1) / 2, i)
    ensures 2 * s < n && Source(n, 2 * i) == 2 * s && Source(n, 2 * i + 1) == Min(2 * s + 1, n - 1)
  {
    assert (2 * i) / 2 == i && (2 * i) % 2 == 0 && (2 * i + 1) / 2 == i && (2 * i + 1) % 2 == 1;
  }

  /** Lists whose trees are of one height have the same root exactly if they fill up to the same leaves. */
  lemma {:induction false} OneHeightRoots(h: PairHash, a: seq<Hash>, b: seq<Hash>)
    requires Injective(h) && a != [] && b != [] && Height(|a|) == Height(|b|)
    ensures Root(h, a) == Root(h, b) <==> SameFilled(a, b)
    decreases |a|
  {
    if |a| == 1 {
      SingleLeaves(a, b);
    } else {
      OneHeightRoots(h, Up(h, a), Up(h, b));
      SameUp(h, a, b);
    }
  }

  lemma SingleLeaves(a: seq<Hash>, b: seq<Hash>)
    requires |a| == |b| == 1
    ensures SameFilled(a, b) <==> a[0] == b[0]
  {
    assert Source(1, 0) == 0;
    if SameFilled(a, b) { assert SameAt(a, b, 0); }
  }

  /** The nodes above agree exactly if the leaves do. */
  lemma SameUp(h: PairHash, a: seq<Hash>, b: seq<Hash>)
    requires Injective(h) && |a| > 1 && |b| > 1
    ensures SameFilled(a, b) <==> SameFilled(Up(h, a), Up(h, b))
  {
    var ua, ub := Up(h, a), Up(h, b);
    if SameFilled(a, b) {
      forall i: nat ensures SameAt(ua, ub, i) { NodesAgree(h, a, b, i); }
    }
    if SameFilled(ua, ub) {
      forall j: nat ensures SameAt(a, b, 2 * j) && SameAt(a, b, 2 * j + 1) {
        assert SameAt(ua, ub, j);
        PairsAgree(h, a, b, j);
      }
      EvenAndOdd(a, b);
    }
  }

  lemma EvenAndOdd(a: seq<Hash>, b: seq<Hash>)
    requires a != [] && b != []
    requires forall j: nat {:trigger SameAt(a, b, 2 * j)} :: SameAt(a, b, 2 * j) && SameAt(a, b, 2 * j + 1)
    ensures SameFilled(a, b)
  {
    forall i: nat ensures SameAt(a, b, i) {
      var j := i / 2;
      assert SameAt(a, b, 2 * j);
      assert i == 2 * j || i == 2 * j + 1;
    }
  }

  lemma NodesAgree(h: PairHash, a: seq<Hash>, b: seq<Hash>, i: nat)
    requires |a| > 1 && |b| > 1 && SameFilled(a, b)
    ensures SameAt(Up(h, a), Up(h, b), i)
  {
    assert SameAt(a, b, 2 * i) && SameAt(a, b, 2 * i + 1);
    FilledUp(h, a, i);
    FilledUp(h, b, i);
  }

  lemma PairsAgree(h: PairHash, a: seq<Hash>, b: seq<Hash>, j: nat)
    requires Injective(h) && |a| > 1 && |b| > 1 && SameAt(Up(h, a), Up(h, b), j)
    ensures SameAt(a, b, 2 * j) && SameAt(a, b, 2 * j + 1)
  {
    FilledUp(h, a, j);
    FilledUp(h, b, j);
    assert Apart(h, Filled(a, 2 * j), Filled(a, 2 * j + 1), Filled(b, 2 * j), Filled(b, 2 * j + 1));
  }

  /** The level k steps above. */
  function Lift(h: PairHash, level: seq<Hash>, k: nat): seq<Hash>
    decreases k
  {
    if k == 0 then level else Lift(h, Up(h, level), k - 1)
  }

  /** Exactly when two lists have one root: the one with the lower tree fills up to the same nodes as
      the other one does at that height. */
  lemma {:induction false} SameRootIff(h: PairHash, a: seq<Hash>, b: seq<Hash>, k: nat)
    requires Injective(h) && a != [] && b != [] && Height(|b|) == Height(|a|) + k
    ensures Lift(h, b, k) != [] && (Root(h, a) == Root(h, b) <==> SameFilled(a, Lift(h, b, k)))
    decreases k
  {
    if k == 0 { OneHeightRoots(h, a, b); } else { SameRootIff(h, a, Up(h, b), k - 1); }
  }

  /** A list of odd length and the same list with its last element repeated. */
  lemma {:induction false} RepeatedTail(h: PairHash, level: seq<Hash>)
    requires |level| % 2 == 1
    ensures Up(h, level + [level[|level| - 1]]) == Up(h, level)
    ensures |level| > 1 ==> Root(h, level + [level[|level| - 1]]) == Root(h, level)
  {
    var more := level + [level[|level| - 1]];
    if |level| > 1 {
      RepeatedTail(h, level[2..]);
      assert more[2..] == level[2..] + [level[|level| - 1]];
    } else {
      assert more[2..] == [];
    }
  }

  lemma {:induction false} TreeEndsWithRoot(h: PairHash, level: seq<Hash>)
    requires level != []
    ensures Tree(h, level)[|Tree(h, level)| - 1] == Root(h, level)
    decreases |level|
  {
    if |level| > 1 {
      var up := Up(h, level);
      TreeEndsWithRoot(h, up);
      assert Tree(h, level) == level + Tree(h, up);
    }
  }

  lemma TreeStep(h: PairHash, below: seq<Hash>, level: seq<Hash>, up: seq<Hash>)
    requires |level| > 1 && up == Up(h, level)
    ensures below + Tree(h, level) == (below + level) + Tree(h, up)
  {
    var rest := Tree(h, up);
    assert Tree(h, level) == level + rest;
    Associates(below, level, rest);
  }

  /** What one step of extracting a branch reads from the tree. */
  lemma BranchStep(h: PairHash, tree: seq<Hash>, j: nat, level: seq<Hash>, i: nat)
    requires |level| > 1 && j <= |tree| && tree[j..] == Tree(h, level)
    ensures j + |level| <= |tree| && tree[j + |level|..] == Tree(h, Up(h, level))
    ensures var s := Min(Sibling(i), |level| - 1);
      Branch(h, level, i) == [tree[j + s]] + Branch(h, Up(h, level), i / 2)
  {
    var s, up := Min(Sibling(i), |level| - 1), Up(h, level);
    assert tree[j..] == level + Tree(h, up);
    assert tree[j + s] == tree[j..][s] == level[s];
    assert tree[j + |level|..] == tree[j..][|level|..];
  }

  /** A branch is extracted up to a level of the tree, which starts at place j. */
  ghost predicate Extracting(h: PairHash, tree: seq<Hash>, j: nat, level: seq<Hash>, i: nat, branch: seq<Hash>,
                             whole: seq<Hash>) {
    j <= |tree| && tree[j..] == Tree(h, level) && whole == branch + Branch(h, level, i)
  }

  lemma ExtractStep(h: PairHash, tree: seq<Hash>, j: nat, level: seq<Hash>, i: nat, branch: seq<Hash>, whole: seq<Hash>)
    requires |level| > 1 && Extracting(h, tree, j, level, i, branch, whole)
    ensures var s := Min(Sibling(i), |level| - 1);
      && j + s < |tree|
      && Extracting(h, tree, j + |level|, Up(h, level), i / 2, branch + [tree[j + s]], whole)
  {
    BranchStep(h, tree, j, level, i);
    var s, rest := Min(Sibling(i), |level| - 1), Branch(h, Up(h, level), i / 2);
    Associates(branch, [tree[j + s]], rest);
  }

  // ----- the block's methods -----

  class Block {
    const hash: PairHash
    var vtx: seq<Hash>
    var tree: seq<Hash>

    constructor (hash: PairHash, vtx: seq<Hash>)
      ensures this.hash == hash && this.vtx == vtx && tree == []
    {
      this.hash, this.vtx, tree := hash, vtx, [];
    }

    /** Rebuilds the flat tree and answers its root (0 for no transactions). */
    method BuildMerkleTree() returns (root: Hash)
      modifies `tree
      ensures tree == Tree(hash, vtx)
      ensures root == if vtx == [] then 0 else Root(hash, vtx)
    {
      tree := vtx;
      var j := 0;
      var size := |vtx|;
      ghost var level := vtx;
      ghost var below := [];
      while size > 1
        invariant size == |level| && tree == below + level && j == |below|
        invariant Tree(hash, vtx) == below + Tree(hash, level)
        decreases size
      {
        AddLevel(j, size, below, level);
        TreeStep(hash, below, level, Up(hash, level));
        j := j + size;
        below, level := below + level, Up(hash, level);
        size := (size + 1) / 2;
      }
      if vtx != [] { TreeEndsWithRoot(hash, vtx); }
      root := if tree == [] then 0 else tree[|tree| - 1];
    }

    /** Appends the level above the last one, which starts at `j`. */
    method AddLevel(j: nat, size: nat, ghost below: seq<Hash>, ghost level: seq<Hash>)
      requires tree == below + level && j == |below| && size == |level|
      modifies `tree
      ensures tree == below + level + Up(hash, level)
    {
      ghost var up := Up(hash, level);
      var i := 0;
      while i < size
        invariant 0 <= i <= size + 1 && i % 2 == 0 && i / 2 <= |up|
        invariant tree == below + level + up[..i / 2]
      {
        var i2 := Min(i + 1, size - 1);
        assert tree[j + i] == level[i] && tree[j + i2] == level[i2];
        UpAt(hash, level, i);
        assert up[..i / 2 + 1] == up[..i / 2] + [up[i / 2]];
        tree := tree + [hash(tree[j + i], tree[j + i2])];
        i := i + 2;
      }
      assert up[..i / 2] == up;
    }

    /** The branch of transaction `index`, from the cached tree if there is one. */
    method GetMerkleBranch(index: nat) returns (branch: seq<Hash>)
      requires tree == [] || tree == Tree(hash, vtx)
      modifies `tree
      ensures tree == Tree(hash, vtx)
      ensures branch == Branch(hash, vtx, index)
    {
      if tree == [] { var _ := BuildMerkleTree(); }
      branch := [];
      var t, j, i, size := tree, 0, index, |vtx|;
      ghost var level, whole := vtx, Branch(hash, vtx, index);
      while size > 1
        invariant tree == t
        invariant size == |level| && Extracting(hash, t, j, level, i, branch, whole)
        decreases size
      {
        ExtractStep(hash, t, j, level, i, branch, whole);
        branch := branch + [t[j + Min(Sibling(i), size - 1)]];
        i := i / 2;
        j := j + size;
        level := Up(hash, level);
        size := (size + 1) / 2;
      }
    }
  }

  /** Hashes up from `leaf`; index -1 stands for "not in a block". */
  method CheckMerkleBranch(h: PairHash, leaf: Hash, branch: seq<Hash>, index: int) returns (r: Hash)
    ensures r == if index == -1 then 0 else Climb(h, leaf, branch, index)
  {
    if index == -1 { return 0; }
    var i := index;
    r := leaf;
    for n := 0 to |branch|
      invariant Climb(h, leaf, branch, index) == Climb(h, r, branch[n..], i)
    {
      assert branch[n..][1..] == branch[n + 1..];
      if i % 2 == 1 { r := h(branch[n], r); } else { r := h(r, branch[n]); }
      i := i / 2;
    }
  }

  /** A branch extracted from a block checks its transaction against the block's root. */
  method ExtractAndCheck(b: Block, index: nat) returns (ok: bool)
    requires index < |b.vtx| && (b.tree == [] || b.tree == Tree(b.hash, b.vtx))
    modifies b`tree
    ensures ok
  {
    var root := b.BuildMerkleTree();
    var branch := b.GetMerkleBranch(index);
    var r := CheckMerkleBranch(b.hash, b.vtx[index], branch, index);
    BranchChecks(b.hash, b.vtx, index);
    ok := r == root;
  }
}
