/** Block locators: exponentially spaced hashes by which another node finds a recent common block. */
module Locator {
  import opened BlockTree
  import opened Digits

  // ----- spacing -----

  /** How far the k-th entry is stepped back from to reach the next one. */
  function StepFrom(k: nat): nat { if k <= 10 then 1 else 2 * StepFrom(k - 1) }

  /** How far back the k-th entry is. */
  function Distance(k: nat): nat { if k == 0 then 0 else Distance(k - 1) + StepFrom(k - 1) }

  /** Ten single steps, then doubling: beyond them each distance is the last step plus nine. */
  lemma {:induction false} Spacing(k: nat)
    ensures StepFrom(k) >= 1
    ensures k <= 10 ==> Distance(k) == k
    ensures k >= 10 ==> Distance(k) == 9 + StepFrom(k)
  {
    if k > 0 { Spacing(k - 1); }
  }

  /** The first entry at least `d` back is exactly there up to 11, and at most 2d - 11 back beyond. */
  lemma FirstPast(k: nat, d: nat)
    requires d <= Distance(k) && (k > 0 ==> Distance(k - 1) < d)
    ensures Distance(k) <= if d <= 11 then d else 2 * d - 11
  {
    Spacing(k);
    if k > 0 { Spacing(k - 1); }
    if k > 1 { Spacing(k - 2); }
  }

  // ----- the locator -----

  /** The locator of a block: its ancestors at those distances, and then the genesis block. */
  ghost predicate IsLocator(t: Tree, tip: Hash, genesis: Hash, have: seq<Hash>)
    requires WellFormed(t) && tip in t
  {
    && |have| > 1 && have[|have| - 1] == genesis
    && (forall k :: 0 <= k < |have| - 1 ==> Entry(t, tip, have[k], k))
    && Distance(|have| - 1) > t[tip].height
  }

  ghost predicate Entry(t: Tree, tip: Hash, h: Hash, k: nat)
    requires WellFormed(t) && tip in t
  {
    Distance(k) <= t[tip].height && h == Back(t, tip, Distance(k))
  }

  /** A block has one locator. */
  lemma OneLocator(t: Tree, tip: Hash, genesis: Hash, a: seq<Hash>, b: seq<Hash>)
    requires WellFormed(t) && tip in t && IsLocator(t, tip, genesis, a) && IsLocator(t, tip, genesis, b)
    ensures a == b
  {
    SameSize(t, tip, genesis, a, b);
    SameSize(t, tip, genesis, b, a);
    forall k | 0 <= k < |a| ensures a[k] == b[k] {
      if k < |a| - 1 { assert Entry(t, tip, a[k], k) && Entry(t, tip, b[k], k); }
    }
  }

  lemma SameSize(t: Tree, tip: Hash, genesis: Hash, a: seq<Hash>, b: seq<Hash>)
    requires WellFormed(t) && tip in t && IsLocator(t, tip, genesis, a) && IsLocator(t, tip, genesis, b)
    ensures |a| <= |b|
  {
    if |b| < |a| { Near(t, tip, genesis, a, |b| - 1); }
  }

  lemma Near(t: Tree, tip: Hash, genesis: Hash, have: seq<Hash>, k: nat)
    requires WellFormed(t) && tip in t && IsLocator(t, tip, genesis, have) && k < |have| - 1
    ensures Distance(k) <= t[tip].height
  {
    assert Entry(t, tip, have[k], k);
  }

  /** How many blocks are walked to: all of them up to height 10, and beyond 11 more than the logarithm
      of the height less nine. */
  lemma LocatorSize(t: Tree, tip: Hash, genesis: Hash, have: seq<Hash>)
    requires WellFormed(t) && tip in t && IsLocator(t, tip, genesis, have)
    ensures var n, height := |have| - 1, t[tip].height;
      if height <= 10 then n == height + 1 else n >= 11 && Power(2, n - 11) <= height - 9 < Power(2, n - 10)
  {
    var n := |have| - 1;
    assert Entry(t, tip, have[n - 1], n - 1);
    FirstBeyond(n, t[tip].height);
  }

  lemma FirstBeyond(n: nat, height: nat)
    requires n > 0 && Distance(n - 1) <= height < Distance(n)
    ensures if height <= 10 then n == height + 1 else n >= 11 && Power(2, n - 11) <= height - 9 < Power(2, n - 10)
  {
    Spacing(n);
    Spacing(n - 1);
    if n >= 11 {
      Doubles(n);
      Doubles(n - 1);
    }
    if n > 11 { PowerPositive(2, n - 12); }
  }

  lemma {:induction false} Doubles(k: nat)
    requires k >= 10
    ensures StepFrom(k) == Power(2, k - 10)
  {
    if k > 10 { Doubles(k - 1); }
  }

  class BlockLocator {
    var have: seq<Hash>

    constructor ()
      ensures have == []
    {
      have := [];
    }

    method Set(t: Tree, tip: Option<Hash>, genesis: Hash)
      requires WellFormed(t) && (tip.Some? ==> tip.value in t)
      modifies this
      ensures tip.None? ==> have == [genesis]
      ensures tip.Some? ==> IsLocator(t, tip.value, genesis, have)
    {
      have := [];
      var step := 1;
      var at := tip;
      while at.Some?
        invariant step == StepFrom(|have|) && (tip.None? ==> at.None? && have == [])
        invariant tip.Some? ==> forall k :: 0 <= k < |have| ==> Entry(t, tip.value, have[k], k)
        invariant tip.Some? ==> At(t, tip.value, at, Distance(|have|))
        decreases if tip.Some? then t[tip.value].height + 1 - Distance(|have|) else 0
      {
        ghost var n := |have|;
        Spacing(n);
        assert Distance(n + 1) == Distance(n) + StepFrom(n);
        have := have + [at.value];
        at := StepBack(t, tip.value, at, step, Distance(n));
        if |have| > 10 { step := step * 2; }
      }
      have := have + [genesis];
    }
  }

  /** Where a walk that went `n` back from the tip is. */
  ghost predicate At(t: Tree, tip: Hash, at: Option<Hash>, n: nat)
    requires WellFormed(t) && tip in t
  {
    if n <= t[tip].height then at == Some(Back(t, tip, n)) else at == None
  }

  method StepBack(t: Tree, ghost tip: Hash, from: Option<Hash>, step: nat, ghost n: nat) returns (at: Option<Hash>)
    requires WellFormed(t) && tip in t && At(t, tip, from, n)
    ensures At(t, tip, at, n + step)
  {
    at := from;
    var i := 0;
    while at.Some? && i < step
      invariant 0 <= i <= step && At(t, tip, at, n + i)
    {
      assert LinkOk(t, at.value);
      if n + i < t[tip].height { BackAdd(t, tip, n + i, 1); }
      at := t[at.value].pprev;
      i := i + 1;
    }
  }

  // ----- finding the fork -----

  /** The place of the first locator entry in the main chain, if any. */
  ghost function FirstIn(have: seq<Hash>, main: set<Hash>): (k: nat)
    ensures k <= |have| && (k < |have| ==> have[k] in main) && forall j :: 0 <= j < k ==> have[j] !in main
  {
    if have == [] || have[0] in main then 0 else 1 + FirstIn(have[1..], main)
  }

  /** The first locator entry in the main chain, or else the genesis block. */
  method GetBlockIndex(have: seq<Hash>, main: set<Hash>, genesis: Hash) returns (h: Hash)
    ensures var k := FirstIn(have, main);
      h == if k < |have| then have[k] else genesis
  {
    for i := 0 to |have|
      invariant i <= FirstIn(have, main)
    {
      if have[i] in main { return have[i]; }
    }
    return genesis;
  }

  /** How far back the sender's branch had to be followed. */
  method GetDistanceBack(have: seq<Hash>, main: set<Hash>) returns (d: nat)
    ensures d == Distance(FirstIn(have, main))
  {
    d := 0;
    var step := 1;
    for i := 0 to |have|
      invariant i <= FirstIn(have, main)
      invariant d == Distance(i) && step == StepFrom(i)
    {
      if have[i] in main { return; }
      d := d + step;
      Spacing(i);
      Spacing(i + 1);
      if d > 10 { step := step * 2; }
    }
  }

  /** The main chain: the best block and its ancestors. */
  ghost predicate IsMain(t: Tree, best: Hash, main: set<Hash>)
    requires WellFormed(t)
  {
    best in t && forall h {:trigger h in main} :: h in main <==> AncestorOrSelf(t, h, best)
  }

  /** All branches start at the genesis block. */
  ghost predicate Rooted(t: Tree, genesis: Hash) {
    genesis in t && forall h :: h in t && t[h].height == 0 ==> h == genesis
  }

  /** The fork: the nearest ancestor of the tip, itself included, in the main chain, `d` back. */
  ghost predicate ForksAt(t: Tree, tip: Hash, main: set<Hash>, d: nat)
    requires WellFormed(t) && tip in t
  {
    d <= t[tip].height && Back(t, tip, d) in main && forall e: nat :: e < d ==> Back(t, tip, e) !in main
  }

  lemma ForkExists(t: Tree, tip: Hash, genesis: Hash, best: Hash, main: set<Hash>) returns (d: nat)
    requires WellFormed(t) && tip in t && Rooted(t, genesis) && IsMain(t, best, main)
    ensures ForksAt(t, tip, main, d) && Back(t, tip, t[tip].height) == genesis
  {
    var height := t[tip].height;
    assert Back(t, best, t[best].height) == genesis;
    assert AncestorOrSelf(t, genesis, best);
    d := 0;
    while Back(t, tip, d) !in main
      invariant d <= height && forall e: nat :: e < d ==> Back(t, tip, e) !in main
      decreases height - d
    {
      assert d != height;
      d := d + 1;
    }
  }

  /** From the fork on the branch of the tip is the main chain. */
  lemma MainFromFork(t: Tree, tip: Hash, best: Hash, main: set<Hash>, d: nat, e: nat)
    requires WellFormed(t) && tip in t && IsMain(t, best, main) && ForksAt(t, tip, main, d) && e <= t[tip].height
    ensures Back(t, tip, e) in main <==> e >= d
  {
    if e >= d {
      var fork, a := Back(t, tip, d), Back(t, tip, e);
      BackAdd(t, tip, d, e - d);
      assert AncestorOrSelf(t, a, fork);
      AncestorTransitive(t, a, fork, best);
    }
  }

  /** The block found is on the common trunk: exactly the fork up to 11 blocks back, and at most
      2d - 11 back beyond; and the reported distance is its true distance, or no less than it when
      only the trailing genesis entry matched. */
  method FindFork(t: Tree, tip: Hash, genesis: Hash, have: seq<Hash>, ghost best: Hash, main: set<Hash>)
    returns (h: Hash, distance: nat, ghost d: nat, ghost e: nat)
    requires WellFormed(t) && tip in t && Rooted(t, genesis)
    requires IsLocator(t, tip, genesis, have) && IsMain(t, best, main)
    ensures ForksAt(t, tip, main, d) && h in main && d <= e <= t[tip].height && h == Back(t, tip, e)
    ensures e <= if d <= 11 then d else 2 * d - 11
    ensures distance >= e && (h in have[..|have| - 1] ==> distance == e)
  {
    h := GetBlockIndex(have, main, genesis);
    distance := GetDistanceBack(have, main);
    d := ForkExists(t, tip, genesis, best, main);
    ghost var k := FirstIn(have, main);
    MainFromFork(t, tip, best, main, d, t[tip].height);
    assert k < |have|;
    if k < |have| - 1 {
      assert Entry(t, tip, have[k], k);
      e := Distance(k);
    } else {
      e := t[tip].height;
    }
    ForkBound(t, tip, genesis, have, best, main, d, k);
  }

  lemma ForkBound(t: Tree, tip: Hash, genesis: Hash, have: seq<Hash>, best: Hash, main: set<Hash>, d: nat, k: nat)
    requires WellFormed(t) && tip in t && Back(t, tip, t[tip].height) == genesis
    requires IsLocator(t, tip, genesis, have) && IsMain(t, best, main) && ForksAt(t, tip, main, d)
    requires k < |have| && have[k] in main && forall j :: 0 <= j < k ==> have[j] !in main
    ensures var e := if k < |have| - 1 then Distance(k) else t[tip].height;
      d <= e <= if d <= 11 then d else 2 * d - 11
  {
    if k > 0 {
      assert Entry(t, tip, have[k - 1], k - 1);
      MainFromFork(t, tip, best, main, d, Distance(k - 1));
    }
    if k < |have| - 1 {
      assert Entry(t, tip, have[k], k);
      MainFromFork(t, tip, best, main, d, Distance(k));
    }
    assert d <= Distance(k);
    FirstPast(k, d);
  }
}
