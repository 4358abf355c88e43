/** The proof-of-stake modifier: 64 rounds of block selection, recomputed once per interval. */
module StakeModifier {
  import opened BlockTree
  import Digits
  import opened Seqs
  import opened Sorting

  const MODIFIER_INTERVAL_RATIO := 3
  const ROUNDS := 64

  /** The modifier interval in seconds and the hash of a proof and a modifier. */
  datatype Params = Params(interval: nat, hash: (Hash, nat) -> Hash)

  datatype Candidate = Candidate(time: nat, hash: Hash)

  predicate Before(a: Candidate, b: Candidate) { a.time < b.time || (a.time == b.time && a.hash <= b.hash) }

  lemma BeforeIsTotal()
    ensures TotalOrder(Before)
  {
  }

  // ----- intervals -----

  function Section(p: Params, s: nat): nat
    requires s < ROUNDS
  {
    p.interval * 63 / (63 + (63 - s) * (MODIFIER_INTERVAL_RATIO - 1))
  }

  /** Sections grow, from a third of the interval to the whole of it. */
  lemma SectionsGrow(p: Params, s: nat, s': nat)
    requires s <= s' < 64
    ensures Section(p, s) <= Section(p, s')
    ensures Section(p, 0) == p.interval / 3 && Section(p, 63) == p.interval
  {
    var a, b := 63 + (63 - s) * 2, 63 + (63 - s') * 2;
    DivideByLess(p.interval * 63, a, b);
    assert p.interval * 63 / 189 == p.interval / 3;
  }

  lemma DivideByLess(x: nat, a: nat, b: nat)
    requires 0 < b <= a
    ensures x / a <= x / b
  {
    var q, r := x / a, x / b;
    assert q * a <= x < r * b + b;
    if r < q {
      Digits.MulGap(r, q, b);
      if b < a { Digits.MulGap(b, a, q); }
    }
  }

  /** The total length of the first `n` sections. */
  function Sections(p: Params, n: nat): nat
    requires n <= ROUNDS
  {
    if n == 0 then 0 else Sections(p, n - 1) + Section(p, n - 1)
  }

  method SelectionInterval(p: Params) returns (r: nat)
    ensures r == Sections(p, ROUNDS)
  {
    r := 0;
    for s := 0 to ROUNDS
      invariant r == Sections(p, s)
    {
      r := r + Section(p, s);
    }
  }

  // ----- selecting one block -----

  /** The hash blocks compete with; proof-of-stake blocks are favoured by a factor of 2^32. */
  function SelectionHash(p: Params, b: BlockIndex, h: Hash, modifier: nat): Hash {
    var s := p.hash(if b.proofOfStake then b.proofHash else h, modifier);
    if b.proofOfStake then s / 0x1_0000_0000 else s
  }

  /** The better of the best so far and a candidate. */
  function Better(p: Params, t: Tree, h: Hash, taken: set<Hash>, modifier: nat, best: Option<Hash>): (r: Option<Hash>)
    requires h in t && (best.Some? ==> best.value in t)
    ensures r.Some? ==> r.value in t
  {
    if h in taken then best
    else if best.Some? && !(SelectionHash(p, t[h], h, modifier) < SelectionHash(p, t[best.value], best.value, modifier))
    then best
    else Some(h)
  }

  /** The scan over candidates from place `i` on, with the best found so far. */
  function Scan(p: Params, t: Tree, cs: seq<Candidate>, i: nat, taken: set<Hash>, stop: int, modifier: nat,
                best: Option<Hash>): Option<Hash>
    requires forall n :: 0 <= n < |cs| ==> cs[n].hash in t
    requires best.Some? ==> best.value in t
    decreases |cs| - i
  {
    if i >= |cs| || (best.Some? && t[cs[i].hash].time > stop) then best
    else Scan(p, t, cs, i + 1, taken, stop, modifier, Better(p, t, cs[i].hash, taken, modifier, best))
  }

  /** Candidates are indexed, carry their block's time, and are sorted without repetition. */
  ghost predicate GoodCandidates(t: Tree, cs: seq<Candidate>) {
    && (forall n :: 0 <= n < |cs| ==> cs[n].hash in t && cs[n].time == t[cs[n].hash].time)
    && Sorted(cs, Before)
    && (forall i, j :: 0 <= i < j < |cs| ==> cs[i].hash != cs[j].hash)
  }

  /** The choice of a round among the first `n` candidates: the lowest selection hash among those not
      taken and not after the stop, the first in order on ties; or, if there is none that early,
      the first candidate not taken. */
  ghost predicate IsChoice(p: Params, t: Tree, cs: seq<Candidate>, n: nat, taken: set<Hash>, stop: int,
                           modifier: nat, h: Hash)
    requires n <= |cs| && forall n :: 0 <= n < |cs| ==> cs[n].hash in t
  {
    exists w :: 0 <= w < n && cs[w].hash == h && ChoiceAt(p, t, cs, n, taken, stop, modifier, w)
  }

  ghost predicate ChoiceAt(p: Params, t: Tree, cs: seq<Candidate>, n: nat, taken: set<Hash>, stop: int,
                           modifier: nat, w: nat)
    requires w < n <= |cs| && forall n :: 0 <= n < |cs| ==> cs[n].hash in t
  {
    && cs[w].hash !in taken
    && if Early(cs, n, taken, stop)
       then cs[w].time <= stop && forall j :: 0 <= j < n ==> NoBetter(p, t, cs, taken, stop, modifier, w, j)
       else forall j :: 0 <= j < w ==> cs[j].hash in taken
  }

  /** Candidate j, if it competes at all, has a higher selection hash than w, or an equal one later. */
  ghost predicate NoBetter(p: Params, t: Tree, cs: seq<Candidate>, taken: set<Hash>, stop: int, modifier: nat,
                           w: nat, j: nat)
    requires w < |cs| && j < |cs| && forall n :: 0 <= n < |cs| ==> cs[n].hash in t
  {
    cs[j].hash !in taken && cs[j].time <= stop ==>
      var mine, other := HashOf(p, t, cs[w].hash, modifier), HashOf(p, t, cs[j].hash, modifier);
      if j < w then mine < other else mine <= other
  }

  function HashOf(p: Params, t: Tree, h: Hash, modifier: nat): Hash
    requires h in t
  {
    SelectionHash(p, t[h], h, modifier)
  }

  /** What a choice of w over j says of the hashes: between blocks of one kind the lower one wins, up to
      the 32 dropped bits for stake; a work block wins over a stake block only if its hash is lower even
      2^32-fold. */
  ghost predicate Favoured(p: Params, t: Tree, w: Hash, j: Hash, modifier: nat)
    requires w in t && j in t
  {
    && (!t[w].proofOfStake && !t[j].proofOfStake ==> p.hash(w, modifier) <= p.hash(j, modifier))
    && (!t[w].proofOfStake && t[j].proofOfStake ==>
          0x1_0000_0000 * p.hash(w, modifier) <= p.hash(t[j].proofHash, modifier))
    && (t[w].proofOfStake && !t[j].proofOfStake ==>
          p.hash(t[w].proofHash, modifier) < 0x1_0000_0000 * (p.hash(j, modifier) + 1))
    && (t[w].proofOfStake && t[j].proofOfStake ==>
          var a := p.hash(t[w].proofHash, modifier);
          a - a % 0x1_0000_0000 <= p.hash(t[j].proofHash, modifier))
  }

  lemma ChosenIsFavoured(p: Params, t: Tree, cs: seq<Candidate>, taken: set<Hash>, stop: int, modifier: nat, h: Hash,
                         j: nat)
    requires GoodCandidates(t, cs) && IsChoice(p, t, cs, |cs|, taken, stop, modifier, h)
    requires j < |cs| && cs[j].hash !in taken && cs[j].time <= stop
    ensures h in t && t[h].time <= stop && h !in taken && Favoured(p, t, h, cs[j].hash, modifier)
  {
    var w :| 0 <= w < |cs| && cs[w].hash == h && ChoiceAt(p, t, cs, |cs|, taken, stop, modifier, w);
    assert Early(cs, |cs|, taken, stop);
    assert NoBetter(p, t, cs, taken, stop, modifier, w, j);
  }

  /** With hashes of 256 bits, a work block whose hash has any of its top 32 bits set is never chosen
      while an early stake block is left. */
  lemma StakeGoesFirst(p: Params, t: Tree, cs: seq<Candidate>, taken: set<Hash>, stop: int, modifier: nat, h: Hash,
                       j: nat)
    requires GoodCandidates(t, cs) && IsChoice(p, t, cs, |cs|, taken, stop, modifier, h)
    requires j < |cs| && cs[j].hash !in taken && cs[j].time <= stop && t[cs[j].hash].proofOfStake
    requires var two64 := 0x1_0000_0000_0000_0000;
      p.hash(t[cs[j].hash].proofHash, modifier) < two64 * two64 * two64 * two64
    ensures h in t
    ensures t[h].proofOfStake ||
      p.hash(h, modifier) < 0x1_0000_0000_0000_0000 * 0x1_0000_0000_0000_0000 * 0x1_0000_0000_0000_0000 * 0x1_0000_0000
  {
    ChosenIsFavoured(p, t, cs, taken, stop, modifier, h, j);
  }

  /** Some candidate is neither taken nor after the stop. */
  ghost predicate Early(cs: seq<Candidate>, n: nat, taken: set<Hash>, stop: int)
    requires n <= |cs|
  {
    exists j :: 0 <= j < n && cs[j].hash !in taken && cs[j].time <= stop
  }

  /** What the scan knows after `i` candidates. */
  ghost predicate Scanned(p: Params, t: Tree, cs: seq<Candidate>, i: nat, taken: set<Hash>, stop: int, modifier: nat,
                          best: Option<Hash>)
    requires i <= |cs| && forall n :: 0 <= n < |cs| ==> cs[n].hash in t
  {
    if best.Some? then IsChoice(p, t, cs, i, taken, stop, modifier, best.value)
    else forall j :: 0 <= j < i ==> cs[j].hash in taken
  }

  lemma ScannedStep(p: Params, t: Tree, cs: seq<Candidate>, i: nat, taken: set<Hash>, stop: int, modifier: nat,
                    best: Option<Hash>)
    requires GoodCandidates(t, cs) && i < |cs| && Scanned(p, t, cs, i, taken, stop, modifier, best)
    requires best.Some? ==> cs[i].time <= stop
    requires best.Some? ==> best.value in t
    ensures Scanned(p, t, cs, i + 1, taken, stop, modifier, Better(p, t, cs[i].hash, taken, modifier, best))
  {
    if best.Some? {
      var w :| 0 <= w < i && cs[w].hash == best.value && ChoiceAt(p, t, cs, i, taken, stop, modifier, w);
      assert Before(cs[w], cs[i]);
      assert cs[w].time <= stop;
      assert Early(cs, i, taken, stop) && Early(cs, i + 1, taken, stop);
      if Better(p, t, cs[i].hash, taken, modifier, best) == best {
        KeepsBest(p, t, cs, i, taken, stop, modifier, w);
      } else {
        ReplacesBest(p, t, cs, i, taken, stop, modifier, w);
      }
    } else if cs[i].hash !in taken {
      FirstBest(p, t, cs, i, taken, stop, modifier);
    }
  }

  lemma KeepsBest(p: Params, t: Tree, cs: seq<Candidate>, i: nat, taken: set<Hash>, stop: int, modifier: nat, w: nat)
    requires GoodCandidates(t, cs) && w < i < |cs| && ChoiceAt(p, t, cs, i, taken, stop, modifier, w)
    requires Early(cs, i, taken, stop) && Early(cs, i + 1, taken, stop)
    requires cs[i].hash in taken || !(HashOf(p, t, cs[i].hash, modifier) < HashOf(p, t, cs[w].hash, modifier))
    ensures ChoiceAt(p, t, cs, i + 1, taken, stop, modifier, w)
  {
    forall j | 0 <= j < i + 1 ensures NoBetter(p, t, cs, taken, stop, modifier, w, j) {}
  }

  lemma ReplacesBest(p: Params, t: Tree, cs: seq<Candidate>, i: nat, taken: set<Hash>, stop: int, modifier: nat, w: nat)
    requires GoodCandidates(t, cs) && w < i < |cs| && ChoiceAt(p, t, cs, i, taken, stop, modifier, w)
    requires Early(cs, i, taken, stop) && cs[i].time <= stop && cs[i].hash !in taken
    requires HashOf(p, t, cs[i].hash, modifier) < HashOf(p, t, cs[w].hash, modifier)
    ensures ChoiceAt(p, t, cs, i + 1, taken, stop, modifier, i)
  {
    forall j | 0 <= j < i + 1 ensures NoBetter(p, t, cs, taken, stop, modifier, i, j) {
      if j < i { assert NoBetter(p, t, cs, taken, stop, modifier, w, j); }
    }
  }

  lemma FirstBest(p: Params, t: Tree, cs: seq<Candidate>, i: nat, taken: set<Hash>, stop: int, modifier: nat)
    requires GoodCandidates(t, cs) && i < |cs| && cs[i].hash !in taken
    requires forall j :: 0 <= j < i ==> cs[j].hash in taken
    ensures ChoiceAt(p, t, cs, i + 1, taken, stop, modifier, i)
  {
  }

  /** Once something is chosen, candidates after the stop change nothing. */
  lemma ScannedTail(p: Params, t: Tree, cs: seq<Candidate>, i: nat, taken: set<Hash>, stop: int, modifier: nat, h: Hash)
    requires GoodCandidates(t, cs) && i < |cs| && IsChoice(p, t, cs, i, taken, stop, modifier, h)
    requires cs[i].time > stop
    ensures IsChoice(p, t, cs, |cs|, taken, stop, modifier, h)
  {
    forall j | i < j < |cs| ensures cs[j].time > stop { assert Before(cs[i], cs[j]); }
    assert Early(cs, |cs|, taken, stop) ==> Early(cs, i, taken, stop);
  }

  lemma {:induction false} ScanChooses(p: Params, t: Tree, cs: seq<Candidate>, i: nat, taken: set<Hash>, stop: int,
                                       modifier: nat, best: Option<Hash>)
    requires GoodCandidates(t, cs) && i <= |cs| && (best.Some? ==> best.value in t)
    requires Scanned(p, t, cs, i, taken, stop, modifier, best)
    ensures Scanned(p, t, cs, |cs|, taken, stop, modifier, Scan(p, t, cs, i, taken, stop, modifier, best))
    decreases |cs| - i
  {
    if i < |cs| {
      if best.Some? && t[cs[i].hash].time > stop {
        ScannedTail(p, t, cs, i, taken, stop, modifier, best.value);
      } else {
        ScannedStep(p, t, cs, i, taken, stop, modifier, best);
        ScanChooses(p, t, cs, i + 1, taken, stop, modifier, Better(p, t, cs[i].hash, taken, modifier, best));
      }
    }
  }

  /** Selects a block from sorted candidates; fails only if all are taken or one is not indexed. */
  method SelectBlock(p: Params, t: Tree, cs: seq<Candidate>, taken: set<Hash>, stop: int, modifier: nat)
    returns (ok: bool, chosen: Hash)
    requires GoodCandidates(t, cs)
    ensures ok <==> exists n :: 0 <= n < |cs| && cs[n].hash !in taken
    ensures ok ==> chosen in t && IsChoice(p, t, cs, |cs|, taken, stop, modifier, chosen)
    ensures ok ==> forall j :: 0 <= j < |cs| && cs[j].hash !in taken && cs[j].time <= stop ==>
        t[chosen].time <= stop && Favoured(p, t, chosen, cs[j].hash, modifier)
    ensures Scan(p, t, cs, 0, taken, stop, modifier, None) == if ok then Some(chosen) else None
  {
    ok, chosen := false, 0;
    var hashBest := 0;
    var i := 0;
    ghost var whole := Scan(p, t, cs, 0, taken, stop, modifier, None);
    ScanChooses(p, t, cs, 0, taken, stop, modifier, None);
    while i < |cs|
      invariant 0 <= i <= |cs|
      invariant ok ==> chosen in t && chosen !in taken && hashBest == SelectionHash(p, t[chosen], chosen, modifier)
      invariant whole == Scan(p, t, cs, i, taken, stop, modifier, if ok then Some(chosen) else None)
    {
      var h := cs[i].hash;
      if ok && t[h].time > stop { break; }
      if h !in taken {
        var s := SelectionHash(p, t[h], h, modifier);
        if ok && s < hashBest {
          hashBest, chosen := s, h;
        } else if !ok {
          ok, hashBest, chosen := true, s, h;
        }
      }
      i := i + 1;
    }
    if ok {
      forall j | 0 <= j < |cs| && cs[j].hash !in taken && cs[j].time <= stop
        ensures t[chosen].time <= stop && Favoured(p, t, chosen, cs[j].hash, modifier)
      {
        ChosenIsFavoured(p, t, cs, taken, stop, modifier, chosen, j);
      }
    }
  }

  // ----- candidates -----

  /** The blocks met walking back from `at` until one before `start`. */
  function Walk(t: Tree, at: Option<Hash>, start: int): seq<Candidate>
    requires WellFormed(t) && (at.Some? ==> at.value in t)
    decreases if at.Some? then t[at.value].height + 1 else 0
  {
    if at.None? || t[at.value].time < start then []
    else
      assert LinkOk(t, at.value);
      [Candidate(t[at.value].time, at.value)] + Walk(t, t[at.value].pprev, start)
  }

  /** Candidates ordered by time, then hash. */
  function Candidates(t: Tree, at: Hash, start: int): seq<Candidate>
    requires WellFormed(t) && at in t
  {
    Sort(Reverse(Walk(t, Some(at), start)), Before)
  }

  /** The i-th candidate of a walk that starts at height `top`. */
  ghost predicate Walked(t: Tree, w: seq<Candidate>, i: int, top: int) {
    0 <= i < |w| ==> w[i].hash in t && w[i].time == t[w[i].hash].time && t[w[i].hash].height + i == top
  }

  lemma {:induction false} WalkFacts(t: Tree, at: Hash, start: int, i: nat)
    requires WellFormed(t) && at in t
    ensures Walked(t, Walk(t, Some(at), start), i, t[at].height)
    decreases t[at].height
  {
    assert LinkOk(t, at);
    if i > 0 && t[at].pprev.Some? {
      WalkFacts(t, t[at].pprev.value, start, i - 1);
    }
  }

  /** The walk meets exactly the blocks back to the first one before the start. */
  lemma {:induction false} WalkIs(t: Tree, at: Hash, start: int, a: Hash)
    requires WellFormed(t) && at in t && a in t
    ensures Candidate(t[a].time, a) in Walk(t, Some(at), start) <==>
      AncestorOrSelf(t, a, at) &&
      forall b {:trigger t[b]} :: AncestorOrSelf(t, a, b) && AncestorOrSelf(t, b, at) ==> t[b].time >= start
    decreases t[at].height
  {
    assert LinkOk(t, at);
    if t[at].time >= start {
      if t[at].pprev.Some? {
        var prev := t[at].pprev.value;
        WalkIs(t, prev, start, a);
        ParentStep(t, at, prev);
        assert StrictAncestor(t, prev, at);
        if a != at {
          forall b | AncestorOrSelf(t, a, b) && AncestorOrSelf(t, b, at)
            ensures b == at || AncestorOrSelf(t, b, prev)
          {
          }
        }
      }
    }
  }

  /** Whatever is walked, sorting it gives proper candidates. */
  lemma CandidatesGood(t: Tree, at: Hash, start: int)
    requires WellFormed(t) && at in t
    ensures GoodCandidates(t, Candidates(t, at, start))
  {
    var w, cs := Walk(t, Some(at), start), Candidates(t, at, start);
    ReversePermutes(w);
    BeforeIsTotal();
    SortSorts(Reverse(w), Before);
    forall i: nat ensures Walked(t, w, i, t[at].height) { WalkFacts(t, at, start, i); }
    PermutedCandidates(t, w, cs, t[at].height);
  }

  /** The candidates are the blocks back to the first one before the start, by time and then by hash. */
  lemma CandidatesAre(t: Tree, h: Hash, start: int, a: Hash)
    requires WellFormed(t) && h in t && a in t
    ensures var cs := Candidates(t, h, start);
      && (Candidate(t[a].time, a) in cs <==>
          AncestorOrSelf(t, a, h) &&
          forall b {:trigger t[b]} :: AncestorOrSelf(t, a, b) && AncestorOrSelf(t, b, h) ==> t[b].time >= start)
      && forall i, j :: 0 <= i < j < |cs| ==>
           cs[i].time < cs[j].time || (cs[i].time == cs[j].time && cs[i].hash < cs[j].hash)
  {
    var w, cs := Walk(t, Some(h), start), Candidates(t, h, start);
    WalkIs(t, h, start, a);
    ReversePermutes(w);
    BeforeIsTotal();
    SortSorts(Reverse(w), Before);
    assert Candidate(t[a].time, a) in multiset(cs) <==> Candidate(t[a].time, a) in multiset(w);
    CandidatesGood(t, h, start);
    forall i, j | 0 <= i < j < |cs|
      ensures cs[i].time < cs[j].time || (cs[i].time == cs[j].time && cs[i].hash < cs[j].hash)
    {
      assert Before(cs[i], cs[j]);
    }
  }

  lemma PermutedCandidates(t: Tree, w: seq<Candidate>, cs: seq<Candidate>, top: int)
    requires multiset(cs) == multiset(w)
    requires forall i: nat {:trigger Walked(t, w, i, top)} :: Walked(t, w, i, top)
    ensures forall i :: 0 <= i < |cs| ==> cs[i].hash in t && cs[i].time == t[cs[i].hash].time
    ensures forall i, j :: 0 <= i < j < |cs| ==> cs[i].hash != cs[j].hash
  {
    forall i | 0 <= i < |cs| ensures cs[i].hash in t && cs[i].time == t[cs[i].hash].time {
      assert cs[i] in multiset(cs);
      var n :| 0 <= n < |w| && w[n] == cs[i];
      assert Walked(t, w, n, top);
    }
    forall i, j | 0 <= i < j < |w| ensures w[i] != w[j] {
      assert Walked(t, w, i, top) && Walked(t, w, j, top);
    }
    forall i, j | 0 <= i < j < |cs| ensures cs[i].hash != cs[j].hash {
      NoTwice(w, cs[i]);
      if cs[i] == cs[j] { Twice(cs, i, j); }
    }
  }

  lemma Twice<T>(s: seq<T>, i: nat, j: nat)
    requires i < j < |s| && s[i] == s[j]
    ensures multiset(s)[s[i]] >= 2
  {
    assert s == s[..i] + [s[i]] + s[i + 1..j] + [s[j]] + s[j + 1..];
  }

  lemma {:induction false} NoTwice<T>(s: seq<T>, x: T)
    requires forall i, j :: 0 <= i < j < |s| ==> s[i] != s[j]
    ensures multiset(s)[x] <= 1
  {
    if s != [] {
      assert s == [s[0]] + s[1..];
      NoTwice(s[1..], x);
      if x == s[0] { assert x !in s[1..]; }
    }
  }

  // ----- rounds -----

  ghost function Members(sel: seq<Hash>): set<Hash> { set h | h in sel }

  /** The blocks chosen in the first `n` rounds. */
  ghost function Selection(p: Params, t: Tree, cs: seq<Candidate>, n: nat, start: int, modifier: nat): seq<Hash>
    requires n <= ROUNDS && GoodCandidates(t, cs)
  {
    if n == 0 then []
    else
      var sel := Selection(p, t, cs, n - 1, start, modifier);
      var pick := Scan(p, t, cs, 0, Members(sel), start + Sections(p, n), modifier, None);
      if pick.Some? then sel + [pick.value] else sel
  }

  /** Round `r` of a selection: a block not chosen before, by the rule of the round. */
  ghost predicate RoundOk(p: Params, t: Tree, cs: seq<Candidate>, sel: seq<Hash>, r: nat, start: int, modifier: nat)
    requires r < ROUNDS && GoodCandidates(t, cs)
  {
    r < |sel| && sel[r] in t && sel[r] !in sel[..r] &&
    IsChoice(p, t, cs, |cs|, Members(sel[..r]), start + Sections(p, r + 1), modifier, sel[r])
  }

  /** The block of round `r` is favoured over every other that competed in it. */
  ghost predicate RoundFavours(p: Params, t: Tree, cs: seq<Candidate>, sel: seq<Hash>, r: nat, start: int,
                               modifier: nat)
    requires r < |sel| && r < ROUNDS && GoodCandidates(t, cs)
  {
    && sel[r] in t
    && forall j :: 0 <= j < |cs| && cs[j].hash !in sel[..r] && cs[j].time <= start + Sections(p, r + 1) ==>
         t[sel[r]].time <= start + Sections(p, r + 1) && Favoured(p, t, sel[r], cs[j].hash, modifier)
  }

  lemma RoundIsFavoured(p: Params, t: Tree, cs: seq<Candidate>, sel: seq<Hash>, r: nat, start: int, modifier: nat)
    requires r < ROUNDS && GoodCandidates(t, cs) && RoundOk(p, t, cs, sel, r, start, modifier)
    ensures RoundFavours(p, t, cs, sel, r, start, modifier)
  {
    var stop := start + Sections(p, r + 1);
    forall j | 0 <= j < |cs| && cs[j].hash !in sel[..r] && cs[j].time <= stop
      ensures t[sel[r]].time <= stop && Favoured(p, t, sel[r], cs[j].hash, modifier)
    {
      ChosenIsFavoured(p, t, cs, Members(sel[..r]), stop, modifier, sel[r], j);
    }
  }

  /** Fewer taken than candidates leaves one to choose. */
  lemma SomeLeft(t: Tree, cs: seq<Candidate>, sel: seq<Hash>)
    requires GoodCandidates(t, cs) && |sel| < |cs|
    ensures exists n :: 0 <= n < |cs| && cs[n].hash !in Members(sel)
  {
    if forall n :: 0 <= n < |cs| ==> cs[n].hash in Members(sel) {
      Fits(t, cs, |cs|, Members(sel));
      MembersSize(sel);
    }
  }

  /** A set holding the hashes of the first `m` candidates has at least `m` members. */
  lemma {:induction false} Fits(t: Tree, cs: seq<Candidate>, m: nat, s: set<Hash>)
    requires GoodCandidates(t, cs) && m <= |cs| && forall n :: 0 <= n < m ==> cs[n].hash in s
    ensures |s| >= m
  {
    if m > 0 { Fits(t, cs, m - 1, s - {cs[m - 1].hash}); }
  }

  lemma {:induction false} MembersSize(sel: seq<Hash>)
    ensures |Members(sel)| <= |sel|
  {
    if sel != [] {
      var init, last := sel[..|sel| - 1], sel[|sel| - 1];
      MembersSize(init);
      assert sel == init + [last];
      assert Members(sel) == Members(init) + {last};
    } else {
      assert Members(sel) == {};
    }
  }

  /** In every round below the number of candidates the selection succeeds, by the rule. */
  lemma {:induction false} SelectionRounds(p: Params, t: Tree, cs: seq<Candidate>, n: nat, start: int, modifier: nat)
    requires n <= ROUNDS && n <= |cs| && GoodCandidates(t, cs)
    ensures var sel := Selection(p, t, cs, n, start, modifier);
      |sel| == n && forall r :: 0 <= r < n ==> RoundOk(p, t, cs, sel, r, start, modifier)
  {
    if n > 0 {
      SelectionRounds(p, t, cs, n - 1, start, modifier);
      var sel := Selection(p, t, cs, n - 1, start, modifier);
      var stop := start + Sections(p, n);
      SomeLeft(t, cs, sel);
      ScanChooses(p, t, cs, 0, Members(sel), stop, modifier, None);
      var pick := Scan(p, t, cs, 0, Members(sel), stop, modifier, None);
      var all := Selection(p, t, cs, n, start, modifier);
      assert all == sel + [pick.value];
      assert pick.value !in sel;
      forall r | 0 <= r < n ensures RoundOk(p, t, cs, all, r, start, modifier) {
        assert all[..r] == sel[..r];
        if r < n - 1 {
          assert RoundOk(p, t, cs, sel, r, start, modifier);
        } else {
          assert sel[..r] == sel;
        }
      }
    }
  }

  // ----- bits -----

  /** The number with the given bits, lowest first. */
  function Value(bits: seq<bool>): nat {
    if bits == [] then 0 else (if bits[0] then 1 else 0) + 2 * Value(bits[1..])
  }

  predicate Bit(m: nat, r: nat) { if r == 0 then m % 2 == 1 else Bit(m / 2, r - 1) }

  /** Setting bit `r`: m | (1 << r). */
  function OrBit(m: nat, r: nat): nat {
    if r == 0 then m / 2 * 2 + 1 else m % 2 + 2 * OrBit(m / 2, r - 1)
  }

  lemma {:induction false} ValueBits(bits: seq<bool>, r: nat)
    ensures Bit(Value(bits), r) <==> r < |bits| && bits[r]
  {
    if bits == [] {
      if r > 0 { ValueBits(bits, r - 1); }
    } else if r > 0 {
      ValueBits(bits[1..], r - 1);
      assert Value(bits) / 2 == Value(bits[1..]);
    }
  }

  lemma {:induction false} ValueOr(bits: seq<bool>)
    ensures Value(bits + [true]) == OrBit(Value(bits), |bits|)
    ensures Value(bits + [false]) == Value(bits)
  {
    if bits != [] {
      ValueOr(bits[1..]);
      assert (bits + [true])[1..] == bits[1..] + [true];
      assert (bits + [false])[1..] == bits[1..] + [false];
      assert Value(bits) / 2 == Value(bits[1..]);
    } else {
      assert [false][1..] == [] && [true][1..] == [];
    }
  }

  /** Setting a bit sets that one and no other. */
  lemma {:induction false} OrBitIs(m: nat, r: nat, j: nat)
    ensures Bit(OrBit(m, r), j) <==> j == r || Bit(m, j)
  {
    var n := OrBit(m, r);
    if r == 0 {
      assert n % 2 == 1 && n / 2 == m / 2;
    } else {
      assert n % 2 == m % 2 && n / 2 == OrBit(m / 2, r - 1);
      if j > 0 { OrBitIs(m / 2, r - 1, j - 1); }
    }
  }

  ghost function Entropy(t: Tree, sel: seq<Hash>): (r: seq<bool>)
    ensures |r| == |sel|
  {
    seq(|sel|, i requires 0 <= i < |sel| => sel[i] in t && t[sel[i]].entropyBit)
  }

  // ----- the modifier -----

  /** The nearest ancestor-or-self that generated a modifier, or else the root. */
  function Nearest(t: Tree, h: Hash): (g: Hash)
    requires WellFormed(t) && h in t
    ensures g in t
    decreases t[h].height
  {
    assert LinkOk(t, h);
    if t[h].pprev.None? || t[h].generated then h else Nearest(t, t[h].pprev.value)
  }

  function SelectionStart(p: Params, t: Tree, h: Hash): int
    requires p.interval > 0 && h in t
  {
    t[h].time / p.interval * p.interval - Sections(p, ROUNDS)
  }

  /** The blocks selected for a modifier that is regenerated after `h`. */
  ghost function Selected(p: Params, t: Tree, h: Hash): seq<Hash>
    requires p.interval > 0 && WellFormed(t) && h in t
  {
    var start := SelectionStart(p, t, h);
    var cs := Candidates(t, h, start);
    CandidatesGood(t, h, start);
    Selection(p, t, cs, Min(ROUNDS, |cs|), start, t[Nearest(t, h)].modifier)
  }

  /** The modifier of a block that follows `prev`, and whether it is regenerated there. */
  ghost function Next(p: Params, t: Tree, prev: Option<Hash>): Option<(nat, bool)>
    requires p.interval > 0 && WellFormed(t) && (prev.Some? ==> prev.value in t)
  {
    if prev.None? then Some((0, true))
    else
      var h := prev.value;
      var g := Nearest(t, h);
      if !t[g].generated then None
      else if t[g].time / p.interval >= t[h].time / p.interval then Some((t[g].modifier, false))
      else Some((Value(Entropy(t, Selected(p, t, h))), true))
  }

  method LastModifier(t: Tree, h: Hash) returns (ok: bool, modifier: nat, time: nat)
    requires WellFormed(t) && h in t
    ensures ok == t[Nearest(t, h)].generated
    ensures ok ==> modifier == t[Nearest(t, h)].modifier && time == t[Nearest(t, h)].time
  {
    var at := h;
    while t[at].pprev.Some? && !t[at].generated
      invariant at in t && Nearest(t, at) == Nearest(t, h)
      decreases t[at].height
    {
      assert LinkOk(t, at);
      at := t[at].pprev.value;
    }
    if !t[at].generated { return false, 0, 0; }
    return true, t[at].modifier, t[at].time;
  }

  method CollectCandidates(t: Tree, h: Hash, start: int) returns (cs: seq<Candidate>)
    requires WellFormed(t) && h in t
    ensures cs == Candidates(t, h, start) && GoodCandidates(t, cs)
  {
    var at, walked := Some(h), [];
    while at.Some? && t[at.value].time >= start
      invariant at.Some? ==> at.value in t
      invariant Walk(t, Some(h), start) == walked + Walk(t, at, start)
      decreases if at.Some? then t[at.value].height + 1 else 0
    {
      assert LinkOk(t, at.value);
      walked := walked + [Candidate(t[at.value].time, at.value)];
      at := t[at.value].pprev;
    }
    assert walked + [] == walked;
    cs := Sort(Reverse(walked), Before);
    CandidatesGood(t, h, start);
  }

  /** One round's effect on the selection and its value. */
  lemma RoundStep(p: Params, t: Tree, cs: seq<Candidate>, r: nat, start: int, last: nat, sel: seq<Hash>, chosen: Hash)
    requires GoodCandidates(t, cs) && r < ROUNDS && chosen in t
    requires sel == Selection(p, t, cs, r, start, last) && |sel| == r
    requires Scan(p, t, cs, 0, Members(sel), start + Sections(p, r + 1), last, None) == Some(chosen)
    ensures sel + [chosen] == Selection(p, t, cs, r + 1, start, last)
    ensures Members(sel + [chosen]) == Members(sel) + {chosen}
    ensures var m := Value(Entropy(t, sel));
      Value(Entropy(t, sel + [chosen])) == if t[chosen].entropyBit then OrBit(m, r) else m
  {
    ValueOr(Entropy(t, sel));
    assert Entropy(t, sel + [chosen]) == Entropy(t, sel) + [t[chosen].entropyBit];
  }

  /** The rounds: one block each, whose entropy bit becomes bit r. */
  method SelectRounds(p: Params, t: Tree, cs: seq<Candidate>, start: int, last: nat) returns (modifier: nat)
    requires GoodCandidates(t, cs)
    ensures modifier == Value(Entropy(t, Selection(p, t, cs, Min(ROUNDS, |cs|), start, last)))
  {
    modifier := 0;
    var stop, taken := start, {};
    ghost var sel: seq<Hash> := [];
    for r := 0 to Min(ROUNDS, |cs|)
      invariant Selecting(p, t, cs, start, last, r, sel, stop, taken, modifier)
    {
      SomeLeft(t, cs, sel);
      stop := stop + Section(p, r);
      var picked, chosen := SelectBlock(p, t, cs, taken, stop, last);
      SelectNext(p, t, cs, start, last, r, sel, stop, taken, modifier, chosen);
      if t[chosen].entropyBit { modifier := OrBit(modifier, r); }
      taken := taken + {chosen};
      sel := sel + [chosen];
    }
  }

  /** The variables of the rounds. */
  ghost predicate Selecting(p: Params, t: Tree, cs: seq<Candidate>, start: int, last: nat, r: nat, sel: seq<Hash>,
                            stop: int, taken: set<Hash>, modifier: nat) {
    && GoodCandidates(t, cs) && r <= ROUNDS && r <= |cs|
    && stop == start + Sections(p, r) && sel == Selection(p, t, cs, r, start, last) && |sel| == r
    && taken == Members(sel) && modifier == Value(Entropy(t, sel))
  }

  lemma SelectNext(p: Params, t: Tree, cs: seq<Candidate>, start: int, last: nat, r: nat, sel: seq<Hash>, stop: int,
                   taken: set<Hash>, modifier: nat, chosen: Hash)
    requires r < ROUNDS && r < |cs| && chosen in t
    requires Selecting(p, t, cs, start, last, r, sel, stop - Section(p, r), taken, modifier)
    requires Scan(p, t, cs, 0, taken, stop, last, None) == Some(chosen)
    ensures Selecting(p, t, cs, start, last, r + 1, sel + [chosen], stop, taken + {chosen},
              if t[chosen].entropyBit then OrBit(modifier, r) else modifier)
  {
    assert stop == start + Sections(p, r + 1);
    RoundStep(p, t, cs, r, start, last, sel, chosen);
  }

  /** The modifier of the block after `prev`: the last one while its interval lasts, else a new one
      whose bit r is the entropy bit of the block selected in round r. */
  method ComputeNext(p: Params, t: Tree, prev: Option<Hash>) returns (ok: bool, modifier: nat, generated: bool)
    requires p.interval > 0 && WellFormed(t) && (prev.Some? ==> prev.value in t)
    ensures Next(p, t, prev) == if ok then Some((modifier, generated)) else None
  {
    if prev.None? { return true, 0, true; }
    var h := prev.value;
    var found, last, time := LastModifier(t, h);
    if !found { return false, 0, false; }
    if time / p.interval >= t[h].time / p.interval { return true, last, false; }
    var length := SelectionInterval(p);
    var start := t[h].time / p.interval * p.interval - length;
    var cs := CollectCandidates(t, h, start);
    modifier := SelectRounds(p, t, cs, start, last);
    return true, modifier, true;
  }

  /** A regenerated modifier: its low bits are the entropy bits of the blocks selected round by
      round, all other bits are 0, and each round was decided by the rule among the candidates. */
  lemma RegeneratedModifier(p: Params, t: Tree, h: Hash)
    requires p.interval > 0 && WellFormed(t) && h in t && t[Nearest(t, h)].generated
    requires t[Nearest(t, h)].time / p.interval < t[h].time / p.interval
    ensures Next(p, t, Some(h)).Some? && Next(p, t, Some(h)).value.1
    ensures var start := SelectionStart(p, t, h);
      var cs, sel, m := Candidates(t, h, start), Selected(p, t, h), Next(p, t, Some(h)).value.0;
      && GoodCandidates(t, cs) && |sel| == Min(64, |cs|)
      && (forall r :: 0 <= r < |sel| ==> RoundFavours(p, t, cs, sel, r, start, t[Nearest(t, h)].modifier))
      && (forall r :: 0 <= r < |sel| ==> RoundOk(p, t, cs, sel, r, start, t[Nearest(t, h)].modifier))
      && (forall r: nat :: Bit(m, r) <==> r < |sel| && sel[r] in t && t[sel[r]].entropyBit)
  {
    var start, sel := SelectionStart(p, t, h), Selected(p, t, h);
    var cs := Candidates(t, h, start);
    CandidatesGood(t, h, start);
    SelectionRounds(p, t, cs, Min(ROUNDS, |cs|), start, t[Nearest(t, h)].modifier);
    forall r | 0 <= r < |sel| ensures RoundFavours(p, t, cs, sel, r, start, t[Nearest(t, h)].modifier) {
      RoundIsFavoured(p, t, cs, sel, r, start, t[Nearest(t, h)].modifier);
    }
    forall r: nat ensures Bit(Value(Entropy(t, sel)), r) <==> r < |sel| && sel[r] in t && t[sel[r]].entropyBit {
      ValueBits(Entropy(t, sel), r);
    }
  }

  /** The selection ends where the interval of the block begins. */
  lemma StartAligned(p: Params, t: Tree, h: Hash)
    requires p.interval > 0 && h in t
    ensures var end := SelectionStart(p, t, h) + Sections(p, ROUNDS);
      end % p.interval == 0 && end <= t[h].time < end + p.interval
  {
    var q := t[h].time / p.interval;
    Digits.QuotientRemainder(q, 0, p.interval);
  }

  // ----- chains -----

  /** Every block took its modifier from the computation on its predecessor. */
  ghost predicate ModifiersOk(p: Params, t: Tree)
    requires p.interval > 0 && WellFormed(t)
  {
    forall h {:trigger ModifierOk(p, t, h)} :: ModifierOk(p, t, h)
  }

  ghost predicate ModifierOk(p: Params, t: Tree, h: Hash)
    requires p.interval > 0 && WellFormed(t)
  {
    h in t ==> (assert LinkOk(t, h); Next(p, t, t[h].pprev) == Some((t[h].modifier, t[h].generated)))
  }

  /** Each block stores the modifier of its nearest generating ancestor-or-self, which exists. */
  lemma {:induction false} StoresNearest(p: Params, t: Tree, h: Hash)
    requires p.interval > 0 && WellFormed(t) && ModifiersOk(p, t) && h in t
    ensures t[Nearest(t, h)].generated && t[h].modifier == t[Nearest(t, h)].modifier
    decreases t[h].height
  {
    assert LinkOk(t, h) && ModifierOk(p, t, h);
    if t[h].pprev.Some? && !t[h].generated { StoresNearest(p, t, t[h].pprev.value); }
  }

  /** A generating block's predecessor did not generate, and lies in a strictly later interval than
      the previous generating block. */
  lemma GeneratorStep(p: Params, t: Tree, h: Hash)
    requires p.interval > 0 && WellFormed(t) && ModifiersOk(p, t) && h in t && t[h].generated && t[h].pprev.Some?
    ensures t[h].pprev.value in t
    ensures var prev := t[h].pprev.value;
      !t[prev].generated && t[Nearest(t, prev)].time / p.interval < t[prev].time / p.interval
  {
    assert LinkOk(t, h) && ModifierOk(p, t, h);
  }

  /** A block regenerates the modifier exactly if its predecessor lies in a later interval than the
      block that generated the last one; the first block always does. */
  lemma GeneratesIff(p: Params, t: Tree, h: Hash)
    requires p.interval > 0 && WellFormed(t) && ModifiersOk(p, t) && h in t
    ensures t[h].pprev.Some? ==> t[h].pprev.value in t
    ensures t[h].generated <==> (t[h].pprev.Some? ==>
      t[Nearest(t, t[h].pprev.value)].time / p.interval < t[t[h].pprev.value].time / p.interval)
    ensures t[h].pprev.None? ==> t[h].modifier == 0
  {
    assert LinkOk(t, h) && ModifierOk(p, t, h);
    if t[h].pprev.Some? { StoresNearest(p, t, t[h].pprev.value); }
  }

  // ----- side branches do not matter -----

  /** The nearest generator is an ancestor-or-self, and no other generating one comes after it. */
  lemma {:induction false} NearestIsLast(t: Tree, h: Hash, g: Hash)
    requires WellFormed(t) && h in t && AncestorOrSelf(t, g, h)
    ensures AncestorOrSelf(t, Nearest(t, h), h)
    ensures t[g].generated ==> AncestorOrSelf(t, g, Nearest(t, h))
    decreases t[h].height
  {
    assert LinkOk(t, h);
    if !t[h].generated && t[h].pprev.Some? {
      var prev := t[h].pprev.value;
      ParentStep(t, h, prev);
      if g == h { NearestIsLast(t, prev, prev); } else { NearestIsLast(t, prev, g); }
      AncestorTransitive(t, Nearest(t, h), prev, h);
    }
  }

  /** Any two generators on a branch have a block between them that does not generate. */
  lemma GeneratorsApart(p: Params, t: Tree, a: Hash, d: Hash)
    requires p.interval > 0 && WellFormed(t) && ModifiersOk(p, t) && StrictAncestor(t, a, d)
    requires t[a].generated && t[d].generated
    ensures t[a].height + 2 <= t[d].height
  {
    assert LinkOk(t, d);
    var prev := t[d].pprev.value;
    GeneratorStep(p, t, d);
    ParentStep(t, d, prev);
    StrictIsHigher(t, a, prev);
  }

  /** Of two consecutive generators on a branch, the second one's predecessor lies in a strictly later
      interval than the first. */
  lemma GeneratorsSpaced(p: Params, t: Tree, a: Hash, d: Hash)
    requires p.interval > 0 && WellFormed(t) && ModifiersOk(p, t) && StrictAncestor(t, a, d)
    requires t[a].generated && t[d].generated
    requires forall g :: StrictAncestor(t, a, g) && StrictAncestor(t, g, d) ==> !t[g].generated
    ensures t[d].pprev.Some? && t[d].pprev.value in t
    ensures t[a].time / p.interval < t[t[d].pprev.value].time / p.interval
  {
    assert LinkOk(t, d);
    var prev := t[d].pprev.value;
    GeneratorStep(p, t, d);
    ParentStep(t, d, prev);
    NearestIsLast(t, prev, a);
    var g := Nearest(t, prev);
    StoresNearest(p, t, prev);
    AncestorTransitive(t, g, prev, d);
    if g != a {
      StrictIsHigher(t, a, g);
      StrictIsHigher(t, g, d);
    }
  }

  lemma {:induction false} NearestGrows(t: Tree, t': Tree, h: Hash)
    requires WellFormed(t) && WellFormed(t') && Grows(t, t') && h in t
    ensures Nearest(t', h) == Nearest(t, h)
    decreases t[h].height
  {
    assert LinkOk(t, h);
    if t[h].pprev.Some? && !t[h].generated { NearestGrows(t, t', t[h].pprev.value); }
  }

  lemma {:induction false} WalkGrows(t: Tree, t': Tree, at: Option<Hash>, start: int)
    requires WellFormed(t) && WellFormed(t') && Grows(t, t') && (at.Some? ==> at.value in t)
    ensures Walk(t', at, start) == Walk(t, at, start)
    decreases if at.Some? then t[at.value].height + 1 else 0
  {
    if at.Some? && t[at.value].time >= start {
      assert LinkOk(t, at.value);
      WalkGrows(t, t', t[at.value].pprev, start);
    }
  }

  lemma {:induction false} ScanGrows(p: Params, t: Tree, t': Tree, cs: seq<Candidate>, i: nat, taken: set<Hash>,
                                     stop: int, modifier: nat, best: Option<Hash>)
    requires Grows(t, t') && (forall n :: 0 <= n < |cs| ==> cs[n].hash in t) && (best.Some? ==> best.value in t)
    ensures forall n :: 0 <= n < |cs| ==> cs[n].hash in t'
    ensures Scan(p, t', cs, i, taken, stop, modifier, best) == Scan(p, t, cs, i, taken, stop, modifier, best)
    decreases |cs| - i
  {
    if i < |cs| {
      ScanGrows(p, t, t', cs, i + 1, taken, stop, modifier, best);
      ScanGrows(p, t, t', cs, i + 1, taken, stop, modifier, Some(cs[i].hash));
    }
  }

  lemma {:induction false} SelectionGrows(p: Params, t: Tree, t': Tree, cs: seq<Candidate>, n: nat, start: int,
                                          modifier: nat)
    requires Grows(t, t') && n <= ROUNDS && GoodCandidates(t, cs) && GoodCandidates(t', cs)
    ensures Selection(p, t', cs, n, start, modifier) == Selection(p, t, cs, n, start, modifier)
    ensures forall i :: 0 <= i < |Selection(p, t, cs, n, start, modifier)| ==>
        Selection(p, t, cs, n, start, modifier)[i] in t
  {
    if n > 0 {
      SelectionGrows(p, t, t', cs, n - 1, start, modifier);
      var sel := Selection(p, t, cs, n - 1, start, modifier);
      ScanGrows(p, t, t', cs, 0, Members(sel), start + Sections(p, n), modifier, None);
      ScanChooses(p, t, cs, 0, Members(sel), start + Sections(p, n), modifier, None);
    }
  }

  /** Adding blocks, on whatever branch, never changes a modifier already determined. */
  lemma NextGrows(p: Params, t: Tree, t': Tree, prev: Option<Hash>)
    requires p.interval > 0 && WellFormed(t) && WellFormed(t') && Grows(t, t') && (prev.Some? ==> prev.value in t)
    ensures Next(p, t', prev) == Next(p, t, prev)
  {
    if prev.Some? {
      var h := prev.value;
      NearestGrows(t, t', h);
      var start := SelectionStart(p, t, h);
      WalkGrows(t, t', prev, start);
      CandidatesGood(t, h, start);
      CandidatesGood(t', h, start);
      var cs := Candidates(t, h, start);
      SelectionGrows(p, t, t', cs, Min(ROUNDS, |cs|), start, t[Nearest(t, h)].modifier);
      assert Entropy(t', Selected(p, t, h)) == Entropy(t, Selected(p, t, h));
    }
  }

  /** Indexing a block with the modifier computed on its predecessor keeps the rule for all blocks. */
  lemma AddedKeepsModifiers(p: Params, t: Tree, h: Hash, b: BlockIndex)
    requires p.interval > 0 && WellFormed(t) && ModifiersOk(p, t) && h !in t
    requires b.pprev.Some? && b.pprev.value in t && b.height == t[b.pprev.value].height + 1
    requires Next(p, t, b.pprev) == Some((b.modifier, b.generated))
    ensures WellFormed(t[h := b]) && ModifiersOk(p, t[h := b])
  {
    var t' := t[h := b];
    AddedBlock(t, h, b);
    forall x ensures ModifierOk(p, t', x) {
      assert ModifierOk(p, t, x) && LinkOk(t, x);
      if x in t { NextGrows(p, t, t', t[x].pprev); }
      NextGrows(p, t, t', b.pprev);
    }
  }
}
