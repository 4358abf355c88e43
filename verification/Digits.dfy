/** Numbers as digit strings, most significant digit first, in any base. */
module Digits {

  predicate Valid(ds: seq<nat>, base: nat) { forall i :: 0 <= i < |ds| ==> ds[i] < base }

  function Value(ds: seq<nat>, base: nat): nat {
    if ds == [] then 0 else Value(ds[..|ds| - 1], base) * base + ds[|ds| - 1]
  }

  /** The shortest digit string of a number: no leading zero, nothing at all for 0. */
  function Shortest(n: nat, base: nat): (ds: seq<nat>)
    requires base >= 2
    ensures Valid(ds, base) && (ds == [] <==> n == 0)
    decreases n
  {
    if n == 0 then [] else (Smaller(n, base); Shortest(n / base, base) + [n % base])
  }

  function Power(base: nat, n: nat): nat { if n == 0 then 1 else Power(base, n - 1) * base }

  /** How many zeros a digit string starts with. */
  function LeadingZeros(ds: seq<nat>): (n: nat)
    ensures n <= |ds| && (forall i :: 0 <= i < n ==> ds[i] == 0) && (n < |ds| ==> ds[n] != 0)
  {
    if ds == [] || ds[0] != 0 then 0 else 1 + LeadingZeros(ds[1..])
  }

  function Zeros(n: nat): (z: seq<nat>)
    ensures |z| == n && forall i :: 0 <= i < n ==> z[i] == 0
  {
    seq(n, _ => 0)
  }

  /** The same number in another base, with as many leading zeros. */
  function Convert(ds: seq<nat>, from: nat, to: nat): seq<nat>
    requires to >= 2
  {
    Zeros(LeadingZeros(ds)) + Shortest(Value(ds, from), to)
  }

  // ----- arithmetic -----

  lemma Smaller(n: nat, base: nat)
    requires n > 0 && base >= 2
    ensures n / base < n
  {
  }

  lemma QuotientRemainder(q: nat, r: nat, base: nat)
    requires r < base
    ensures (q * base + r) / base == q && (q * base + r) % base == r
  {
    var n := q * base + r;
    var q', r' := n / base, n % base;
    assert q' * base + r' == n;
    if q' < q { MulGap(q', q, base); }
    if q < q' { MulGap(q, q', base); }
  }

  lemma MulAssociative(a: nat, b: nat, c: nat)
    ensures a * b * c == a * (b * c)
  {
  }

  lemma MulDistributes(a: nat, b: nat, c: nat)
    ensures (a + b) * c == a * c + b * c
  {
  }

  lemma MulGap(a: nat, b: nat, c: nat)
    requires a < b
    ensures a * c + c <= b * c
  {
    assert (b - a - 1) * c >= 0;
    assert b * c == a * c + c + (b - a - 1) * c;
  }

  lemma DivMod(n: nat, base: nat)
    requires base > 0
    ensures n / base * base + n % base == n
  {
  }

  lemma {:induction false} PowerPositive(base: nat, n: nat)
    requires base > 0
    ensures Power(base, n) > 0
  {
    if n > 0 { PowerPositive(base, n - 1); }
  }

  // ----- value and digits -----

  lemma ValuePush(ds: seq<nat>, d: nat, base: nat)
    ensures Value(ds + [d], base) == Value(ds, base) * base + d
  {
    assert (ds + [d])[..|ds|] == ds;
  }

  lemma {:induction false} ValueShortest(n: nat, base: nat)
    requires base >= 2
    ensures Value(Shortest(n, base), base) == n
    decreases n
  {
    if n > 0 {
      Smaller(n, base);
      ValueShortest(n / base, base);
      ValuePush(Shortest(n / base, base), n % base, base);
      DivMod(n, base);
    }
  }

  lemma {:induction false} ShortestLeads(n: nat, base: nat)
    requires base >= 2 && n > 0
    ensures Shortest(n, base)[0] != 0
    decreases n
  {
    Smaller(n, base);
    if n / base > 0 {
      ShortestLeads(n / base, base);
    } else {
      assert n == n / base * base + n % base;
    }
  }

  lemma {:induction false} ValuePositive(ds: seq<nat>, base: nat)
    requires base >= 2 && ds != [] && ds[0] != 0
    ensures Value(ds, base) > 0
  {
    if |ds| > 1 {
      ValuePositive(ds[..|ds| - 1], base);
      assert Value(ds[..|ds| - 1], base) * base >= Value(ds[..|ds| - 1], base);
    }
  }

  /** A digit string without leading zero is the shortest one of its value. */
  lemma {:induction false} ShortestValue(ds: seq<nat>, base: nat)
    requires base >= 2 && Valid(ds, base) && (ds != [] ==> ds[0] != 0)
    ensures Shortest(Value(ds, base), base) == ds
  {
    if ds != [] {
      var init, last := ds[..|ds| - 1], ds[|ds| - 1];
      ShortestValue(init, base);
      ValuePositive(ds, base);
      QuotientRemainder(Value(init, base), last, base);
      assert ds == init + [last];
    }
  }

  lemma {:induction false} ValueAppend(a: seq<nat>, b: seq<nat>, base: nat)
    ensures Value(a + b, base) == Value(a, base) * Power(base, |b|) + Value(b, base)
  {
    if b == [] {
      assert a + b == a;
    } else {
      var init := b[..|b| - 1];
      ValueAppend(a, init, base);
      assert (a + b)[..|a + b| - 1] == a + init;
      var v, p, w := Value(a, base), Power(base, |init|), Value(init, base);
      MulDistributes(v * p, w, base);
      MulAssociative(v, p, base);
      assert Power(base, |b|) == p * base;
    }
  }

  lemma {:induction false} ValueZeros(n: nat, base: nat)
    ensures Value(Zeros(n), base) == 0
  {
    if n > 0 {
      var z := Zeros(n);
      assert z[..n - 1] == Zeros(n - 1);
      ValueZeros(n - 1, base);
    }
  }

  lemma ValueSkipsZeros(n: nat, ds: seq<nat>, base: nat)
    ensures Value(Zeros(n) + ds, base) == Value(ds, base)
  {
    ValueAppend(Zeros(n), ds, base);
    ValueZeros(n, base);
    assert 0 * Power(base, |ds|) == 0;
  }

  lemma {:induction false} ValueBound(ds: seq<nat>, base: nat)
    requires Valid(ds, base)
    ensures Value(ds, base) < Power(base, |ds|)
  {
    if ds != [] {
      var init := ds[..|ds| - 1];
      ValueBound(init, base);
      MulGap(Value(init, base), Power(base, |init|), base);
    }
  }

  /** A part of some digits has the value of the whole only if it is the whole or that is 0. */
  lemma PartValue(ds: seq<nat>, part: seq<nat>, base: nat)
    requires base >= 2 && part <= ds && part != ds && Value(part, base) == Value(ds, base)
    ensures Value(ds, base) == 0
  {
    var rest := ds[|part|..];
    var v, p := Value(part, base), Power(base, |rest|);
    assert ds == part + rest;
    ValueAppend(part, rest, base);
    PowerPositive(base, |rest| - 1);
    MulGap(1, base, Power(base, |rest| - 1));
    MulGap(1, p, v);
    assert v * p == p * v;
  }

  // ----- changing the base -----

  /** A digit string is its leading zeros and the shortest digits of its value. */
  lemma SplitZeros(ds: seq<nat>, base: nat)
    requires base >= 2 && Valid(ds, base)
    ensures ds == Zeros(LeadingZeros(ds)) + Shortest(Value(ds, base), base)
  {
    var n := LeadingZeros(ds);
    var rest := ds[n..];
    assert ds == Zeros(n) + rest;
    ValueSkipsZeros(n, rest, base);
    ShortestValue(rest, base);
  }

  lemma ConvertZeros(ds: seq<nat>, from: nat, to: nat)
    requires to >= 2
    ensures LeadingZeros(Convert(ds, from, to)) == LeadingZeros(ds)
    ensures Value(Convert(ds, from, to), to) == Value(ds, from)
  {
    var n, v := LeadingZeros(ds), Value(ds, from);
    var c, short := Convert(ds, from, to), Shortest(v, to);
    ValueSkipsZeros(n, short, to);
    ValueShortest(v, to);
    if v > 0 { ShortestLeads(v, to); }
    assert forall i :: 0 <= i < n ==> c[i] == 0;
    assert n < |c| ==> c[n] == short[0];
  }

  /** Changing the base and back gives the same digits, leading zeros included. */
  lemma ConvertBack(ds: seq<nat>, from: nat, to: nat)
    requires from >= 2 && to >= 2 && Valid(ds, from)
    ensures Convert(Convert(ds, from, to), to, from) == ds
  {
    ConvertZeros(ds, from, to);
    SplitZeros(ds, from);
  }
}
