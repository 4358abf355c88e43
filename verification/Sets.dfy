/** Facts about finite sets shared by the other modules. */
module Sets {

  /** Some element of a non-empty set. */
  method AnyOf<T>(s: set<T>) returns (x: T)
    requires s != {}
    ensures x in s
  {
    x :| x in s;
  }

  lemma Witness<T>(s: set<T>) returns (x: T)
    requires s != {}
    ensures x in s
  {
    x :| x in s;
  }

  /** The first element of an ordered set. */
  method Least(s: set<int>) returns (x: int)
    requires s != {}
    ensures x in s && forall y :: y in s ==> x <= y
  {
    x := AnyOf(s);
    var rest := s - {x};
    while rest != {}
      invariant x in s && rest <= s && forall y :: y in s ==> y in rest || x <= y
      decreases rest
    {
      var y := AnyOf(rest);
      if y < x { x := y; }
      rest := rest - {y};
    }
  }

  /** The elements in order. */
  method Ascending(s: set<int>) returns (q: seq<int>)
    ensures |q| == |s| && forall x :: x in q <==> x in s
    ensures forall i, j :: 0 <= i < j < |q| ==> q[i] < q[j]
  {
    var rest := s;
    q := [];
    while rest != {}
      invariant rest <= s && |q| + |rest| == |s|
      invariant forall x :: x in s <==> x in q || x in rest
      invariant forall i, x :: 0 <= i < |q| && x in rest ==> q[i] < x
      invariant forall i, j :: 0 <= i < j < |q| ==> q[i] < q[j]
      decreases rest
    {
      var x := Least(rest);
      q := q + [x];
      rest := rest - {x};
    }
  }

  /** A subset is no larger. */
  lemma {:induction false} SubsetSize<T>(s: set<T>, t: set<T>)
    requires s <= t
    ensures |s| <= |t|
  {
    if s != {} {
      var x := Witness(s);
      SubsetSize(s - {x}, t - {x});
    }
  }
}
