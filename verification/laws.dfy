/**
 Algebraic laws of goset's HashSet, each stated as a client that combines the
 operations the way a property test would and proved to answer `true` for
 every pair of sets and every traversal order.
 */
module SetLaws {
  import opened SetContract
  import opened HashSets

  /** Each in-place operation leaves the receiver equal to what its allocating
      counterpart returns. */
  method InPlaceMatchesAllocating<T(==,!new)>(a: HashSet<T>, b: HashSet<T>)
    returns (merge: bool, retain: bool, subtract: bool, xor: bool)
    ensures merge && retain && subtract && xor
  {
    var bv := b.AsAnySet();

    var u := a.Union(bv);
    var m := a.Merge(Distinct(bv));
    var uv := u.AsAnySet();
    merge := m.Equals(uv);

    var i := a.Intersection(bv);
    var r := a.Retain(Distinct(bv));
    var iv := i.AsAnySet();
    retain := r.Equals(iv);

    var d := a.Difference(bv);
    var s := a.Subtract(Distinct(bv));
    var dv := d.AsAnySet();
    subtract := s.Equals(dv);

    var sd := a.SymmetricDifference(bv);
    var x := a.Xor(Distinct(bv));
    var sdv := sd.AsAnySet();
    xor := x.Equals(sdv);
  }

  /** A set combined with itself: `Union` and `Intersection` give it back,
      `Difference` and `SymmetricDifference` give the empty set. */
  method SelfOperations<T(==,!new)>(a: HashSet<T>)
    returns (union: bool, intersection: bool, difference: int, symmetric: int)
    ensures union && intersection
    ensures difference == 0 && symmetric == 0
  {
    var av := a.AsAnySet();
    var u := a.Union(av);
    union := u.Equals(av);
    var i := a.Intersection(av);
    intersection := i.Equals(av);
    var d := a.Difference(av);
    difference := d.Len();
    var sd := a.SymmetricDifference(av);
    symmetric := sd.Len();
  }

  /** `Union`, `Intersection` and `SymmetricDifference` do not depend on which
      operand is the receiver. */
  method Commutativity<T(==,!new)>(a: HashSet<T>, b: HashSet<T>)
    returns (union: bool, intersection: bool, symmetric: bool)
    ensures union && intersection && symmetric
  {
    var av := a.AsAnySet();
    var bv := b.AsAnySet();

    var ab := a.Union(bv);
    var ba := b.Union(av);
    var bav := ba.AsAnySet();
    union := ab.Equals(bav);

    var iab := a.Intersection(bv);
    var iba := b.Intersection(av);
    var ibav := iba.AsAnySet();
    intersection := iab.Equals(ibav);

    var sab := a.SymmetricDifference(bv);
    var sba := b.SymmetricDifference(av);
    var sbav := sba.AsAnySet();
    symmetric := sab.Equals(sbav);
  }

  /** `A.Union(B.Union(C))` equals `A.Union(B).Union(C)`. */
  method UnionAssociativity<T(==,!new)>(a: HashSet<T>, b: HashSet<T>, c: HashSet<T>)
    returns (ok: bool)
    ensures ok
  {
    var bv := b.AsAnySet();
    var cv := c.AsAnySet();
    var bc := b.Union(cv);
    var bcv := bc.AsAnySet();
    var left := a.Union(bcv);
    var ab := a.Union(bv);
    var right := ab.Union(cv);
    var rightv := right.AsAnySet();
    assert left.Model() == right.Model();
    ok := left.Equals(rightv);
  }

  /** `A.Intersection(B.Intersection(C))` equals
      `A.Intersection(B).Intersection(C)`. */
  method IntersectionAssociativity<T(==,!new)>(a: HashSet<T>, b: HashSet<T>, c: HashSet<T>)
    returns (ok: bool)
    ensures ok
  {
    var bv := b.AsAnySet();
    var cv := c.AsAnySet();
    var bc := b.Intersection(cv);
    var bcv := bc.AsAnySet();
    var left := a.Intersection(bcv);
    var ab := a.Intersection(bv);
    var right := ab.Intersection(cv);
    var rightv := right.AsAnySet();
    assert left.Model() == right.Model();
    ok := left.Equals(rightv);
  }

  /** The empty set is the identity of `Union` and annihilates
      `Intersection`. */
  method EmptyIdentity<T(==,!new)>(a: HashSet<T>)
    returns (union: bool, intersection: int)
    ensures union && intersection == 0
  {
    var e := HashSet<T>.NewHashSet();
    var ev := e.AsAnySet();
    var av := a.AsAnySet();
    var u := a.Union(ev);
    union := u.Equals(av);
    var i := a.Intersection(ev);
    intersection := i.Len();
  }

  /** `A.Difference(B).Union(A.Intersection(B))` equals `A`. */
  method PartitionLaw<T(==,!new)>(a: HashSet<T>, b: HashSet<T>) returns (ok: bool)
    ensures ok
  {
    var av := a.AsAnySet();
    var bv := b.AsAnySet();
    var d := a.Difference(bv);
    var i := a.Intersection(bv);
    var iv := i.AsAnySet();
    var u := d.Union(iv);
    ok := u.Equals(av);
  }

  /** Two sets each a subset of the other are exactly the equal ones. */
  method MutualSubsetIsEquality<T(==,!new)>(a: HashSet<T>, b: HashSet<T>)
    returns (both: bool, equal: bool)
    ensures both == equal
  {
    var av := a.AsAnySet();
    var bv := b.AsAnySet();
    var ab := a.IsSubset(bv);
    var ba := b.IsSubset(av);
    both := ab && ba;
    equal := a.Equals(bv);
  }

  /** The corrected `IsSuperset` is `IsSubset` with the operands swapped. */
  method SupersetIsConverseSubset<T(==,!new)>(a: HashSet<T>, b: HashSet<T>)
    returns (superset: bool, subset: bool)
    ensures superset == subset
  {
    var av := a.AsAnySet();
    var bv := b.AsAnySet();
    superset := a.IsSuperset(bv);
    subset := b.IsSubset(av);
  }

  /** The set {1, 2, 3} built from the constructor. */
  method OneTwoThree() returns (s: HashSet<int>)
    ensures s.Model() == {1, 2, 3}
  {
    s := HashSet<int>.NewHashSet().Add(1).Add(2).Add(3);
  }

  /** The set {3, 4, 5} built from the constructor. */
  method ThreeFourFive() returns (s: HashSet<int>)
    ensures s.Model() == {3, 4, 5}
  {
    s := HashSet<int>.NewHashSet().Add(3).Add(4).Add(5);
  }

  /**
   `{1, 2}` contains `{1}`, yet `IsSuperset` as written answers false for it
   while the corrected `IsSuperset` answers true.
   */
  method SupersetCounterexample() returns (asWritten: bool, corrected: bool)
    ensures !asWritten && corrected
  {
    var a := HashSet<int>.NewHashSet().Add(1).Add(2);
    var b := HashSet<int>.NewHashSet().Add(1);
    var bv := b.AsAnySet();
    asWritten := a.IsSupersetAsWritten(bv);
    corrected := a.IsSuperset(bv);
  }

  /** With A = {1, 2, 3} and B = {3, 4, 5}: the four allocating operations. */
  method AlgebraScenario()
    returns (union: HashSet<int>, intersection: HashSet<int>,
             difference: HashSet<int>, symmetric: HashSet<int>)
    ensures union.Model() == {1, 2, 3, 4, 5} && union.Len() == 5
    ensures intersection.Model() == {3}
    ensures difference.Model() == {1, 2}
    ensures symmetric.Model() == {1, 2, 4, 5}
  {
    var a := OneTwoThree();
    var b := ThreeFourFive();
    var bv := b.AsAnySet();
    union := a.Union(bv);
    assert union.Model() == {1, 2, 3, 4, 5};
    assert |{1, 2, 3, 4, 5}| == 5;
    intersection := a.Intersection(bv);
    assert intersection.Model() == {1, 2, 3} * {3, 4, 5} == {3};
    difference := a.Difference(bv);
    assert difference.Model() == {1, 2, 3} - {3, 4, 5} == {1, 2};
    symmetric := a.SymmetricDifference(bv);
    assert symmetric.Model() == SymDiff({1, 2, 3}, {3, 4, 5}) == {1, 2, 4, 5};
  }

  /**
   With A = {1, 2} and B = {1, 2, 3}: A is a subset of B, B is a superset of A
   by the documented `IsSuperset`, and the two are not equal. `IsSuperset` as
   written answers false here, a second witness of its defect.
   */
  method RelationScenario()
    returns (subset: bool, superset: bool, equal: bool, asWritten: bool)
    ensures subset && superset && !equal
    ensures !asWritten
  {
    var a := HashSet<int>.NewHashSet().Add(1).Add(2);
    var b := HashSet<int>.NewHashSet().Add(1).Add(2).Add(3);
    var av := a.AsAnySet();
    var bv := b.AsAnySet();
    subset := a.IsSubset(bv);
    superset := b.IsSuperset(av);
    equal := a.Equals(bv);
    asWritten := b.IsSupersetAsWritten(av);
  }

  /** `{1, 2, 3}.Subtract({2, 3})` leaves `{1}`. */
  method SubtractScenario() returns (a: HashSet<int>)
    ensures a.Model() == {1}
  {
    var s := OneTwoThree();
    var b := HashSet<int>.NewHashSet().Add(2).Add(3);
    var bv := b.AsAnySet();
    a := s.Subtract(Distinct(bv));
  }
}
