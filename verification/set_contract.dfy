/**
 The `Set[T]` interface of goset: what any set value offers to the algebra
 operations of another set. An operand is only ever used through three of its
 operations (`Contains`, `All` and `Len`), so it is modelled as a value holding
 exactly those three, together with the well-formedness condition every
 conforming implementation meets.
 */
module SetContract {

  /** True iff no element occurs twice in `s`. */
  predicate NoDup<T(==)>(s: seq<T>) {
    forall i, j :: 0 <= i < j < |s| ==> s[i] != s[j]
  }

  /** The elements of a sequence, as a set. */
  function Elems<T>(s: seq<T>): set<T> {
    set x | x in s
  }

  /** Extending a prefix by one entry adds that entry to its elements. */
  lemma ElemsSnoc<T>(s: seq<T>, i: int)
    requires 0 <= i < |s|
    ensures Elems(s[..i + 1]) == Elems(s[..i]) + {s[i]}
  {
  }

  /** Elements present in exactly one of `a` and `b`. */
  function SymDiff<T>(a: set<T>, b: set<T>): set<T> {
    (a - b) + (b - a)
  }

  /** True iff `xs` enumerates `s`: every member once, nothing else. */
  ghost predicate Enumerates<T>(xs: seq<T>, s: set<T>) {
    NoDup(xs) && Elems(xs) == s
  }

  /**
   Any value satisfying `Set[T]`, seen through the operations an algebra
   operation may call on it: membership, one traversal of its elements and its
   cardinality. The traversal order is whatever the implementation produces.
   */
  datatype AnySet<!T(==,!new)> = AnySet(contains: T -> bool, all: seq<T>, len: int)
  {
    /** The conformance condition: a duplicate-free traversal that agrees with
        `contains`, and a length equal to the number of distinct members. */
    ghost predicate Valid() {
      && NoDup(all)
      && len == |all|
      && forall x :: contains(x) <==> x in all
    }

    /** The mathematical set this value stands for. */
    ghost function Model(): set<T> {
      Elems(all)
    }
  }

  /** A duplicate-free sequence has as many distinct elements as entries. */
  lemma {:induction false} NoDupCard<T>(s: seq<T>)
    requires NoDup(s)
    ensures |Elems(s)| == |s|
  {
    if s != [] {
      var t := s[1..];
      assert NoDup(t);
      NoDupCard(t);
      assert Elems(s) == Elems(t) + {s[0]};
      assert s[0] !in Elems(t);
    }
  }

  /** For a conforming set, `Len` is the number of distinct members. */
  lemma LenIsCardinality<T(!new)>(v: AnySet<T>)
    requires v.Valid()
    ensures v.len == |v.Model()|
    ensures forall x :: v.contains(x) <==> x in v.Model()
  {
    NoDupCard(v.all);
  }

  /** Intersecting with one more element. */
  lemma IntersectStep<T>(a: set<T>, p: set<T>, e: T)
    ensures a * (p + {e}) == if e in a then a * p + {e} else a * p
  {
  }

  /** Subtracting `o` from one more element. */
  lemma DifferenceStep<T>(p: set<T>, o: set<T>, e: T)
    ensures (p + {e}) - o == if e in o then p - o else (p - o) + {e}
  {
  }

  /** Visiting one more element `e` in an in-place intersection: what it
      drops grows by `e` exactly when `o` lacks it. */
  lemma RetainStep<T>(a: set<T>, p: set<T>, o: set<T>, e: T)
    ensures a - ((p + {e}) - o) == if e in o then a - (p - o) else (a - (p - o)) - {e}
  {
  }

  /** Visiting one more element `e` in an in-place difference: what it drops
      grows by `e` exactly when `o` has it. */
  lemma SubtractStep<T>(a: set<T>, p: set<T>, o: set<T>, e: T)
    ensures a - ((p + {e}) * o) == if e in o then (a - (p * o)) - {e} else a - (p * o)
  {
  }

  /** A subset is never larger than its superset. */
  lemma SubsetCard<T>(a: set<T>, b: set<T>)
    requires a <= b
    ensures |a| <= |b|
  {
    assert b == a + (b - a);
  }

  /** A subset of the same size is the whole set. */
  lemma SubsetOfEqualSizeIsEqual<T>(a: set<T>, b: set<T>)
    requires a <= b && |a| == |b|
    ensures a == b
  {
    assert b == a + (b - a);
    assert |b - a| == 0;
  }
}
