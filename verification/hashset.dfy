/**
 `HashSet[T]`, goset's only realisation of the `Set[T]` interface: a Go
 `map[T]struct{}` whose keys are the members. The Go methods mutate the map in
 place; here a `HashSet` is an immutable value, and every method that mutates
 its receiver in Go returns the receiver's new value instead.

 Go's map iteration order is unspecified and may differ between traversals, so
 `All` picks the next key arbitrarily: every contract below holds for every
 order in which the keys could be visited.
 */
module HashSets {
  import opened SetContract

  /**
   The second operand of an in-place operation. `Aliased` is the receiver
   passed as its own `other` (`s.Merge(s)` in Go): its traversal starts from the
   receiver's contents at the call, and its `Contains` sees the receiver as it
   is being changed. `Distinct` is any other conforming set.
   */
  datatype Other<!T(==,!new)> = Aliased | Distinct(s: AnySet<T>)
  {
    ghost predicate Valid() {
      Distinct? ==> s.Valid()
    }

    /** The set this operand stands for when the receiver starts as `receiver`. */
    ghost function ModelWith(receiver: set<T>): set<T> {
      if Aliased? then receiver else s.Model()
    }
  }

  datatype HashSet<T(==,!new)> = HashSet(m: map<T, ()>)
  {
    /** The members: the keys of the map. */
    function Model(): set<T> {
      m.Keys
    }

    /** The constructor: an empty set, with no member. */
    static function NewHashSet(): (r: HashSet<T>)
      ensures r.Len() == 0
      ensures r.Model() == {}
      ensures forall x :: !r.Contains(x)
    {
      HashSet(map[])
    }

    /** Insertion; inserting a present element changes nothing. */
    function Add(element: T): (r: HashSet<T>)
      ensures r.Model() == Model() + {element}
      ensures forall y :: r.Contains(y) <==> y == element || Contains(y)
      ensures Contains(element) ==> r == this
    {
      assert element in m ==> m[element] == () && m[element := ()] == m;
      HashSet(m[element := ()])
    }

    /** Deletion; deleting an absent element changes nothing. */
    function Remove(element: T): (r: HashSet<T>)
      ensures r.Model() == Model() - {element}
      ensures forall y :: r.Contains(y) <==> y != element && Contains(y)
      ensures !Contains(element) ==> r == this
    {
      HashSet(m - {element})
    }

    /** Membership. */
    function Contains(element: T): (b: bool)
      ensures b <==> element in Model()
    {
      element in m
    }

    /** The number of entries of the map, which is the number of members. */
    function Len(): (n: int)
      ensures n == |Model()|
      ensures n == 0 <==> Model() == {}
    {
      |m|
    }

    /**
     One traversal of the keys in an unspecified order (`maps.Keys(set)`):
     every member exactly once.
     */
    method All() returns (xs: seq<T>)
      ensures NoDup(xs)
      ensures Elems(xs) == Model()
      ensures |xs| == Len()
    {
      xs := [];
      var rest := m.Keys;
      while rest != {}
        invariant NoDup(xs)
        invariant Elems(xs) + rest == m.Keys
        invariant Elems(xs) !! rest
        decreases rest
      {
        var x :| x in rest;
        xs := xs + [x];
        rest := rest - {x};
      }
      NoDupCard(xs);
    }

    /** A slice holding every member once, in an unspecified order. */
    method Elements() returns (es: seq<T>)
      ensures NoDup(es)
      ensures Enumerates(es, Model())
      ensures forall x :: x in es <==> Contains(x)
      ensures |es| == Len()
    {
      var items := All();
      es := [];
      for i := 0 to |items|
        invariant es == items[..i]
      {
        es := es + [items[i]];
      }
      assert items[..|items|] == items;
    }

    /** This set passed where a `Set[T]` is expected. */
    method AsAnySet() returns (v: AnySet<T>)
      ensures v.Valid()
      ensures v.Model() == Model()
    {
      var xs := All();
      v := AnySet(x => x in m, xs, |m|);
    }

    /**
     A traversal of `other` (`other.All()`). For the aliased receiver it is a
     traversal of the receiver's contents at the call: Go's map iteration
     never yields an entry deleted before it is reached, and the in-place
     operations delete only the entry in hand.
     */
    method Traverse(other: Other<T>) returns (source: seq<T>)
      requires other.Valid()
      ensures NoDup(source)
      ensures Elems(source) == other.ModelWith(Model())
    {
      if other.Aliased? {
        source := All();
      } else {
        source := other.s.all;
      }
    }

    /** A new set holding the members of either set; the receiver is cloned. */
    method Union(other: AnySet<T>) returns (r: HashSet<T>)
      requires other.Valid()
      ensures r.Model() == Model() + other.Model()
    {
      r := this;
      for i := 0 to |other.all|
        invariant r.Model() == Model() + Elems(other.all[..i])
      {
        ElemsSnoc(other.all, i);
        r := r.Add(other.all[i]);
      }
      assert other.all[..|other.all|] == other.all;
    }

    /** A new set holding the members of `other` that are also in the receiver. */
    method Intersection(other: AnySet<T>) returns (r: HashSet<T>)
      requires other.Valid()
      ensures r.Model() == Model() * other.Model()
    {
      r := NewHashSet();
      for i := 0 to |other.all|
        invariant r.Model() == Model() * Elems(other.all[..i])
      {
        ElemsSnoc(other.all, i);
        IntersectStep(Model(), Elems(other.all[..i]), other.all[i]);
        if Contains(other.all[i]) {
          r := r.Add(other.all[i]);
        }
      }
      assert other.all[..|other.all|] == other.all;
    }

    /** A new set holding the receiver's members that `other` lacks. */
    method Difference(other: AnySet<T>) returns (r: HashSet<T>)
      requires other.Valid()
      ensures r.Model() == Model() - other.Model()
    {
      var items := All();
      r := NewHashSet();
      for i := 0 to |items|
        invariant r.Model() == Elems(items[..i]) - other.Model()
      {
        ElemsSnoc(items, i);
        DifferenceStep(Elems(items[..i]), other.Model(), items[i]);
        assert other.contains(items[i]) <==> items[i] in other.Model();
        if !other.contains(items[i]) {
          r := r.Add(items[i]);
        }
      }
      assert items[..|items|] == items;
    }

    /**
     A new set holding the elements in exactly one of the two sets: the
     receiver is cloned and each element of `other` toggled. Because the
     traversal is duplicate-free, each element is toggled once, whatever the
     order.
     */
    method SymmetricDifference(other: AnySet<T>) returns (r: HashSet<T>)
      requires other.Valid()
      ensures r.Model() == SymDiff(Model(), other.Model())
    {
      r := Toggle(other.all);
    }

    /** The toggle loop shared by `SymmetricDifference` and `Xor`. */
    method Toggle(source: seq<T>) returns (r: HashSet<T>)
      requires NoDup(source)
      ensures r.Model() == SymDiff(Model(), Elems(source))
    {
      r := this;
      for i := 0 to |source|
        invariant r.Model() == SymDiff(Model(), Elems(source[..i]))
      {
        var e := source[i];
        ElemsSnoc(source, i);
        assert e !in Elems(source[..i]);
        if r.Contains(e) {
          r := r.Remove(e);
        } else {
          r := r.Add(e);
        }
      }
      assert source[..|source|] == source;
    }

    /** In-place union: the receiver's new value. */
    method Merge(other: Other<T>) returns (r: HashSet<T>)
      requires other.Valid()
      ensures r.Model() == Model() + other.ModelWith(Model())
      ensures other.Aliased? ==> r.Model() == Model()
    {
      var source := Traverse(other);
      r := this;
      for i := 0 to |source|
        invariant r.Model() == Model() + Elems(source[..i])
      {
        ElemsSnoc(source, i);
        r := r.Add(source[i]);
      }
      assert source[..|source|] == source;
    }

    /**
     `other.Contains(item)` asked during an in-place loop over the receiver's
     own members, when the receiver has become `live`. The aliased receiver is
     asked as it is now; since `item` has not been visited yet, it is still
     there.
     */
    method OtherContains(other: Other<T>, live: HashSet<T>, item: T) returns (b: bool)
      requires other.Valid()
      requires item in Model()
      requires other.Aliased? ==> item in live.Model()
      ensures b <==> item in other.ModelWith(Model())
    {
      if other.Aliased? {
        b := live.Contains(item);
      } else {
        b := other.s.contains(item);
      }
    }

    /**
     In-place intersection: the receiver's own members are visited and those
     `other` lacks are deleted. For the aliased receiver `Contains` is asked of
     the set being changed, which still holds every member not yet visited.
     */
    method Retain(other: Other<T>) returns (r: HashSet<T>)
      requires other.Valid()
      ensures r.Model() == Model() * other.ModelWith(Model())
      ensures other.Aliased? ==> r.Model() == Model()
    {
      var items := All();
      r := this;
      for i := 0 to |items|
        invariant r.Model() == Model() - (Elems(items[..i]) - other.ModelWith(Model()))
      {
        var item := items[i];
        ElemsSnoc(items, i);
        assert item !in Elems(items[..i]);
        assert item in r.Model();
        var inOther := OtherContains(other, r, item);
        RetainStep(Model(), Elems(items[..i]), other.ModelWith(Model()), item);
        if !inOther {
          r := r.Remove(item);
        }
      }
      assert items[..|items|] == items;
    }

    /**
     In-place difference: the receiver's own members are visited and those
     `other` holds are deleted. For the aliased receiver every visited member
     is still present, so all are deleted.
     */
    method Subtract(other: Other<T>) returns (r: HashSet<T>)
      requires other.Valid()
      ensures r.Model() == Model() - other.ModelWith(Model())
      ensures other.Aliased? ==> r.Model() == {}
    {
      var items := All();
      r := this;
      for i := 0 to |items|
        invariant r.Model() == Model() - (Elems(items[..i]) * other.ModelWith(Model()))
      {
        var item := items[i];
        ElemsSnoc(items, i);
        assert item !in Elems(items[..i]);
        assert item in r.Model();
        var inOther := OtherContains(other, r, item);
        SubtractStep(Model(), Elems(items[..i]), other.ModelWith(Model()), item);
        if inOther {
          r := r.Remove(item);
        }
      }
      assert items[..|items|] == items;
    }

    /** In-place symmetric difference: each element of `other` is toggled. */
    method Xor(other: Other<T>) returns (r: HashSet<T>)
      requires other.Valid()
      ensures r.Model() == SymDiff(Model(), other.ModelWith(Model()))
      ensures other.Aliased? ==> r.Model() == {}
    {
      var source := Traverse(other);
      r := Toggle(source);
    }

    /**
     Extensional equality: the lengths must agree and every member of the
     receiver must be in `other`, which together force the two to coincide.
     */
    method Equals(other: AnySet<T>) returns (b: bool)
      requires other.Valid()
      ensures b <==> Model() == other.Model()
    {
      LenIsCardinality(other);
      if Len() != other.len {
        return false;
      }
      var items := All();
      for i := 0 to |items|
        invariant Elems(items[..i]) <= other.Model()
      {
        ElemsSnoc(items, i);
        if !other.contains(items[i]) {
          return false;
        }
      }
      assert items[..|items|] == items;
      SubsetOfEqualSizeIsEqual(Model(), other.Model());
      return true;
    }

    /**
     `IsSuperset` as the Go source writes it: after the length guard it checks
     that every member of the RECEIVER is in `other`, so it answers whether
     the two sets are equal, not whether the receiver contains `other`.
     */
    method IsSupersetAsWritten(other: AnySet<T>) returns (b: bool)
      requires other.Valid()
      ensures b <==> Model() == other.Model()
    {
      LenIsCardinality(other);
      if Len() < other.len {
        return false;
      }
      var items := All();
      for i := 0 to |items|
        invariant Elems(items[..i]) <= other.Model()
      {
        ElemsSnoc(items, i);
        if !other.contains(items[i]) {
          return false;
        }
      }
      assert items[..|items|] == items;
      SubsetCard(Model(), other.Model());
      SubsetOfEqualSizeIsEqual(Model(), other.Model());
      return true;
    }

    /**
     `IsSuperset` as documented: every member of `other` is in the receiver.
     The length guard is a sound shortcut, and the loop visits `other`.
     */
    method IsSuperset(other: AnySet<T>) returns (b: bool)
      requires other.Valid()
      ensures b <==> other.Model() <= Model()
    {
      LenIsCardinality(other);
      if Len() < other.len {
        if other.Model() <= Model() {
          SubsetCard(other.Model(), Model());
        }
        return false;
      }
      for i := 0 to |other.all|
        invariant Elems(other.all[..i]) <= Model()
      {
        ElemsSnoc(other.all, i);
        if !Contains(other.all[i]) {
          return false;
        }
      }
      assert other.all[..|other.all|] == other.all;
      return true;
    }

    /**
     Every member of the receiver is in `other`. The length guard is a sound
     shortcut: a larger set cannot be a subset.
     */
    method IsSubset(other: AnySet<T>) returns (b: bool)
      requires other.Valid()
      ensures b <==> Model() <= other.Model()
    {
      LenIsCardinality(other);
      if Len() > other.len {
        if Model() <= other.Model() {
          SubsetCard(Model(), other.Model());
        }
        return false;
      }
      var items := All();
      for i := 0 to |items|
        invariant Elems(items[..i]) <= other.Model()
      {
        ElemsSnoc(items, i);
        if !other.contains(items[i]) {
          return false;
        }
      }
      assert items[..|items|] == items;
      return true;
    }

    /**
     The display form `Set{e1, e2, ...}`: each member rendered by `show` (Go's
     `%v` formatting, which is not part of this model) and joined with ", ",
     in traversal order. Whatever that order, the text is built from one
     enumeration of the members.
     */
    method String(show: T -> string) returns (s: string)
      ensures exists xs :: Enumerates(xs, Model()) && s == "Set{" + Join(Render(xs, show), ", ") + "}"
      ensures |s| >= 5 && s[..4] == "Set{" && s[|s| - 1] == '}'
      ensures Model() == {} ==> s == "Set{}"
      ensures forall x :: Model() == {x} ==> s == "Set{" + show(x) + "}"
    {
      var items := All();
      var parts: seq<string> := [];
      for i := 0 to |items|
        invariant parts == Render(items[..i], show)
      {
        parts := parts + [show(items[i])];
      }
      assert items[..|items|] == items;
      if |items| == 1 {
        assert Elems(items) == {items[0]};
        forall x | Model() == {x}
          ensures x == items[0]
        {
          assert x in Elems(items);
        }
      }
      s := "Set{" + Join(parts, ", ") + "}";
    }
  }

  /** Each element rendered by `show`, in order. */
  function Render<T>(xs: seq<T>, show: T -> string): (parts: seq<string>)
    ensures |parts| == |xs|
    ensures forall i :: 0 <= i < |xs| ==> parts[i] == show(xs[i])
  {
    seq(|xs|, i requires 0 <= i < |xs| => show(xs[i]))
  }

  /** `strings.Join`: the parts with `sep` between consecutive ones. */
  function Join(parts: seq<string>, sep: string): string
  {
    if |parts| == 0 then ""
    else if |parts| == 1 then parts[0]
    else parts[0] + sep + Join(parts[1..], sep)
  }
}
