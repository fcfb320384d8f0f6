# goset in Dafny

A model of goset, a generic finite-set library for Go. The model covers two things.
The first is the `Set[T]` interface (`set.go`): membership, mutation, allocating and
in-place algebra, relations, enumeration and cardinality. The second is its only
realisation, `HashSet[T]` (`hashset.go`), a `map[T]struct{}` whose keys are the
members.

- `SetContract` (`set_contract.dfy`) models an operand of type `Set[T]` as `AnySet<T>`.
  It holds the three operations a `HashSet` method ever calls on its `other`: `contains`,
  one traversal `all`, and `len`. `Valid()` is the conformance condition: the traversal
  has no duplicates, `contains` agrees with it, and `len` is its length. `Model()` is the
  set it stands for. So every algebra operation works on any conforming implementation,
  not only on another `HashSet`.
- `HashSets` (`hashset.dfy`) models `HashSet<T>` as an immutable value over
  `map<T, ()>`. Each Go method that mutates its receiver returns the receiver's new value
  instead. Go's map iteration order is unspecified, so `All` picks each next key
  arbitrarily. Every contract holds for every possible visiting order.
- The second operand of an in-place operation is `Other<T>`. It is either `Distinct(s)`
  or `Aliased`, the receiver passed as its own argument (`s.Xor(s)`). With `Aliased`:
  - the traversal is of the receiver's contents at the call, because Go never yields a
    map entry deleted before it is reached, and these loops delete only the entry in
    hand;
  - `Contains` is asked of the receiver as it is being changed.
- `SetLaws` (`laws.dfy`) holds clients that combine the operations and are proved to
  answer `true` for all inputs. They cover in-place/allocating agreement, self-operation,
  commutativity, associativity, identity, the partition law and the subset relations,
  plus a few worked examples on small integer sets.

`IsSuperset` in the source does not do what its documentation says (see Findings). The
written behaviour is modelled as `IsSupersetAsWritten`. The documented behaviour is
modelled as `IsSuperset`, and that is the one the laws use.

## Model

| member | source | states |
|---|---|---|
| SetContract.NoDupCard | set.go:11 | a traversal with no repeated element has exactly as many distinct elements as entries |
| SetContract.LenIsCardinality | set.go:68-69 | for a conforming set, `Len` is the number of distinct members and `Contains` is membership in its model |
| SetContract.SubsetCard | hashset.go:188-191 | a subset is never larger than its superset, so `IsSubset`'s length guard only rejects non-subsets |
| SetContract.SubsetOfEqualSizeIsEqual | hashset.go:154-164 | a subset of the same cardinality is the whole set, which is what `Equals` relies on |
| HashSets.HashSet.NewHashSet | hashset.go:15-18 | the constructor yields a set with `Len() == 0` that contains no element |
| HashSets.HashSet.Add | hashset.go:20-26 | afterwards the element is a member, no other element's membership changes, and adding a present element leaves the set as it was |
| HashSets.HashSet.Remove | hashset.go:28-34 | afterwards the element is not a member, no other element's membership changes, and removing an absent element leaves the set as it was |
| HashSets.HashSet.Contains | hashset.go:36-42 | true exactly for the members |
| HashSets.HashSet.Len | hashset.go:216-219 | the number of distinct members; zero exactly for the empty set |
| HashSets.HashSet.All | hashset.go:210-214 | a traversal visits every member exactly once and nothing else; its length is `Len()` |
| HashSets.HashSet.Elements | hashset.go:200-208 | the slice holds every member and only members, without repetition, and its length is `Len()` |
| HashSets.HashSet.AsAnySet | hashset.go:10-13 | a HashSet conforms to `Set[T]`: its `Contains`, `All` and `Len` agree with one another and with its members |
| HashSets.HashSet.Traverse | hashset.go:102-106 | `other.All()` in an in-place operation visits each element of `other` once, and for the aliased receiver the members it had at the call |
| HashSets.HashSet.OtherContains | hashset.go:114-134 | `other.Contains(item)` in `Retain`/`Subtract` answers membership in `other`; for the aliased receiver this holds because the unvisited `item` is still present in the set being changed |
| HashSets.HashSet.Union | hashset.go:44-53 | the new set holds exactly the elements of either set |
| HashSets.HashSet.Intersection | hashset.go:55-66 | the new set holds exactly the elements present in both sets |
| HashSets.HashSet.Difference | hashset.go:68-82 | the new set holds exactly the receiver's elements that `other` lacks |
| HashSets.HashSet.SymmetricDifference | hashset.go:84-97 | the new set holds exactly the elements in one set but not both, whatever order `other` is traversed in |
| HashSets.HashSet.Toggle | hashset.go:88-96 | toggling each element of a duplicate-free traversal yields the symmetric difference of the start set and the traversed elements |
| HashSets.HashSet.Merge | hashset.go:99-106 | the receiver becomes old receiver ∪ other, and merging a set into itself changes nothing |
| HashSets.HashSet.Retain | hashset.go:108-120 | the receiver becomes old receiver ∩ other, and retaining against itself changes nothing |
| HashSets.HashSet.Subtract | hashset.go:122-134 | the receiver becomes old receiver \ other, and subtracting a set from itself empties it |
| HashSets.HashSet.Xor | hashset.go:136-147 | the receiver becomes the symmetric difference of old receiver and other, and xor with itself empties it |
| HashSets.HashSet.Equals | hashset.go:149-164 | true exactly when both sets have the same members |
| HashSets.HashSet.IsSupersetAsWritten | hashset.go:171-181 | the code as written answers true exactly when the two sets are equal |
| HashSets.HashSet.IsSuperset | set.go:54-55 | true exactly when every element of `other` is in the receiver, as documented |
| HashSets.HashSet.IsSubset | hashset.go:183-198 | true exactly when every member of the receiver is in `other` |
| HashSets.HashSet.String | hashset.go:221-228 | the text is `Set{` + the renderings of one enumeration of the members, each once, joined with `, ` + `}`; so `Set{}` for the empty set and `Set{` + the element's rendering + `}` for a singleton |
| SetLaws.InPlaceMatchesAllocating | hashset.go:99-147 | `Merge`, `Retain`, `Subtract` and `Xor` leave the receiver `Equals` to what `Union`, `Intersection`, `Difference` and `SymmetricDifference` return |
| SetLaws.SelfOperations | hashset.go:44-97 | `A.Union(A)` and `A.Intersection(A)` equal `A`; `A.Difference(A)` and `A.SymmetricDifference(A)` have length 0 |
| SetLaws.Commutativity | hashset.go:44-97 | `Union`, `Intersection` and `SymmetricDifference` give equal sets with the operands swapped |
| SetLaws.UnionAssociativity | hashset.go:44-53 | `A.Union(B.Union(C))` equals `A.Union(B).Union(C)` |
| SetLaws.IntersectionAssociativity | hashset.go:55-66 | `A.Intersection(B.Intersection(C))` equals `A.Intersection(B).Intersection(C)` |
| SetLaws.EmptyIdentity | hashset.go:44-66 | union with a new empty set equals the receiver; intersection with it has length 0 |
| SetLaws.PartitionLaw | hashset.go:44-82 | `A.Difference(B).Union(A.Intersection(B))` equals `A` |
| SetLaws.MutualSubsetIsEquality | hashset.go:149-198 | `A.IsSubset(B) && B.IsSubset(A)` holds exactly when `A.Equals(B)` |
| SetLaws.SupersetIsConverseSubset | set.go:54-58 | the documented `A.IsSuperset(B)` answers the same as `B.IsSubset(A)` |
| SetLaws.SupersetCounterexample | hashset.go:166-181 | on A = {1, 2}, B = {1} the written `IsSuperset` answers false, the documented one true |
| SetLaws.AlgebraScenario | hashset.go:44-97 | with A = {1,2,3} and B = {3,4,5}: union {1,2,3,4,5} of length 5, intersection {3}, difference {1,2}, symmetric difference {1,2,4,5} |
| SetLaws.RelationScenario | set.go:54-58 | with A = {1,2} and B = {1,2,3}: `A.IsSubset(B)`, the documented `B.IsSuperset(A)`, and not `A.Equals(B)`; the as-written `IsSuperset` (hashset.go:171-181) answers false on this very input |
| SetLaws.SubtractScenario | hashset.go:122-134 | `{1,2,3}.Subtract({2,3})` leaves `{1}` |

## Left out

- String: `fmt.Sprintf("%v", …)` is foreign formatting. It is a parameter `show: T -> string`, so what a member's text looks like is not modelled, only how the texts are joined and wrapped.
- Element types are restricted to `T(==,!new)`, types holding no references, because the conformance condition quantifies over all values of `T`. Go's `comparable` also admits pointer and channel elements.
- The doc comments' time-complexity claims are not functional behaviour.
- `iter.Seq` and `maps.Keys` form a lazy iteration protocol. `All` instead returns a materialised duplicate-free sequence in arbitrary order, so an early `break` out of a traversal is not modelled.
- A nil `HashSet` (the zero value) cannot be used. The model rules this out by construction: every `HashSet` is a map value, and `NewHashSet` is the constructor.
- Thread safety and concurrent mutation are out of scope; the library gives no guarantees there.
- The `testing/quick` harness in hashset_test.go is not modelled. The property it samples is `HashSet.NewHashSet`'s contract.
- Mutation is modelled as returning the receiver's new value. So "allocating operations change neither operand" and "`Merge`/`Xor` never change `other`" hold by value semantics and are not separate contracts.
- Only the exact self-alias (`Aliased`) is modelled. Two distinct `Set` values sharing one backing map are not.
- `AnySet` fixes one traversal per value. A conforming implementation whose repeated `All()` calls differ is still covered, because every operation traverses `other` at most once.
- `Len` is an unbounded `int`. Go's `len` cannot overflow for a map that fits in memory.

## Findings

| source | as written | input that shows it | evidently intended | confidence | as-written member | corrected member |
|---|---|---|---|---|---|---|
| hashset.go:171-181 | after rejecting `Len() < other.Len()`, the loop checks that every member of the receiver is in `other`, so it answers true only when the sets are equal | receiver {1, 2}, other {1}: answers false although {1, 2} contains {1}; likewise receiver {1, 2, 3}, other {1, 2} | true exactly when every element of `other` is in the receiver, as set.go:54 and hashset.go:166 document | not executed | HashSets.HashSet.IsSupersetAsWritten, SetLaws.SupersetCounterexample, SetLaws.RelationScenario | HashSets.HashSet.IsSuperset |

