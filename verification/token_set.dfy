/** `TokenSet`: an immutable set of element types, built once and then only
    queried. The Java class keeps its members in a hash set; here the hash set's
    content is a duplicate-free sequence in insertion order, and `Members`, the
    mathematical set of its elements, is the reference every operation is
    proved against. */
module TokenSets {

  datatype TokenSet<T> = TokenSet(elements: seq<T>)

  /** No element type is stored twice. */
  ghost predicate NoDuplicates<T>(s: seq<T>) {
    forall i, j :: 0 <= i < j < |s| ==> s[i] != s[j]
  }

  /** The representation invariant every reachable token set keeps. */
  ghost predicate Valid<T>(s: TokenSet<T>) {
    NoDuplicates(s.elements)
  }

  /** The abstract value of a token set. */
  ghost function Members<T>(s: TokenSet<T>): set<T> {
    set t | t in s.elements
  }

  /** The set a freshly allocated `TokenSet` starts from. */
  function Empty<T>(): (r: TokenSet<T>)
    ensures Valid(r) && Members(r) == {}
  {
    TokenSet([])
  }

  /** `Set.add`: stores `t` unless it is already a member. */
  function Add<T(==,!new)>(s: TokenSet<T>, t: T): (r: TokenSet<T>)
    requires Valid(s)
    ensures Valid(r)
    ensures Members(r) == Members(s) + {t}
    ensures |r.elements| == |s.elements| + (if t in Members(s) then 0 else 1)
  {
    if t in s.elements then s else TokenSet(s.elements + [t])
  }

  /** `Set.addAll`: adds `ts` one after the other, keeping the members already
      present in their place. */
  function AddAll<T(==,!new)>(s: TokenSet<T>, ts: seq<T>): (r: TokenSet<T>)
    requires Valid(s)
    ensures Valid(r)
    ensures forall t :: t in Members(r) <==> t in Members(s) || t in ts
    ensures |r.elements| <= |s.elements| + |ts|
    ensures s.elements <= r.elements
    decreases |ts|
  {
    if |ts| == 0 then s else AddAll(Add(s, ts[0]), ts[1..])
  }

  /** `Set.retainAll`: drops every member that `keep` does not contain. */
  function RetainAll<T(==,!new)>(s: TokenSet<T>, keep: TokenSet<T>): (r: TokenSet<T>)
    requires Valid(s)
    ensures Valid(r)
    ensures forall t :: t in Members(r) <==> t in Members(s) && t in Members(keep)
    ensures |r.elements| <= |s.elements|
    decreases |s.elements|
  {
    if |s.elements| == 0 then s
    else
      var last := s.elements[|s.elements| - 1];
      var prefix := TokenSet(s.elements[..|s.elements| - 1]);
      assert Valid(prefix);
      assert s.elements == prefix.elements + [last];
      assert last !in prefix.elements;
      assert forall t :: t in Members(s) <==> t in Members(prefix) || t == last;
      var front := RetainAll(prefix, keep);
      assert last !in Members(front);
      if last in keep.elements then AppendFresh(front.elements, last); TokenSet(front.elements + [last])
      else front
  }

  /** `TokenSet.create`: a new set holding every type of the array. */
  function Create<T(==,!new)>(types: seq<T>): (r: TokenSet<T>)
    ensures Valid(r)
    ensures forall t :: IsInSet(r, t) <==> t in types
  {
    AddAll(Empty(), types)
  }

  /** `TokenSet.orSet`: a new set holding the members of both arguments. */
  function OrSet<T(==,!new)>(a: TokenSet<T>, b: TokenSet<T>): (r: TokenSet<T>)
    requires Valid(a) && Valid(b)
    ensures Valid(r)
    ensures forall t :: IsInSet(r, t) <==> IsInSet(a, t) || IsInSet(b, t)
  {
    AddAll(AddAll(Empty(), a.elements), b.elements)
  }

  /** `TokenSet.andSet`: a new set holding the members common to both arguments. */
  function AndSet<T(==,!new)>(a: TokenSet<T>, b: TokenSet<T>): (r: TokenSet<T>)
    requires Valid(a) && Valid(b)
    ensures Valid(r)
    ensures forall t :: IsInSet(r, t) <==> IsInSet(a, t) && IsInSet(b, t)
  {
    RetainAll(AddAll(Empty(), a.elements), b)
  }

  /** `TokenSet.isInSet`. */
  function IsInSet<T(==,!new)>(s: TokenSet<T>, t: T): (r: bool)
    ensures r <==> t in Members(s)
  {
    t in s.elements
  }

  /** `TokenSet.getTypes`: every member exactly once. The order is that of the
      representation; callers are promised no particular order. */
  function GetTypes<T(!new)>(s: TokenSet<T>): (r: seq<T>)
    requires Valid(s)
    ensures NoDuplicates(r)
    ensures |r| == |Members(s)|
    ensures forall t :: t in r <==> t in Members(s)
  {
    DistinctCardinality(s.elements);
    s.elements
  }

  /** Appending an absent element keeps a sequence duplicate-free. */
  lemma AppendFresh<T>(s: seq<T>, x: T)
    requires NoDuplicates(s) && x !in s
    ensures NoDuplicates(s + [x])
    ensures forall t :: t in s + [x] <==> t in s || t == x
  {
  }

  /** A duplicate-free sequence has as many distinct elements as entries. */
  lemma {:induction false} DistinctCardinality<T>(s: seq<T>)
    requires NoDuplicates(s)
    ensures |set t | t in s| == |s|
  {
    if |s| > 0 {
      var front := s[..|s| - 1];
      assert NoDuplicates(front);
      DistinctCardinality(front);
      var last := s[|s| - 1];
      assert last !in front;
      assert (set t | t in s) == (set t | t in front) + {last};
    }
  }

  /** `create` collapses repeated entries: the set has as many members as the
      array has entries exactly when no entry is repeated. */
  lemma {:induction false} CreateCollapsesDuplicates<T(!new)>(types: seq<T>)
    ensures |Members(Create(types))| <= |types|
    ensures |Members(Create(types))| == |types| <==> NoDuplicates(types)
  {
    var r := Create(types);
    DistinctCardinality(r.elements);
    assert Members(r) == set t | t in types;
    SetOfCardinality(types);
  }

  /** The set of a sequence's entries is no larger than the sequence, and as
      large exactly when no entry repeats. */
  lemma {:induction false} SetOfCardinality<T>(s: seq<T>)
    ensures |set t | t in s| <= |s|
    ensures |set t | t in s| == |s| <==> NoDuplicates(s)
  {
    if |s| == 0 {
    } else {
      var front := s[..|s| - 1];
      var last := s[|s| - 1];
      SetOfCardinality(front);
      assert s == front + [last];
      assert (set t | t in s) == (set t | t in front) + {last};
      if last in front {
        assert (set t | t in s) == (set t | t in front);
        var k :| 0 <= k < |front| && front[k] == last;
        assert s[k] == s[|s| - 1];
        assert !NoDuplicates(s);
      } else {
        if NoDuplicates(front) {
          forall i, j | 0 <= i < j < |s| ensures s[i] != s[j] {
            if j == |s| - 1 {
              assert s[i] == front[i];
            } else {
              assert s[i] == front[i] && s[j] == front[j];
            }
          }
        } else {
          var i, j :| 0 <= i < j < |front| && front[i] == front[j];
          assert s[i] == s[j];
        }
      }
    }
  }

  /** `create` followed by `isInSet`: membership is occurrence in the array. */
  lemma CreateMembership<T(!new)>(types: seq<T>, t: T)
    ensures IsInSet(Create(types), t) <==> exists i :: 0 <= i < |types| && types[i] == t
  {
  }

  /** The abstract value of `orSet` is the union, so each argument lies
      within it. */
  lemma OrSetIsUnion<T(!new)>(a: TokenSet<T>, b: TokenSet<T>)
    requires Valid(a) && Valid(b)
    ensures Members(OrSet(a, b)) == Members(a) + Members(b)
    ensures Members(a) <= Members(OrSet(a, b)) && Members(b) <= Members(OrSet(a, b))
  {
  }

  /** The abstract value of `andSet` is the intersection, so it lies within
      each argument. */
  lemma AndSetIsIntersection<T(!new)>(a: TokenSet<T>, b: TokenSet<T>)
    requires Valid(a) && Valid(b)
    ensures Members(AndSet(a, b)) == Members(a) * Members(b)
    ensures Members(AndSet(a, b)) <= Members(a) && Members(AndSet(a, b)) <= Members(b)
  {
  }

  /** Combining a set with itself gives back the same members. */
  lemma SelfCombinationIsIdentity<T(!new)>(a: TokenSet<T>)
    requires Valid(a)
    ensures Members(OrSet(a, a)) == Members(a)
    ensures Members(AndSet(a, a)) == Members(a)
  {
  }

  /** Adding a duplicate-free sequence to the empty set rebuilds it verbatim. */
  lemma {:induction false} AddAllOfOwnElements<T(!new)>(s: TokenSet<T>, ts: seq<T>)
    requires Valid(s) && NoDuplicates(s.elements + ts)
    ensures AddAll(s, ts) == TokenSet(s.elements + ts)
    decreases |ts|
  {
    if |ts| > 0 {
      var all := s.elements + ts;
      assert ts[0] == all[|s.elements|];
      assert forall k :: 0 <= k < |s.elements| ==> s.elements[k] == all[k] != all[|s.elements|];
      var s' := Add(s, ts[0]);
      assert s'.elements + ts[1..] == s.elements + ts;
      AddAllOfOwnElements(s', ts[1..]);
    }
  }

  /** `getTypes` and `create` are inverse: rebuilding a set from its types
      gives back the same set, and the types of a created set are the array's
      entries without repetition. */
  lemma GetTypesRoundTrip<T(!new)>(s: TokenSet<T>, types: seq<T>)
    requires Valid(s)
    ensures Members(Create(GetTypes(s))) == Members(s)
    ensures Create(GetTypes(s)) == s
    ensures forall t :: t in GetTypes(Create(types)) <==> t in types
  {
    AddAllOfOwnElements(Empty(), s.elements);
    assert Empty<T>().elements + s.elements == s.elements;
  }
}
