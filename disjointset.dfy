/** The union-find structure of disjointset.h, used by connected-component
    labelling.

    Every stored element has a representative; a representative keeps the
    list of the other members of its set, and every other element keeps an
    empty list.  The pointers of the source become two maps keyed by the
    element value: `rep` (element to its representative) and `list`
    (element to its list).  Elements compare by value only, as the source's
    `DisjointSetItem` does. */
module DisjointSets {

  /** The conditions `selfcheck()` checks, on the two maps: every stored
      item has a representative that is stored and represents itself, a
      representative's list holds exactly items pointing to it whose own lists
      are empty, every other item has an empty list and is in its
      representative's list, and no stored item is the default element (so
      `find` of a stored item never answers "not found"). */
  predicate Wellformed<T>(rep: map<T, T>, list: map<T, set<T>>, dflt: T)
  {
    && rep.Keys == list.Keys
    && dflt !in rep
    && RepsAreRoots(rep)
    && RootListsPointBack(rep, list)
    && OthersAreListed(rep, list)
  }

  predicate RepsAreRoots<T>(rep: map<T, T>)
  {
    forall e :: e in rep ==> rep[e] in rep && rep[rep[e]] == rep[e]
  }

  predicate RootListsPointBack<T>(rep: map<T, T>, list: map<T, set<T>>)
    requires rep.Keys == list.Keys
  {
    forall e, m :: e in rep && rep[e] == e && m in list[e] ==>
      m in rep && m != e && rep[m] == e && list[m] == {}
  }

  predicate OthersAreListed<T>(rep: map<T, T>, list: map<T, set<T>>)
    requires rep.Keys == list.Keys
  {
    forall e :: e in rep && rep[e] != e ==> list[e] == {} && rep[e] in list && e in list[rep[e]]
  }

  /** The representatives after `join` has pointed small's set at large. */
  function JoinRep<T>(rep: map<T, T>, small: T, large: T): map<T, T>
  {
    map e | e in rep :: if rep[e] == small then large else rep[e]
  }

  /** The lists after `join`: small's members and small itself move to
      large's list, and small's list is emptied. */
  function JoinList<T>(list: map<T, set<T>>, small: T, large: T): map<T, set<T>>
    requires small in list && large in list
  {
    list[large := list[large] + list[small] + {small}][small := {}]
  }

  /** Joining two distinct representatives keeps every `selfcheck()`
      condition. */
  lemma JoinKeepsWellformed<T>(rep: map<T, T>, list: map<T, set<T>>, dflt: T, small: T, large: T)
    requires Wellformed(rep, list, dflt)
    requires small in rep && large in rep && rep[small] == small && rep[large] == large
    requires small != large
    ensures Wellformed(JoinRep(rep, small, large), JoinList(list, small, large), dflt)
  {
    var rep', list' := JoinRep(rep, small, large), JoinList(list, small, large);
    assert rep'.Keys == list'.Keys;
    JoinKeepsRoots(rep, small, large);
    JoinKeepsRootLists(rep, list, dflt, small, large);
    JoinKeepsListed(rep, list, dflt, small, large);
  }

  lemma JoinKeepsRoots<T>(rep: map<T, T>, small: T, large: T)
    requires RepsAreRoots(rep)
    requires small in rep && large in rep && rep[small] == small && rep[large] == large
    requires small != large
    ensures RepsAreRoots(JoinRep(rep, small, large))
  {
    var rep' := JoinRep(rep, small, large);
    forall e | e in rep' ensures rep'[e] in rep' && rep'[rep'[e]] == rep'[e] {
      assert rep[e] in rep;
    }
  }

  lemma JoinKeepsRootLists<T>(rep: map<T, T>, list: map<T, set<T>>, dflt: T, small: T, large: T)
    requires Wellformed(rep, list, dflt)
    requires small in rep && large in rep && rep[small] == small && rep[large] == large
    requires small != large
    ensures JoinRep(rep, small, large).Keys == JoinList(list, small, large).Keys
    ensures RootListsPointBack(JoinRep(rep, small, large), JoinList(list, small, large))
  {
    var rep', list' := JoinRep(rep, small, large), JoinList(list, small, large);
    forall e, m | e in rep' && rep'[e] == e && m in list'[e]
      ensures m in rep' && m != e && rep'[m] == e && list'[m] == {}
    {
      assert e != small;
      if e != large {
        assert rep[e] == e && m in list[e];
      } else if m in list[large] {
        assert rep[m] == large;
      } else if m in list[small] {
        assert rep[m] == small;
      }
    }
  }

  lemma JoinKeepsListed<T>(rep: map<T, T>, list: map<T, set<T>>, dflt: T, small: T, large: T)
    requires Wellformed(rep, list, dflt)
    requires small in rep && large in rep && rep[small] == small && rep[large] == large
    requires small != large
    ensures JoinRep(rep, small, large).Keys == JoinList(list, small, large).Keys
    ensures OthersAreListed(JoinRep(rep, small, large), JoinList(list, small, large))
  {
    var rep', list' := JoinRep(rep, small, large), JoinList(list, small, large);
    forall e | e in rep' && rep'[e] != e
      ensures list'[e] == {} && rep'[e] in list' && e in list'[rep'[e]]
    {
      if e == small {
      } else if rep[e] == small {
        assert e in list[small];
      } else {
        assert rep[e] != e && e in list[rep[e]];
        if rep[e] != large {
          assert rep[rep[e]] == rep[e];
        }
      }
    }
  }

  /** a and b are stored and share a representative. */
  predicate SameSet<T>(rep: map<T, T>, a: T, b: T)
  {
    a in rep && b in rep && rep[a] == rep[b]
  }

  /** After joining the sets of e1 and e2, two elements share a
      representative exactly when they did before, or one was in e1's set and
      the other in e2's. */
  lemma JoinSame<T>(rep: map<T, T>, list: map<T, set<T>>, dflt: T, small: T, large: T, e1: T, e2: T)
    requires Wellformed(rep, list, dflt)
    requires small in rep && large in rep && rep[small] == small && rep[large] == large
    requires small != large
    requires e1 in rep && e2 in rep
    requires (rep[e1] == small && rep[e2] == large) || (rep[e1] == large && rep[e2] == small)
    ensures forall a, b :: a in rep && b in rep ==>
      (SameSet(JoinRep(rep, small, large), a, b) <==>
         SameSet(rep, a, b) || (SameSet(rep, a, e1) && SameSet(rep, b, e2))
                            || (SameSet(rep, a, e2) && SameSet(rep, b, e1)))
  {
  }

  /** Every element of a set is its representative or in its list; the
      representative's list is what join's size comparison measures.  The
      joined set's list holds both lists plus the old small representative,
      so its size is the sum of the two set sizes. */
  lemma {:induction false} JoinListSize<T>(rep: map<T, T>, list: map<T, set<T>>, dflt: T, small: T, large: T)
    requires Wellformed(rep, list, dflt)
    requires small in rep && large in rep && rep[small] == small && rep[large] == large
    requires small != large
    ensures |JoinList(list, small, large)[large]| == |list[large]| + |list[small]| + 1
  {
    assert list[large] !! list[small] by {
      forall m | m in list[large] ensures m !in list[small] {
        assert rep[m] == large;
      }
    }
    assert small !in list[large] + list[small];
  }

  /** After join's loop, the last three assignments complete the joined
      maps. */
  lemma MergeTail<T>(rep0: map<T, T>, list0: map<T, set<T>>, rep1: map<T, T>, list1: map<T, set<T>>,
                     small: T, large: T)
    requires small in rep0 && rep0[small] == small && large in list0 && small in list0 && small != large
    requires forall e :: e in list0[small] <==> e in rep0 && rep0[e] == small && e != small
    requires rep1.Keys == rep0.Keys
    requires forall e :: e in rep1 ==> rep1[e] == if e in list0[small] then large else rep0[e]
    requires list1 == list0[large := list0[large] + list0[small]]
    ensures rep1[small := large] == JoinRep(rep0, small, large)
    ensures list1[large := list1[large] + {small}][small := {}] == JoinList(list0, small, large)
  {
  }

  /** The members that join's loop re-points are the elements whose
      representative is small, except small itself. */
  lemma SmallListIsSmallSet<T>(rep: map<T, T>, list: map<T, set<T>>, dflt: T, small: T)
    requires Wellformed(rep, list, dflt)
    requires small in rep && rep[small] == small
    ensures forall e :: e in list[small] <==> e in rep && rep[e] == small && e != small
  {
  }

  /** What `join(e1, e2)` does to the two maps: nothing when either element
      is missing or both already share a representative; otherwise the
      representative with the strictly longer list ("large") absorbs the
      other ("small"), and on a tie e2's representative is the large one. */
  function JoinSpec<T>(rep: map<T, T>, list: map<T, set<T>>, dflt: T, e1: T, e2: T): (map<T, T>, map<T, set<T>>)
    requires Wellformed(rep, list, dflt)
  {
    if e1 !in rep || e2 !in rep || rep[e1] == rep[e2] then (rep, list)
    else
      var r1, r2 := rep[e1], rep[e2];
      var large := if |list[r1]| > |list[r2]| then r1 else r2;
      var small := if large == r1 then r2 else r1;
      (JoinRep(rep, small, large), JoinList(list, small, large))
  }

  /** `join` keeps every `selfcheck()` condition and the set of stored
      elements. */
  lemma JoinSpecWellformed<T>(rep: map<T, T>, list: map<T, set<T>>, dflt: T, e1: T, e2: T)
    requires Wellformed(rep, list, dflt)
    ensures Wellformed(JoinSpec(rep, list, dflt, e1, e2).0, JoinSpec(rep, list, dflt, e1, e2).1, dflt)
    ensures JoinSpec(rep, list, dflt, e1, e2).0.Keys == rep.Keys
  {
    if e1 in rep && e2 in rep && rep[e1] != rep[e2] {
      var r1, r2 := rep[e1], rep[e2];
      var large := if |list[r1]| > |list[r2]| then r1 else r2;
      var small := if large == r1 then r2 else r1;
      JoinKeepsWellformed(rep, list, dflt, small, large);
    }
  }

  /** After `join(e1, e2)` with both stored, e1 and e2 are in one set, and two
      stored elements share a set exactly when they did before, or one was in
      e1's set and the other in e2's: the partition is merged at those two
      blocks and nowhere else.  With either element missing nothing
      changes. */
  lemma JoinSpecMergesSets<T>(rep: map<T, T>, list: map<T, set<T>>, dflt: T, e1: T, e2: T)
    requires Wellformed(rep, list, dflt)
    ensures e1 in rep && e2 in rep ==> SameSet(JoinSpec(rep, list, dflt, e1, e2).0, e1, e2)
    ensures e1 in rep && e2 in rep ==> forall a, b :: a in rep && b in rep ==>
      (SameSet(JoinSpec(rep, list, dflt, e1, e2).0, a, b) <==>
         SameSet(rep, a, b) || (SameSet(rep, a, e1) && SameSet(rep, b, e2))
                            || (SameSet(rep, a, e2) && SameSet(rep, b, e1)))
    ensures e1 !in rep || e2 !in rep ==> JoinSpec(rep, list, dflt, e1, e2) == (rep, list)
  {
    if e1 in rep && e2 in rep && rep[e1] != rep[e2] {
      var r1, r2 := rep[e1], rep[e2];
      var large := if |list[r1]| > |list[r2]| then r1 else r2;
      var small := if large == r1 then r2 else r1;
      JoinSame(rep, list, dflt, small, large, e1, e2);
    }
  }

  /** Union by size: the merged set's list is as long as both old lists plus
      the absorbed representative, and the surviving representative is e1's
      when its list was strictly longer and e2's otherwise, ties included. */
  lemma JoinSpecUnionBySize<T>(rep: map<T, T>, list: map<T, set<T>>, dflt: T, e1: T, e2: T)
    requires Wellformed(rep, list, dflt)
    requires e1 in rep && e2 in rep && rep[e1] != rep[e2]
    ensures var (rep', list') := JoinSpec(rep, list, dflt, e1, e2);
      var root := rep'[e1];
      && root == rep'[e2]
      && (|list[rep[e1]]| > |list[rep[e2]]| ==> root == rep[e1])
      && (|list[rep[e1]]| <= |list[rep[e2]]| ==> root == rep[e2])
      && |list'[root]| == |list[rep[e1]]| + |list[rep[e2]]| + 1
  {
    var r1, r2 := rep[e1], rep[e2];
    var large := if |list[r1]| > |list[r2]| then r1 else r2;
    var small := if large == r1 then r2 else r1;
    JoinListSize(rep, list, dflt, small, large);
  }

  /** Adding a new element that is not the default keeps every
      `selfcheck()` condition and leaves the existing sets as they were. */
  lemma AddKeepsWellformed<T>(rep: map<T, T>, list: map<T, set<T>>, dflt: T, elem: T)
    requires Wellformed(rep, list, dflt)
    requires elem != dflt && elem !in rep
    ensures Wellformed(rep[elem := elem], list[elem := {}], dflt)
    ensures forall a, b :: a in rep && b in rep ==> (SameSet(rep[elem := elem], a, b) <==> SameSet(rep, a, b))
  {
    var rep', list' := rep[elem := elem], list[elem := {}];
    forall e, m | e in rep' && rep'[e] == e && m in list'[e]
      ensures m in rep' && m != e && rep'[m] == e && list'[m] == {}
    {
      assert e != elem && m in list[e];
    }
  }

  class DisjointSet<T(==)> {
    /** Each stored element's representative. */
    var rep: map<T, T>
    /** Each stored element's list: the other members of its set when it is
        a representative, empty otherwise. */
    var list: map<T, set<T>>
    /** The value `find` returns for a missing element; it can never be
        added. */
    const defaultElem: T

    /** `selfcheck()` passes exactly when this holds. */
    predicate SelfCheck()
      reads this
    {
      Wellformed(rep, list, defaultElem)
    }

    /** The stored elements. */
    function Elements(): set<T>
      reads this
    {
      rep.Keys
    }

    /** `DisjointSet(notfound)`: an empty structure. */
    constructor (notfound: T)
      ensures defaultElem == notfound
      ensures rep == map[] && list == map[]
      ensures SelfCheck()
    {
      defaultElem := notfound;
      rep := map[];
      list := map[];
    }

    /** `find`: the representative of elem's set, or the default element when
        elem is not stored. */
    function Find(elem: T): (r: T)
      reads this
      ensures SelfCheck() ==> (r == defaultElem <==> elem !in Elements())
      ensures SelfCheck() && elem in Elements() ==> r in Elements() && rep[r] == r
      ensures elem in Elements() ==> r == rep[elem]
    {
      if elem in rep then rep[elem] else defaultElem
    }

    /** Two stored elements are in the same set. */
    predicate Same(a: T, b: T)
      reads this
    {
      SameSet(rep, a, b)
    }

    /** `add`: stores elem as a set of its own unless it is already stored;
        adding the default element throws `ElementIsDefault` (reported here
        as `isDefault`) and changes nothing. */
    method Add(elem: T) returns (isDefault: bool)
      requires SelfCheck()
      modifies this
      ensures SelfCheck()
      ensures isDefault <==> elem == defaultElem
      ensures isDefault || elem in old(rep) ==> rep == old(rep) && list == old(list)
      ensures !isDefault && elem !in old(rep) ==>
        rep == old(rep)[elem := elem] && list == old(list)[elem := {}]
    {
      if elem == defaultElem {
        return true;
      }
      if elem !in rep {
        AddKeepsWellformed(rep, list, defaultElem, elem);
        rep := rep[elem := elem];
        list := list[elem := {}];
      }
      return false;
    }

    /** The loop of `join`: every member of small's list now points to large
        and is added to large's list. */
    method MoveMembers(small: T, large: T)
      requires rep.Keys == list.Keys && small in rep && large in rep && small != large
      requires list[small] <= rep.Keys
      modifies this
      ensures rep.Keys == old(rep.Keys)
      ensures forall e :: e in rep ==> rep[e] == if e in old(list[small]) then large else old(rep[e])
      ensures list == old(list)[large := old(list[large]) + old(list[small])]
    {
      var todo := list[small];
      assert old(list[small]) - todo == {};
      assert old(list[large]) + {} == old(list[large]);
      assert list == old(list)[large := old(list[large]) + (old(list[small]) - todo)];
      while todo != {}
        invariant todo <= old(list[small])
        invariant rep.Keys == old(rep.Keys) && list.Keys == old(list.Keys)
        invariant forall e :: e in rep ==> rep[e] == if e in old(list[small]) - todo then large else old(rep[e])
        invariant list == old(list)[large := old(list[large]) + (old(list[small]) - todo)]
        decreases todo
      {
        var item :| item in todo;
        rep := rep[item := large];
        list := list[large := list[large] + {item}];
        ghost var moved := old(list[small]) - todo;
        todo := todo - {item};
        assert old(list[small]) - todo == moved + {item};
        assert list[large] == old(list[large]) + (moved + {item});
      }
      assert old(list[small]) - todo == old(list[small]);
    }

    /** `join`: merges the sets of elem1 and elem2 as `JoinSpec` says.
        Small's members and small itself are re-pointed to large and moved
        to large's list; small's list is emptied. */
    method Join(elem1: T, elem2: T)
      requires SelfCheck()
      modifies this
      ensures SelfCheck()
      ensures (rep, list) == JoinSpec(old(rep), old(list), defaultElem, elem1, elem2)
    {
      if elem1 !in rep || elem2 !in rep {
        return;
      }
      var r1, r2 := rep[elem1], rep[elem2];
      if r1 == r2 {
        return;
      }
      var large, small;
      if |list[r1]| > |list[r2]| {
        large, small := r1, r2;
      } else {
        large, small := r2, r1;
      }
      ghost var rep0, list0 := rep, list;
      MergeRoots(small, large);
      JoinKeepsWellformed(rep0, list0, defaultElem, small, large);
      assert (rep, list) == JoinSpec(rep0, list0, defaultElem, elem1, elem2);
    }

    /** The part of `join` after the two representatives are chosen: small's
        list is moved over, then small itself joins large's list and points
        to large. */
    method MergeRoots(small: T, large: T)
      requires SelfCheck()
      requires small in rep && large in rep && rep[small] == small && rep[large] == large
      requires small != large
      modifies this
      ensures rep == JoinRep(old(rep), small, large) && list == JoinList(old(list), small, large)
    {
      ghost var rep0, list0 := rep, list;
      SmallListIsSmallSet(rep0, list0, defaultElem, small);
      MoveMembers(small, large);
      MergeTail(rep0, list0, rep, list, small, large);
      list := list[large := list[large] + {small}];
      list := list[small := {}];
      rep := rep[small := large];
    }
  }
}
