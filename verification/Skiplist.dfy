/**
 The address-ordered skiplist of free blocks (base/low_level_alloc.cc:50-139).

 Memory is modelled one map per field of AllocList: levels[p] and next[(p, i)].  A pointer is
 the integer address it holds, NULL is 0, and every block has a positive address.  The list
 head is a field of the arena and its address is never compared with a block's, so it gets a
 reserved address below all blocks.
 */
module Skiplist {
  import opened IntSets
  import opened SkiplistLevels

  const NULL := 0
  const HEAD := -1

  /** n is what next[(p, i)] has to be: the lowest node above p that has more than i levels. */
  ghost predicate IsNext(nodes: set<int>, levels: map<int, int>, p: int, i: int, n: int)
    requires nodes <= levels.Keys
  {
    if n == NULL then
      forall b :: b in nodes && p < b ==> levels[b] <= i
    else
      && n in nodes && p < n && i < levels[n]
      && forall b :: b in nodes && p < b < n ==> levels[b] <= i
  }

  /** p is what a search for e leaves in prev[i]: the highest node below e that has more than
      i levels, or the head. */
  ghost predicate IsPrev(nodes: set<int>, levels: map<int, int>, e: int, i: int, p: int)
    requires nodes <= levels.Keys
  {
    && (p == HEAD || (p in nodes && i < levels[p]))
    && p < e
    && forall b :: b in nodes && p < b < e ==> levels[b] <= i
  }

  /** The next slots that are in use at p: all of the head's, and levels[p] of a node's. */
  ghost predicate HasSlot(nodes: set<int>, levels: map<int, int>, p: int, i: int)
    requires nodes <= levels.Keys
  {
    0 <= i && ((p == HEAD && i < K_MAX_LEVEL) || (p in nodes && i < levels[p]))
  }

  /** Nodes are at positive addresses, and the head has the largest level count of all. */
  ghost predicate LevelsOk(nodes: set<int>, levels: map<int, int>) {
    && HEAD in levels && 0 <= levels[HEAD] < K_MAX_LEVEL
    && nodes <= levels.Keys
    && forall b :: b in nodes ==> 0 < b && 1 <= levels[b] <= levels[HEAD]
  }

  ghost predicate LinksOk(nodes: set<int>, levels: map<int, int>, next: map<(int, int), int>)
    requires nodes <= levels.Keys
  {
    forall p, i {:trigger HasSlot(nodes, levels, p, i)} :: HasSlot(nodes, levels, p, i) ==>
      (p, i) in next && IsNext(nodes, levels, p, i, next[(p, i)])
  }

  /** The skiplist invariant. */
  ghost predicate SkiplistOk(nodes: set<int>, levels: map<int, int>, next: map<(int, int), int>) {
    && LevelsOk(nodes, levels)
    && LinksOk(nodes, levels, next)
    && (levels[HEAD] > 0 ==> (HEAD, levels[HEAD] - 1) in next && next[(HEAD, levels[HEAD] - 1)] != NULL)
  }

  /** Half-way through an insertion or a deletion at level i: the levels below i already link
      the set below, the levels from i up still link the set above. */
  ghost predicate Mixed(below: set<int>, above: set<int>, levels: map<int, int>,
                        next: map<(int, int), int>, i: int)
    requires below <= levels.Keys && above <= levels.Keys
  {
    && (forall p, j {:trigger HasSlot(below, levels, p, j)} :: HasSlot(below, levels, p, j) && j < i ==>
          (p, j) in next && IsNext(below, levels, p, j, next[(p, j)]))
    && (forall p, j {:trigger HasSlot(above, levels, p, j)} :: HasSlot(above, levels, p, j) && i <= j ==>
          (p, j) in next && IsNext(above, levels, p, j, next[(p, j)]))
  }

  /** One turn of the linking loop of LLA_SkiplistInsert. */
  lemma LinkStep(nodes: set<int>, e: int, levels: map<int, int>, next: map<(int, int), int>,
                 i: int, p: int)
    requires nodes <= levels.Keys && e in levels && 0 < e && e !in nodes
    requires forall b :: b in nodes ==> 0 < b
    requires 0 <= i < levels[e] < K_MAX_LEVEL
    requires Mixed(nodes + {e}, nodes, levels, next, i)
    requires IsPrev(nodes, levels, e, i, p)
    ensures (p, i) in next
    ensures Mixed(nodes + {e}, nodes, levels, next[(e, i) := next[(p, i)]][(p, i) := e], i + 1)
  {
    var all := nodes + {e};
    assert HasSlot(nodes, levels, p, i);
    var next' := next[(e, i) := next[(p, i)]][(p, i) := e];
    forall q, j | HasSlot(all, levels, q, j) && j < i + 1
      ensures (q, j) in next' && IsNext(all, levels, q, j, next'[(q, j)])
    {
      if j < i {
        assert IsNext(all, levels, q, j, next[(q, j)]);
      } else if q == e {
        assert IsNext(nodes, levels, p, i, next[(p, i)]);
      } else {
        assert HasSlot(nodes, levels, q, j);
        assert IsNext(nodes, levels, q, j, next[(q, j)]);
      }
    }
  }

  /** One turn of the unlinking loop of LLA_SkiplistDelete, whose guard holds. */
  lemma UnlinkStep(nodes: set<int>, e: int, levels: map<int, int>, next: map<(int, int), int>,
                   i: int, p: int)
    requires nodes <= levels.Keys && e in nodes
    requires forall b :: b in nodes ==> 0 < b
    requires 0 <= i < levels[e] < K_MAX_LEVEL
    requires Mixed(nodes - {e}, nodes, levels, next, i)
    requires IsPrev(nodes, levels, e, i, p)
    ensures (p, i) in next && (e, i) in next && next[(p, i)] == e
    ensures Mixed(nodes - {e}, nodes, levels, next[(p, i) := next[(e, i)]], i + 1)
  {
    var rest := nodes - {e};
    assert HasSlot(nodes, levels, p, i);
    assert HasSlot(nodes, levels, e, i);
    assert IsNext(nodes, levels, p, i, next[(p, i)]);
    assert IsNext(nodes, levels, e, i, next[(e, i)]);
    var next' := next[(p, i) := next[(e, i)]];
    forall q, j | HasSlot(rest, levels, q, j) && j < i + 1
      ensures (q, j) in next' && IsNext(rest, levels, q, j, next'[(q, j)])
    {
      if j < i {
        assert IsNext(rest, levels, q, j, next[(q, j)]);
      } else {
        assert HasSlot(nodes, levels, q, j);
        assert IsNext(nodes, levels, q, j, next[(q, j)]);
      }
    }
  }

  /** Once every level of e has been treated, the whole list links the set below. */
  lemma MixedDone(below: set<int>, above: set<int>, e: int, levels: map<int, int>,
                  next: map<(int, int), int>)
    requires below <= levels.Keys && above <= levels.Keys && e in levels
    requires below == above + {e} || below == above - {e}
    requires Mixed(below, above, levels, next, levels[e])
    ensures LinksOk(below, levels, next)
  {
    forall p, j | HasSlot(below, levels, p, j)
      ensures (p, j) in next && IsNext(below, levels, p, j, next[(p, j)])
    {
      if levels[e] <= j {
        assert HasSlot(above, levels, p, j);
        assert IsNext(above, levels, p, j, next[(p, j)]);
      }
    }
  }

  /** The highest level of the head is in use if some node has that many levels. */
  lemma TopIsUsed(nodes: set<int>, levels: map<int, int>, next: map<(int, int), int>)
    requires LevelsOk(nodes, levels) && LinksOk(nodes, levels, next)
    requires exists b :: b in nodes && levels[b] == levels[HEAD]
    ensures SkiplistOk(nodes, levels, next)
  {
    assert HasSlot(nodes, levels, HEAD, levels[HEAD] - 1);
  }

  /** The converse: a skiplist that is not empty has a node with as many levels as the head. */
  lemma TopNode(nodes: set<int>, levels: map<int, int>, next: map<(int, int), int>)
    requires SkiplistOk(nodes, levels, next) && levels[HEAD] > 0
    ensures exists b :: b in nodes && levels[b] == levels[HEAD]
  {
    assert HasSlot(nodes, levels, HEAD, levels[HEAD] - 1);
    assert IsNext(nodes, levels, HEAD, levels[HEAD] - 1, next[(HEAD, levels[HEAD] - 1)]);
  }

  /** The links say nothing about the head's own level count. */
  lemma LinksIgnoreHeadLevel(nodes: set<int>, levels: map<int, int>, next: map<(int, int), int>,
                             h: int)
    requires nodes <= levels.Keys && HEAD !in nodes
    requires LinksOk(nodes, levels, next)
    ensures LinksOk(nodes, levels[HEAD := h], next)
  {
    var levels' := levels[HEAD := h];
    forall p, i | HasSlot(nodes, levels', p, i)
      ensures (p, i) in next && IsNext(nodes, levels', p, i, next[(p, i)])
    {
      assert HasSlot(nodes, levels, p, i);
    }
  }

  /** head->levels is the maximum node level, and head->next is null above it. */
  lemma HeadLevelIsMaximum(nodes: set<int>, levels: map<int, int>, next: map<(int, int), int>,
                           i: int)
    requires SkiplistOk(nodes, levels, next)
    requires 0 <= i < K_MAX_LEVEL
    ensures nodes == {} <==> levels[HEAD] == 0
    ensures nodes != {} ==> exists b :: b in nodes && levels[b] == levels[HEAD]
    ensures (HEAD, i) in next && (next[(HEAD, i)] == NULL <==> levels[HEAD] <= i)
  {
    assert HasSlot(nodes, levels, HEAD, i);
    assert IsNext(nodes, levels, HEAD, i, next[(HEAD, i)]);
    if levels[HEAD] > 0 {
      TopNode(nodes, levels, next);
    } else {
      assert forall b :: b !in nodes;
      NoMembers(nodes);
    }
  }

  ghost predicate StrictlySorted(s: seq<int>) {
    forall j, k :: 0 <= j < k < |s| ==> s[j] < s[k]
  }

  ghost function Above(nodes: set<int>, p: int): set<int> {
    set b | b in nodes && p < b
  }

  /** The nodes met by following next[i] from p. */
  ghost function Chain(nodes: set<int>, levels: map<int, int>, next: map<(int, int), int>,
                       p: int, i: int): seq<int>
    requires SkiplistOk(nodes, levels, next) && HasSlot(nodes, levels, p, i)
    decreases Above(nodes, p)
  {
    var n := next[(p, i)];
    assert IsNext(nodes, levels, p, i, n);
    if n == NULL then []
    else
      assert n in Above(nodes, p) && n !in Above(nodes, n) && Above(nodes, n) <= Above(nodes, p);
      [n] + Chain(nodes, levels, next, n, i)
  }

  /** Each level is the strictly address-sorted list of the nodes with more than i levels. */
  lemma {:induction false} ChainIsSortedLevel(
    nodes: set<int>, levels: map<int, int>, next: map<(int, int), int>, p: int, i: int)
    requires SkiplistOk(nodes, levels, next) && HasSlot(nodes, levels, p, i)
    ensures StrictlySorted(Chain(nodes, levels, next, p, i))
    ensures forall b :: b in Chain(nodes, levels, next, p, i) <==>
      b in nodes && p < b && i < levels[b]
    decreases Above(nodes, p)
  {
    var n := next[(p, i)];
    assert IsNext(nodes, levels, p, i, n);
    if n != NULL {
      assert n in Above(nodes, p) && n !in Above(nodes, n) && Above(nodes, n) <= Above(nodes, p);
      ChainIsSortedLevel(nodes, levels, next, n, i);
      var rest := Chain(nodes, levels, next, n, i);
      assert forall k :: 0 <= k < |rest| ==> rest[k] in rest;
    }
  }

  class FreeList {
    ghost var nodes: set<int>
    var levels: map<int, int>
    var next: map<(int, int), int>

    ghost predicate Ok()
      reads this
    {
      SkiplistOk(nodes, levels, next)
    }

    constructor ()
      ensures Ok()
      ensures nodes == {} && levels == map[HEAD := 0]
    {
      nodes := {};
      levels := map[HEAD := 0];
      next := map i: int | 0 <= i < K_MAX_LEVEL :: (HEAD, i) := NULL;
    }

    /** Assign e->levels of a block that is not in the list. */
    method SetLevels(e: int, level: int)
      requires Ok()
      requires 0 < e && e !in nodes
      modifies this`levels
      ensures Ok()
      ensures levels == old(levels)[e := level]
    {
      levels := levels[e := level];
      forall p, i | HasSlot(nodes, levels, p, i)
        ensures (p, i) in next && IsNext(nodes, levels, p, i, next[(p, i)])
      {
        assert HasSlot(nodes, old(levels), p, i);
      }
    }

    method Search(e: int, prev: array<int>) returns (atleast: int)
      requires Ok()
      requires 0 < e && prev.Length == K_MAX_LEVEL
      modifies prev
      ensures forall i :: 0 <= i < levels[HEAD] ==> IsPrev(nodes, levels, e, i, prev[i])
      ensures IsNext(nodes, levels, e - 1, 0, atleast)
    {
      var p := HEAD;
      var level := levels[HEAD] - 1;
      while level >= 0
        invariant -1 <= level < levels[HEAD]
        invariant p < e && (p == HEAD || (p in nodes && level < levels[p]))
        invariant forall i :: level < i < levels[HEAD] ==> IsPrev(nodes, levels, e, i, prev[i])
        invariant level + 1 < levels[HEAD] ==> prev[level + 1] == p
      {
        assert HasSlot(nodes, levels, p, level);
        var n := next[(p, level)];
        while n != NULL && n < e
          invariant p < e && (p == HEAD || (p in nodes && level < levels[p]))
          invariant HasSlot(nodes, levels, p, level) && n == next[(p, level)]
          decreases e - p
        {
          assert IsNext(nodes, levels, p, level, n);
          p := n;
          assert HasSlot(nodes, levels, p, level);
          n := next[(p, level)];
        }
        assert IsNext(nodes, levels, p, level, n);
        prev[level] := p;
        level := level - 1;
      }
      if levels[HEAD] == 0 {
        atleast := NULL;
      } else {
        assert HasSlot(nodes, levels, prev[0], 0);
        atleast := next[(prev[0], 0)];
        assert IsNext(nodes, levels, prev[0], 0, atleast);
        assert IsPrev(nodes, levels, e, 0, prev[0]);
      }
    }

    /** The linking loop of LLA_SkiplistInsert. */
    method Link(e: int, prev: array<int>)
      requires LevelsOk(nodes, levels) && LinksOk(nodes, levels, next)
      requires 0 < e && e !in nodes && prev.Length == K_MAX_LEVEL
      requires e in levels && 1 <= levels[e] <= levels[HEAD]
      requires forall i :: 0 <= i < levels[HEAD] ==> IsPrev(nodes, levels, e, i, prev[i])
      modifies this`next, this`nodes
      ensures nodes == old(nodes) + {e}
      ensures LinksOk(nodes, levels, next)
    {
      var i := 0;
      while i != levels[e]
        invariant 0 <= i <= levels[e]
        invariant nodes == old(nodes)
        invariant Mixed(nodes + {e}, nodes, levels, next, i)
      {
        LinkStep(nodes, e, levels, next, i, prev[i]);
        next := next[(e, i) := next[(prev[i], i)]];
        next := next[(prev[i], i) := e];
        i := i + 1;
      }
      MixedDone(nodes + {e}, nodes, e, levels, next);
      nodes := nodes + {e};
    }

    /** Extend prev[] to all of e's levels. */
    method Grow(e: int, prev: array<int>)
      requires LevelsOk(nodes, levels)
      requires prev.Length == K_MAX_LEVEL
      requires 0 < e && e in levels && 1 <= levels[e] < K_MAX_LEVEL
      requires forall i :: 0 <= i < levels[HEAD] ==> IsPrev(nodes, levels, e, i, prev[i])
      modifies this`levels, prev
      ensures HEAD in levels && levels == old(levels)[HEAD := levels[HEAD]]
      ensures levels[HEAD] == if old(levels[HEAD]) < levels[e] then levels[e] else old(levels[HEAD])
      ensures LevelsOk(nodes, levels)
      ensures forall i :: 0 <= i < levels[HEAD] ==> IsPrev(nodes, levels, e, i, prev[i])
    {
      while levels[HEAD] < levels[e]
        invariant HEAD in levels && levels == old(levels)[HEAD := levels[HEAD]]
        invariant levels[HEAD] == old(levels[HEAD]) || old(levels[HEAD]) < levels[HEAD] <= levels[e]
        invariant LevelsOk(nodes, levels)
        invariant forall i :: 0 <= i < levels[HEAD] ==> IsPrev(nodes, levels, e, i, prev[i])
        decreases levels[e] - levels[HEAD]
      {
        prev[levels[HEAD]] := HEAD;
        levels := levels[HEAD := levels[HEAD] + 1];
      }
    }

    method Insert(e: int, prev: array<int>)
      requires Ok()
      requires 0 < e && e !in nodes && prev.Length == K_MAX_LEVEL
      requires e in levels && 1 <= levels[e] < K_MAX_LEVEL
      modifies this, prev
      ensures Ok()
      ensures nodes == old(nodes) + {e}
      ensures levels == old(levels)[HEAD := levels[HEAD]]
      ensures forall i :: 0 <= i < levels[HEAD] ==> IsPrev(old(nodes), levels, e, i, prev[i])
    {
      if levels[HEAD] > 0 {
        TopNode(nodes, levels, next);
      }
      var _ := Search(e, prev);
      Grow(e, prev);
      LinksIgnoreHeadLevel(nodes, old(levels), next, levels[HEAD]);
      Link(e, prev);
      TopIsUsed(nodes, levels, next);
    }

    /** The unlinking loop of LLA_SkiplistDelete.  The second conjunct of its guard never
        stops it early: e is unlinked at every one of its levels. */
    method Unlink(e: int, prev: array<int>)
      requires Ok()
      requires e in nodes && prev.Length == K_MAX_LEVEL
      requires forall i :: 0 <= i < levels[HEAD] ==> IsPrev(nodes, levels, e, i, prev[i])
      modifies this`next, this`nodes
      ensures nodes == old(nodes) - {e}
      ensures LinksOk(nodes, levels, next)
    {
      var i := 0;
      UnlinkStep(nodes, e, levels, next, 0, prev[0]);
      while i != levels[e] && next[(prev[i], i)] == e
        invariant 0 <= i <= levels[e]
        invariant nodes == old(nodes)
        invariant Mixed(nodes - {e}, nodes, levels, next, i)
        invariant i < levels[e] ==> (prev[i], i) in next && next[(prev[i], i)] == e
        decreases levels[e] - i
      {
        UnlinkStep(nodes, e, levels, next, i, prev[i]);
        next := next[(prev[i], i) := next[(e, i)]];
        i := i + 1;
        if i < levels[e] {
          UnlinkStep(nodes, e, levels, next, i, prev[i]);
        }
      }
      MixedDone(nodes - {e}, nodes, e, levels, next);
      nodes := nodes - {e};
    }

    method Delete(e: int, prev: array<int>)
      requires Ok()
      requires e in nodes && prev.Length == K_MAX_LEVEL
      modifies this, prev
      ensures Ok()
      ensures nodes == old(nodes) - {e}
      ensures levels == old(levels)[HEAD := levels[HEAD]]
      ensures forall i :: 0 <= i < old(levels[HEAD]) ==>
        IsPrev(old(nodes), old(levels), e, i, prev[i])
    {
      var found := Search(e, prev);
      assert e == found;  // RAW_CHECK: element in freelist
      Unlink(e, prev);
      Shrink();
      LinksIgnoreHeadLevel(nodes, old(levels), next, levels[HEAD]);
    }

    /** The list surgery of Coalesce: n goes, and a is taken out and put back with the level
        count of its new size. */
    method Absorb(a: int, n: int, size: int)
      requires Ok()
      requires a in nodes && n in nodes && a != n
      requires NEXT_OFFSET + POINTER_SIZE <= size
      modifies this
      ensures Ok()
      ensures nodes == old(nodes) - {n}
      ensures a in levels && LevelFits(size, levels[a])
      ensures levels == old(levels)[a := levels[a]][HEAD := levels[HEAD]]
    {
      var prev := new int[K_MAX_LEVEL];
      Delete(n, prev);
      Delete(a, prev);
      var level := LLA_SkiplistLevels(size, 64, true);
      SetLevels(a, level);
      Insert(a, prev);
    }

    /** Reduce the head's level count while its top level is unused. */
    method Shrink()
      requires LevelsOk(nodes, levels) && LinksOk(nodes, levels, next)
      modifies this`levels
      ensures HEAD in levels && levels == old(levels)[HEAD := levels[HEAD]]
      ensures LevelsOk(nodes, levels)
      ensures levels[HEAD] > 0 ==>
        (HEAD, levels[HEAD] - 1) in next && next[(HEAD, levels[HEAD] - 1)] != NULL
    {
      while levels[HEAD] > 0 && next[(HEAD, levels[HEAD] - 1)] == NULL
        invariant HEAD in levels && levels == old(levels)[HEAD := levels[HEAD]]
        invariant LevelsOk(nodes, levels)
        invariant levels[HEAD] > 0 ==> HasSlot(nodes, old(levels), HEAD, levels[HEAD] - 1)
        decreases levels[HEAD]
      {
        levels := levels[HEAD := levels[HEAD] - 1];
      }
    }

    /** A client writes to memory that was a node's fields but is not in the list now. */
    method Overwrite(e: int, level: int, i: int, value: int)
      requires Ok() && 0 < e && e !in nodes
      modifies this`levels, this`next
      ensures Ok()
      ensures levels == old(levels)[e := level] && next == old(next)[(e, i) := value]
    {
      SetLevels(e, level);
      next := next[(e, i) := value];
      forall p, j | HasSlot(nodes, levels, p, j)
        ensures (p, j) in next && IsNext(nodes, levels, p, j, next[(p, j)])
      {
        assert HasSlot(nodes, levels, p, j);
      }
    }
  }
}
