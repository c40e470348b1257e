/**
 Values that may leak, and bounded ranked lists of them (leak_detector_value_type.cc,
 ranked_list.cc).
 */
module RankedLists {

  /** An allocation size, or a call stack identified by its address. */
  datatype Value = SizeValue(size: nat) | CallStackValue(call_stack: nat)

  /** operator< of values: sizes come before call stacks. */
  predicate Less(a: Value, b: Value) {
    match (a, b)
    case (SizeValue(m), SizeValue(n)) => m < n
    case (SizeValue(_), CallStackValue(_)) => true
    case (CallStackValue(_), SizeValue(_)) => false
    case (CallStackValue(p), CallStackValue(q)) => p < q
  }

  datatype Entry = Entry(value: Value, count: int)

  // ---------- the specification: stable descending sort ----------

  ghost predicate Descending(s: seq<Entry>) {
    forall i, j :: 0 <= i < j < |s| ==> s[i].count >= s[j].count
  }

  /** The entries of s with the given count, in order. */
  ghost function WithCount(s: seq<Entry>, count: int): seq<Entry> {
    if s == [] then []
    else (if s[0].count == count then [s[0]] else []) + WithCount(s[1..], count)
  }

  /** t is the stable descending sort of s: sorted by count, and for every count it has the
      same entries in the same order. */
  ghost predicate IsStableSort(s: seq<Entry>, t: seq<Entry>) {
    Descending(t) && forall c :: WithCount(t, c) == WithCount(s, c)
  }

  /** The position std::upper_bound finds: after the last entry whose count is not smaller. */
  ghost predicate IsUpperBound(s: seq<Entry>, count: int, p: nat) {
    && p <= |s|
    && (forall i :: 0 <= i < p ==> s[i].count >= count)
    && (forall i :: p <= i < |s| ==> s[i].count < count)
  }

  ghost function UpperBoundOf(s: seq<Entry>, count: int): (p: nat)
    ensures p <= |s|
  {
    if s == [] || s[0].count < count then 0 else 1 + UpperBoundOf(s[1..], count)
  }

  lemma {:induction false} UpperBoundOfSorted(s: seq<Entry>, count: int)
    requires Descending(s)
    ensures IsUpperBound(s, count, UpperBoundOf(s, count))
  {
    if s != [] && s[0].count >= count {
      UpperBoundOfSorted(s[1..], count);
      assert forall i :: 0 < i < |s| ==> s[i] == s[1..][i - 1];
    }
  }

  ghost function InsertEntry(s: seq<Entry>, e: Entry): seq<Entry> {
    var p := UpperBoundOf(s, e.count);
    s[..p] + [e] + s[p..]
  }

  ghost function Top(s: seq<Entry>, n: nat): seq<Entry> {
    if |s| <= n then s else s[..n]
  }

  lemma {:induction false} WithCountConcat(s: seq<Entry>, t: seq<Entry>, c: int)
    ensures WithCount(s + t, c) == WithCount(s, c) + WithCount(t, c)
  {
    if s == [] {
      assert s + t == t;
    } else {
      var st := s + t;
      assert st[0] == s[0] && st[1..] == s[1..] + t;
      WithCountConcat(s[1..], t, c);
    }
  }

  lemma {:induction false} WithCountNone(s: seq<Entry>, c: int)
    requires forall i :: 0 <= i < |s| ==> s[i].count != c
    ensures WithCount(s, c) == []
  {
    if s != [] {
      WithCountNone(s[1..], c);
    }
  }

  lemma UpperBoundUnique(s: seq<Entry>, count: int, p: nat, q: nat)
    requires IsUpperBound(s, count, p) && IsUpperBound(s, count, q)
    ensures p == q
  {
    var i := if p < q then p else q;
    assert i < |s| ==> (s[i].count >= count) == (i < p) == (i < q);
  }

  lemma InsertKeepsDescending(s: seq<Entry>, e: Entry)
    requires Descending(s)
    ensures Descending(InsertEntry(s, e))
  {
    var p := UpperBoundOf(s, e.count);
    UpperBoundOfSorted(s, e.count);
    var t := InsertEntry(s, e);
    assert forall i :: 0 <= i < p ==> t[i] == s[i] && s[i].count >= e.count;
    assert forall i :: p < i < |t| ==> t[i] == s[i - 1] && s[i - 1].count < e.count;
  }

  lemma ConcatEmpty(a: seq<Entry>, b: seq<Entry>, e: seq<Entry>)
    requires b == [] || e == []
    ensures a + e + b == a + b + e
  {
  }

  lemma InsertAtWithCount(s: seq<Entry>, p: nat, e: Entry, c: int)
    requires p <= |s|
    requires e.count == c ==> WithCount(s[p..], c) == []
    ensures WithCount(s[..p] + [e] + s[p..], c) == WithCount(s, c) + WithCount([e], c)
  {
    var u, v := s[..p], s[p..];
    assert u + v == s;
    WithCountConcat(u, v, c);
    WithCountConcat(u, [e], c);
    WithCountConcat(u + [e], v, c);
    if e.count != c {
      WithCountNone([e], c);
    }
    ConcatEmpty(WithCount(u, c), WithCount(v, c), WithCount([e], c));
  }

  /** Inserting puts the new entry last among its equals. */
  lemma InsertIsStable(s: seq<Entry>, e: Entry, c: int)
    requires Descending(s)
    ensures WithCount(InsertEntry(s, e), c) == WithCount(s, c) + WithCount([e], c)
  {
    var p := UpperBoundOf(s, e.count);
    UpperBoundOfSorted(s, e.count);
    if e.count == c {
      WithCountNone(s[p..], c);
    }
    InsertAtWithCount(s, p, e, c);
  }

  /** A stable sort of everything added so far, and the entry added last, inserted. */
  lemma InsertSorts(added: seq<Entry>, t: seq<Entry>, e: Entry)
    requires IsStableSort(added, t)
    ensures IsStableSort(added + [e], InsertEntry(t, e))
  {
    InsertKeepsDescending(t, e);
    forall c ensures WithCount(InsertEntry(t, e), c) == WithCount(added + [e], c) {
      InsertIsStable(t, e, c);
      WithCountConcat(added, [e], c);
    }
  }

  lemma {:induction false} StableSortExists(added: seq<Entry>)
    ensures exists t :: IsStableSort(added, t)
  {
    if added == [] {
      assert IsStableSort(added, []);
    } else {
      var front, e := added[..|added| - 1], added[|added| - 1];
      StableSortExists(front);
      var t :| IsStableSort(front, t);
      InsertSorts(front, t, e);
      assert front + [e] == added;
    }
  }

  /** The stable descending sort of everything added. */
  ghost function Ranked(added: seq<Entry>): (t: seq<Entry>)
    ensures IsStableSort(added, t)
  {
    StableSortExists(added);
    var t :| IsStableSort(added, t);
    t
  }

  lemma {:induction false} WithCountHead(s: seq<Entry>)
    requires s != []
    ensures WithCount(s, s[0].count) != [] && WithCount(s, s[0].count)[0] == s[0]
  {
  }

  /** There is only one stable descending sort. */
  lemma {:induction false} StableSortUnique(s: seq<Entry>, t: seq<Entry>)
    requires Descending(s) && Descending(t)
    requires forall c :: WithCount(s, c) == WithCount(t, c)
    ensures s == t
  {
    if s == [] {
      if t != [] {
        WithCountHead(t);
      }
    } else if t == [] {
      WithCountHead(s);
    } else {
      WithCountHead(s);
      WithCountHead(t);
      if s[0].count > t[0].count {
        WithCountNone(t, s[0].count);
      } else if s[0].count < t[0].count {
        WithCountNone(s, t[0].count);
      }
      assert s[0] == t[0];
      forall c ensures WithCount(s[1..], c) == WithCount(t[1..], c) {
        assert WithCount(s, c) == WithCount(t, c);
        var h := if s[0].count == c then [s[0]] else [];
        assert WithCount(s, c) == h + WithCount(s[1..], c);
        assert WithCount(t, c) == h + WithCount(t[1..], c);
        assert (h + WithCount(s[1..], c))[|h|..] == WithCount(s[1..], c);
        assert (h + WithCount(t[1..], c))[|h|..] == WithCount(t[1..], c);
      }
      StableSortUnique(s[1..], t[1..]);
      assert s == [s[0]] + s[1..] && t == [t[0]] + t[1..];
    }
  }

  lemma {:induction false} CountedInWithCount(s: seq<Entry>, e: Entry)
    ensures multiset(s)[e] == multiset(WithCount(s, e.count))[e]
  {
    if s != [] {
      CountedInWithCount(s[1..], e);
      assert s == [s[0]] + s[1..];
      var h := if s[0].count == e.count then [s[0]] else [];
      assert WithCount(s, e.count) == h + WithCount(s[1..], e.count);
    }
  }

  /** There is only one such sort, and it is a permutation. */
  lemma StableSortIsRanked(added: seq<Entry>, t: seq<Entry>)
    requires IsStableSort(added, t)
    ensures t == Ranked(added)
    ensures multiset(t) == multiset(added)
  {
    StableSortUnique(t, Ranked(added));
    forall e ensures multiset(t)[e] == multiset(added)[e] {
      CountedInWithCount(t, e);
      CountedInWithCount(added, e);
    }
  }

  lemma RankedIsPermutation(added: seq<Entry>)
    ensures multiset(Ranked(added)) == multiset(added)
    ensures Descending(Ranked(added)) && |Ranked(added)| == |added|
    ensures forall e :: e in Ranked(added) <==> e in added
  {
    StableSortIsRanked(added, Ranked(added));
    assert |multiset(Ranked(added))| == |multiset(added)|;
    forall e ensures e in Ranked(added) <==> e in added {
      assert e in Ranked(added) <==> e in multiset(Ranked(added));
    }
  }

  /** Cutting the list to n entries between insertions loses nothing of the top n. */
  lemma TopOfInsert(s: seq<Entry>, e: Entry, n: nat)
    requires Descending(s)
    ensures Top(InsertEntry(Top(s, n), e), n) == Top(InsertEntry(s, e), n)
    ensures |s| >= n && UpperBoundOf(Top(s, n), e.count) == n ==>
      Top(InsertEntry(s, e), n) == Top(s, n)
  {
    var t := Top(s, n);
    var p, q := UpperBoundOf(s, e.count), UpperBoundOf(t, e.count);
    UpperBoundOfSorted(s, e.count);
    UpperBoundOfSorted(t, e.count);
    UpperBoundUnique(t, e.count, q, if p <= |t| then p else |t|);
    TopOfInsertAt(s, e, n, p);
  }

  /** The same of inserting at any position. */
  lemma TopOfInsertAt(s: seq<Entry>, e: Entry, n: nat, p: nat)
    requires p <= |s|
    ensures var t := Top(s, n);
      var q := if p <= |t| then p else |t|;
      && Top(t[..q] + [e] + t[q..], n) == Top(s[..p] + [e] + s[p..], n)
      && (|s| >= n && q == n ==> Top(s[..p] + [e] + s[p..], n) == t)
  {
  }

  class RankedList {
    var max_size: nat
    var entries: seq<Entry>
    ghost var added: seq<Entry>   // everything ever added, in order

    ghost predicate Valid()
      reads this
    {
      entries == Top(Ranked(added), max_size)
    }

    constructor (max_size: nat)
      ensures Valid() && this.max_size == max_size && entries == [] && added == []
    {
      this.max_size := max_size;
      entries, added := [], [];
      StableSortIsRanked([], []);
    }

    /** The list holds the first max_size entries of the stable descending sort of everything
        added, or all of them if there are not so many. */
    lemma HoldsTheTop(t: seq<Entry>)
      requires Valid() && IsStableSort(added, t)
      ensures |t| == |added| && |entries| == if |added| < max_size then |added| else max_size
      ensures forall i :: 0 <= i < |entries| ==> entries[i] == t[i]
    {
      StableSortIsRanked(added, t);
      assert |multiset(t)| == |multiset(added)|;
    }

    /** operator=: take over the contents of other. */
    method MoveFrom(other: RankedList)
      requires other != this
      modifies this, other
      ensures max_size == old(other.max_size) && entries == old(other.entries) && added == old(other.added)
      ensures other.entries == [] && other.added == [] && other.max_size == old(other.max_size)
    {
      max_size := other.max_size;
      entries, other.entries := other.entries, [];
      added, other.added := other.added, [];
    }

    /** std::upper_bound over the entries. */
    method UpperBound(count: int) returns (p: nat)
      requires Descending(entries)
      ensures IsUpperBound(entries, count, p)
    {
      p := 0;
      while p < |entries| && entries[p].count >= count
        invariant p <= |entries|
        invariant forall i :: 0 <= i < p ==> entries[i].count >= count
      {
        p := p + 1;
      }
    }

    /** Add a value to the list. */
    method Add(value: Value, count: int)
      requires Valid()
      modifies this
      ensures Valid()
      ensures added == old(added) + [Entry(value, count)] && max_size == old(max_size)
    {
      ghost var all, e := Ranked(added), Entry(value, count);
      TopOfInsert(all, e, max_size);
      InsertSorts(added, all, e);
      added := added + [e];
      StableSortIsRanked(added, InsertEntry(all, e));
      var p := UpperBound(count);
      UpperBoundOfSorted(entries, count);
      UpperBoundUnique(entries, count, p, UpperBoundOf(entries, count));
      // An entry that would come after max_size others is not wanted.
      if |entries| == max_size && p == |entries| {
        return;
      }
      entries := entries[..p] + [Entry(value, count)] + entries[p..];
      // At most one entry is too many.
      if |entries| > max_size {
        entries := entries[..max_size];
      }
    }
  }
}
