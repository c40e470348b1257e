/**
 What a check gives the two analyzers, said of the outstanding allocations alone, without sorting
 them (leak_detector_impl.cc:178-185, call_stack_table.cc:95-107).
 */
module LeakSamples {
  import opened RankedLists
  import opened LeakAnalyzers
  import opened CallStackTables
  import opened LeakCounts
  import opened LeakHistories

  // ---------- positions in a stable sort ----------

  ghost function AtLeast(s: seq<Entry>, c: int): set<nat> {
    set j: nat | j < |s| && s[j].count >= c
  }

  /** The entries that rank before entry i: the higher ones, and the equal ones added earlier. */
  ghost function Ahead(s: seq<Entry>, i: nat): set<nat>
    requires i < |s|
  {
    set j: nat | j < |s| && (s[j].count > s[i].count || (s[j].count == s[i].count && j < i))
  }

  lemma RankedOfMore(front: seq<Entry>, e: Entry)
    ensures Ranked(front + [e]) == InsertEntry(Ranked(front), e)
  {
    InsertSorts(front, Ranked(front), e);
    StableSortIsRanked(front + [e], InsertEntry(Ranked(front), e));
  }

  lemma BoundOfMore(t: seq<Entry>, e: Entry, c: int)
    requires Descending(t)
    ensures UpperBoundOf(InsertEntry(t, e), c) == UpperBoundOf(t, c) + if e.count >= c then 1 else 0
  {
    var t', p := InsertEntry(t, e), UpperBoundOf(t, e.count);
    UpperBoundOfSorted(t, e.count);
    UpperBoundOfSorted(t, c);
    InsertKeepsDescending(t, e);
    UpperBoundOfSorted(t', c);
    var q := UpperBoundOf(t, c);
    BoundAfter(t, e, c, p, q);
    UpperBoundUnique(t', c, UpperBoundOf(t', c), q + if e.count >= c then 1 else 0);
  }

  lemma BoundAfter(t: seq<Entry>, e: Entry, c: int, p: nat, q: nat)
    requires IsUpperBound(t, e.count, p) && IsUpperBound(t, c, q)
    ensures IsUpperBound(t[..p] + [e] + t[p..], c, q + if e.count >= c then 1 else 0)
  {
    var t' := t[..p] + [e] + t[p..];
    assert forall i :: 0 <= i < p ==> t'[i] == t[i];
    assert t'[p] == e;
    assert forall i :: p < i < |t'| ==> t'[i] == t[i - 1];
    assert if e.count >= c then p <= q else q <= p by {
      if p < q {
        assert t[p].count >= c;
      } else if q < p {
        assert t[q].count < c;
      }
    }
  }

  lemma AtLeastOfMore(front: seq<Entry>, e: Entry, c: int)
    ensures |AtLeast(front + [e], c)| == |AtLeast(front, c)| + if e.count >= c then 1 else 0
  {
    assert AtLeast(front + [e], c) == AtLeast(front, c) + if e.count >= c then {|front|} else {};
  }

  /** As many entries are at least c as come before the position after the last of them. */
  lemma {:induction false} CountAtLeast(s: seq<Entry>, c: int)
    ensures |AtLeast(s, c)| == UpperBoundOf(Ranked(s), c)
  {
    if s == [] {
      RankedIsPermutation(s);
    } else {
      hide UpperBoundOf;
      hide InsertEntry;
      var front, e := s[..|s| - 1], s[|s| - 1];
      assert front + [e] == s;
      CountAtLeast(front, c);
      RankedOfMore(front, e);
      RankedIsPermutation(front);
      BoundOfMore(Ranked(front), e, c);
      AtLeastOfMore(front, e, c);
    }
  }

  /** Where the entries are after an insertion. */
  lemma InsertMoves(t: seq<Entry>, e: Entry, q: nat)
    requires Descending(t) && q < |t|
    ensures |InsertEntry(t, e)| == |t| + 1
    ensures InsertEntry(t, e)[q + if e.count > t[q].count then 1 else 0] == t[q]
  {
    UpperBoundOfSorted(t, e.count);
  }

  lemma LastInserted(t: seq<Entry>, e: Entry)
    ensures UpperBoundOf(t, e.count) < |InsertEntry(t, e)| == |t| + 1
    ensures InsertEntry(t, e)[UpperBoundOf(t, e.count)] == e
  {
  }

  lemma AheadOfMore(front: seq<Entry>, e: Entry, i: nat)
    requires i < |front|
    ensures |Ahead(front + [e], i)| == |Ahead(front, i)| + if e.count > front[i].count then 1 else 0
  {
    assert Ahead(front + [e], i) == Ahead(front, i) + if e.count > front[i].count then {|front|} else {};
  }

  /** The position of an entry in the ranking is the number of those before it. */
  lemma {:induction false} PositionInRanking(s: seq<Entry>, i: nat)
    requires i < |s|
    ensures |Ahead(s, i)| < |s| == |Ranked(s)| && Ranked(s)[|Ahead(s, i)|] == s[i]
  {
    hide InsertEntry;
    var front, e := s[..|s| - 1], s[|s| - 1];
    assert front + [e] == s;
    RankedIsPermutation(s);
    RankedIsPermutation(front);
    RankedOfMore(front, e);
    if i < |front| {
      hide Ahead;
      PositionInRanking(front, i);
      AheadOfMore(front, e, i);
      InsertMoves(Ranked(front), e, |Ahead(front, i)|);
    } else {
      hide Ranked;
      CountAtLeast(front, e.count);
      assert Ahead(s, i) == AtLeast(front, e.count);
      LastInserted(Ranked(front), e);
    }
  }

  // ---------- the sizes ----------

  /** The slots that rank before slot i: those with more outstanding allocations, and the smaller
      ones with as many. */
  ghost function SlotsAhead(o: Outstanding, i: nat): set<nat> {
    set j: nat | j < 2048 && (o.InSlot(j) > o.InSlot(i) || (o.InSlot(j) == o.InSlot(i) && j < i))
  }

  /** A check samples the sixteen slots that rank first, in this order: each slot with fewer than
      sixteen before it, with the number of its outstanding allocations, and nothing else. */
  lemma SizesSampled(o: Outstanding, i: nat)
    requires i < 2048
    ensures |SizeSample(o)| == 16
    ensures var n := |SlotsAhead(o, i)|;
      if n < 16 then SizeSample(o)[n] == Entry(SizeValue(4 * i), o.InSlot(i))
      else !Occurs(SizeSample(o), SizeValue(4 * i))
  {
    var s := SizeList(o);
    var t, n := Ranked(s), |SlotsAhead(o, i)|;
    assert Ahead(s, i) == SlotsAhead(o, i);
    PositionInRanking(s, i);
    if k :| 0 <= k < 16 && t[k].value == SizeValue(4 * i) && n >= 16 {
      RankedIsPermutation(s);
      assert t[k] in s && t[k] == t[n];
      OccursTwice(t, k, n);
      OccursOnce(s, t[n]);
    }
  }

  // ---------- the call stacks ----------

  /** A tested table's sample has at most sixteen call stacks, each once, with the number of its
      outstanding allocations in the slot.  Any other call stack has no more of these than each in
      the sample, which is then full. */
  lemma StacksSampled(x: Sample, o: Outstanding, i: int, c: nat)
    requires IsStackSample(x, o, i) && c != 0 && o.WithStack(i, c) > 0
    ensures |x| <= 16 && Distinct(x) && Descending(x)
    ensures forall e :: e in x ==>
      && e.value.CallStackValue? && e.value.call_stack != 0
      && e.count == o.WithStack(i, e.value.call_stack) > 0
    ensures Entry(CallStackValue(c), o.WithStack(i, c)) in x
      || (|x| == 16 && forall e :: e in x ==> e.count >= o.WithStack(i, c))
  {
    var s: seq<Entry> :| StacksListed(s, o, i) && x == Top(Ranked(s), K_RANKED_LIST_SIZE);
    var t := Ranked(s);
    RankedIsPermutation(s);
    forall e | e in x ensures e in s {
      assert e in t;
    }
    forall k, l | 0 <= k < l < |x| ensures x[k].value != x[l].value {
      assert x[k] in s && x[l] in s;
      if x[k].value == x[l].value {
        OccursTwice(t, k, l);
        OccursOnce(s, t[k]);
      }
    }
    var e := Entry(CallStackValue(c), o.WithStack(i, c));
    assert e in t;
    var k :| 0 <= k < |t| && t[k] == e;
    assert k < |x| ==> x[k] == e;
  }
}
