/**
 The table of live call stacks of one allocation size (call_stack_table.cc).
 */
module CallStackTables {
  import opened LeakAnalyzers
  import opened RankedLists

  const K_RANKED_LIST_SIZE := 16

  /** Each key of the table occurs once in s, with its count, and nothing else does. */
  ghost predicate Lists(s: seq<Entry>, table: map<nat, uint32>) {
    && (forall i, j :: 0 <= i < j < |s| ==> s[i].value != s[j].value)
    && (forall i :: 0 <= i < |s| ==>
          s[i].value.CallStackValue? && s[i].value.call_stack in table
          && s[i].count == table[s[i].value.call_stack])
    && (forall c :: c in table ==> Entry(CallStackValue(c), table[c]) in s)
  }

  /** The table counts the tracked call stacks, with no entry for a count of zero. */
  ghost predicate CountsOk(table: map<nat, uint32>, tracked: multiset<nat>) {
    && (forall c :: c in table <==> c in tracked)
    && (forall c :: c in table ==> table[c] == tracked[c])
  }

  lemma CountsAfterAdd(table: map<nat, uint32>, tracked: multiset<nat>, c: nat)
    requires CountsOk(table, tracked) && tracked[c] < TWO_32 - 1
    ensures CountsOk(table[c := tracked[c] + 1], tracked + multiset{c})
  {
  }

  lemma CountsAfterRemove(table: map<nat, uint32>, tracked: multiset<nat>, c: nat)
    requires CountsOk(table, tracked) && c in table
    ensures table[c] > 0 && |tracked - multiset{c}| == |tracked| - 1
    ensures var table' := table[c := Decrement(table[c])];
      CountsOk(if table'[c] == 0 then table' - {c} else table', tracked - multiset{c})
  {
  }

  /** A 32-bit counter, and what ++ and -- do to it. */
  type uint32 = n: int | 0 <= n < TWO_32

  function Increment(n: uint32): uint32 {
    if n == TWO_32 - 1 then 0 else n + 1
  }

  function Decrement(n: uint32): uint32 {
    if n == 0 then TWO_32 - 1 else n - 1
  }

  lemma WrapsAround(n: uint32)
    ensures Increment(n) == (n + 1) % 0x1_0000_0000 && Decrement(n) == (n - 1) % 0x1_0000_0000
  {
  }

  ghost predicate DifferBy(allocs: uint32, frees: uint32, n: int, k: int) {
    allocs - frees == n + k * TWO_32
  }

  /** The 32-bit totals differ by n, as 32-bit numbers. */
  ghost predicate TotalsOk(allocs: uint32, frees: uint32, n: int) {
    exists k :: DifferBy(allocs, frees, n, k)
  }

  lemma CountAlloc(allocs: uint32, frees: uint32, n: int)
    requires TotalsOk(allocs, frees, n)
    ensures TotalsOk(Increment(allocs), frees, n + 1)
  {
    var k :| DifferBy(allocs, frees, n, k);
    assert DifferBy(Increment(allocs), frees, n + 1, if allocs == TWO_32 - 1 then k - 1 else k);
  }

  lemma CountFree(allocs: uint32, frees: uint32, n: int)
    requires TotalsOk(allocs, frees, n)
    ensures TotalsOk(allocs, Increment(frees), n - 1)
  {
    var k :| DifferBy(allocs, frees, n, k);
    assert DifferBy(allocs, Increment(frees), n - 1, if frees == TWO_32 - 1 then k + 1 else k);
  }

  /** The difference of the totals, taken as a 32-bit number, is n as a 32-bit number. */
  lemma TotalsModulo(allocs: uint32, frees: uint32, n: int)
    requires TotalsOk(allocs, frees, n)
    ensures (allocs - frees) % TWO_32 == n % TWO_32
  {
    var k :| DifferBy(allocs, frees, n, k);
  }

  class CallStackTable {
    var num_allocs: uint32
    var num_frees: uint32
    var entry_map: map<nat, uint32>        // call stack to net number of allocations
    const leak_analyzer: LeakAnalyzer
    ghost var tracked: multiset<nat>    // the call stacks added and not removed since

    ghost function Repr(): set<object> {
      {this} + leak_analyzer.Repr()
    }

    ghost predicate Valid()
      reads Repr()
    {
      && this !in leak_analyzer.Repr() && leak_analyzer.Valid()
      && leak_analyzer.ranking_size == K_RANKED_LIST_SIZE
      && SamplesOk(leak_analyzer.samples)
      && Counted()
    }

    /** The counts agree with the tracked call stacks. */
    ghost predicate Counted()
      reads this
    {
      CountsOk(entry_map, tracked) && TotalsOk(num_allocs, num_frees, |tracked|)
    }

    constructor (call_stack_suspicion_threshold: nat)
      ensures Valid() && fresh(Repr())
      ensures entry_map == map[] && tracked == multiset{}
      ensures leak_analyzer.score_threshold == call_stack_suspicion_threshold
      ensures leak_analyzer.samples == []
    {
      num_allocs, num_frees, entry_map := 0, 0, map[];
      assert DifferBy(0, 0, 0, 0);
      leak_analyzer := new LeakAnalyzer(K_RANKED_LIST_SIZE, call_stack_suspicion_threshold);
      tracked := multiset{};
    }

    method Add(call_stack: nat)
      requires Counted()
      requires tracked[call_stack] < TWO_32 - 1
      modifies this
      ensures Counted() && tracked == old(tracked) + multiset{call_stack}
      ensures num_allocs == Increment(old(num_allocs)) && num_frees == old(num_frees)
    {
      CountsAfterAdd(entry_map, tracked, call_stack);
      ghost var table := entry_map[call_stack := tracked[call_stack] + 1];
      if call_stack !in entry_map {
        entry_map := entry_map[call_stack := 0];
      }
      entry_map := entry_map[call_stack := Increment(entry_map[call_stack])];
      assert entry_map == table;
      CountAlloc(num_allocs, num_frees, |tracked|);
      num_allocs := Increment(num_allocs);
      tracked := tracked + multiset{call_stack};
    }

    /** Removing a call stack that is not tracked does nothing; removing a tracked one always
        finds a positive count. */
    method Remove(call_stack: nat)
      requires Counted()
      modifies this
      ensures Counted() && tracked == old(tracked) - multiset{call_stack}
      ensures num_allocs == old(num_allocs)
      ensures num_frees == if call_stack in old(tracked) then Increment(old(num_frees)) else old(num_frees)
    {
      if call_stack !in entry_map {
        return;
      }
      CountsAfterRemove(entry_map, tracked, call_stack);
      assert entry_map[call_stack] > 0;
      entry_map := entry_map[call_stack := Decrement(entry_map[call_stack])];
      CountFree(num_allocs, num_frees, |tracked|);
      num_frees := Increment(num_frees);
      tracked := tracked - multiset{call_stack};
      // An entry is only kept while its count is positive.
      if entry_map[call_stack] == 0 {
        entry_map := entry_map - {call_stack};
      }
    }

    /** Rank the call stacks by net number of allocations, in whatever order the hash table
        yields them. */
    method RankStacks() returns (ranked_list: RankedList)
      requires Counted()
      ensures fresh(ranked_list) && ranked_list.Valid() && ranked_list.max_size == K_RANKED_LIST_SIZE
      ensures Lists(ranked_list.added, entry_map)
    {
      ranked_list := new RankedList(K_RANKED_LIST_SIZE);
      var rest := entry_map.Keys;
      while rest != {}
        invariant rest <= entry_map.Keys
        invariant fresh(ranked_list) && ranked_list.Valid() && ranked_list.max_size == K_RANKED_LIST_SIZE
        invariant Lists(ranked_list.added, entry_map - rest)
        modifies ranked_list
        decreases rest
      {
        var c :| c in rest;
        ListsStep(ranked_list.added, entry_map, rest, c);
        rest := rest - {c};
        if entry_map[c] > 0 {
          ranked_list.Add(CallStackValue(c), entry_map[c]);
        }
      }
      assert entry_map - rest == entry_map;
    }

    lemma ReportsAreTracked(s: seq<Entry>)
      requires leak_analyzer.Valid() && leak_analyzer.samples != []
      requires leak_analyzer.samples[|leak_analyzer.samples| - 1] == Top(Ranked(s), K_RANKED_LIST_SIZE)
      requires Lists(s, entry_map) && Counted()
      ensures forall v :: v in leak_analyzer.suspected_leaks ==> v.CallStackValue? && v.call_stack in tracked
    {
      forall v | v in leak_analyzer.suspected_leaks ensures v.CallStackValue? && v.call_stack in tracked {
        leak_analyzer.ReportedValuesOccur(v);
        RankedValues(s, K_RANKED_LIST_SIZE, v);
      }
    }

    /** Check for leak patterns in the live call stacks. */
    method TestForLeaks()
      requires Valid()
      requires forall c :: c in tracked ==> tracked[c] < COUNT_LIMIT
      modifies leak_analyzer.Repr()
      ensures Valid()
      ensures forall v :: v in leak_analyzer.suspected_leaks ==> v.CallStackValue? && v.call_stack in tracked
      ensures exists s ::
        Lists(s, entry_map)
        && leak_analyzer.samples == old(leak_analyzer.samples) + [Top(Ranked(s), K_RANKED_LIST_SIZE)]
    {
      var ranked_list := RankStacks();
      ghost var s := ranked_list.added;
      RankedSampleOk(s, K_RANKED_LIST_SIZE);
      leak_analyzer.AddSample(ranked_list);
      ReportsAreTracked(s);
    }
  }

  lemma ListsStep(s: seq<Entry>, table: map<nat, uint32>, rest: set<nat>, c: nat)
    requires c in rest && rest <= table.Keys
    requires Lists(s, table - rest)
    ensures Lists(s + [Entry(CallStackValue(c), table[c])], table - (rest - {c}))
  {
    var t := s + [Entry(CallStackValue(c), table[c])];
    forall d | d in table - (rest - {c}) ensures Entry(CallStackValue(d), table[d]) in t {
      if d == c {
        assert t[|s|] == Entry(CallStackValue(d), table[d]);
      } else {
        assert d in table - rest;
      }
    }
  }
}
