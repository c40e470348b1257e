/**
 The two-tier leak detector (leak_detector_impl.cc): counts by allocation size, and counts by
 call stack for the sizes that are suspected.
 */
module LeakDetectors {
  import opened RankedLists
  import opened LeakAnalyzers
  import opened CallStackManagers
  import opened CallStackTables
  import opened LeakCounts
  import opened LeakTraces
  import opened LeakHistories
  import opened LeakReports
  import opened LeakSuspects

  datatype SizeEntry = SizeEntry(num_allocs: uint32, num_frees: uint32, stack_table: CallStackTable?)

  class LeakDetector {
    const call_stack_manager: CallStackManager
    const size_leak_analyzer: LeakAnalyzer
    const call_stack_suspicion_threshold: nat
    const mapping_addr: nat
    const mapping_size: nat
    var alloc_size: int
    var free_size: int
    var num_stack_tables: uint32
    var address_map: map<nat, AllocInfo>
    var size_entries: seq<SizeEntry>
    ghost const size_suspicion_threshold: nat
    ghost var lost: seq<AllocInfo>     // allocations recorded at an address that was live
    ghost var traces: Traces           // what was passed for the outstanding allocations
    ghost var checks: seq<Outstanding> // what was outstanding at each check for leaks
    ghost const start: int             // alloc_size - free_size at the start

    ghost function Now(): Outstanding
      reads `address_map, `lost
    {
      Outstanding(address_map, lost)
    }

    ghost function Table(i: int): CallStackTable?
      reads `size_entries
    {
      if 0 <= i < |size_entries| then size_entries[i].stack_table else null
    }

    ghost function TableObjects(i: int): set<object>
      reads `size_entries
    {
      if Table(i) == null then {} else Table(i).Repr()
    }

    /** The table of slot i, without its analyzer. */
    ghost function TableOf(i: int): set<object>
      reads `size_entries
    {
      if Table(i) == null then {} else {Table(i)}
    }

    ghost function Tables(): set<object>
      reads `size_entries
    {
      set i, o: object | 0 <= i < |size_entries| && o in TableObjects(i) :: o
    }

    ghost function Core(): set<object> {
      {this, call_stack_manager} + size_leak_analyzer.Repr()
    }

    /** No two components share an object. */
    ghost predicate Separate()
      reads `size_entries
    {
      && this != call_stack_manager as object && this !in size_leak_analyzer.Repr()
      && call_stack_manager !in size_leak_analyzer.Repr()
      && (forall i :: TableObjects(i) !! Core())
      && (forall i, j :: i != j ==> TableObjects(i) !! TableObjects(j))
    }

    ghost function SlotAt(i: int): Slot
      requires 0 <= i < |size_entries|
      reads `size_entries, TableObjects(i)
    {
      var e := size_entries[i];
      if e.stack_table == null then Slot(e.num_allocs, e.num_frees, multiset{}, [])
      else Slot(e.num_allocs, e.num_frees, e.stack_table.tracked, e.stack_table.leak_analyzer.samples)
    }

    ghost function Slots(): (slots: seq<Slot>)
      reads this, Tables()
      ensures |slots| == |size_entries| && forall j :: 0 <= j < |slots| ==> slots[j] == SlotAt(j)
    {
      seq(|size_entries|, j requires 0 <= j < |size_entries| reads `size_entries, Tables() => SlotAt(j))
    }

    /** The counts of slot i agree with the outstanding allocations. */
    ghost predicate SlotOk(i: int)
      reads `size_entries, `address_map, `lost, TableObjects(i)
    {
      0 <= i < |size_entries| ==> SlotAgrees(SlotAt(i), Now(), i)
    }

    /** The table of slot i has been given a sample of each check at which it was not empty. */
    ghost predicate HistoryOk(i: int)
      reads `size_entries, `checks, TableObjects(i)
    {
      0 <= i < |size_entries| ==> StackHistory(SlotAt(i).samples, checks, i)
    }

    /** The table of slot i is well-formed, has the configured threshold, and all call stacks in
        it are the manager's. */
    ghost predicate TableOk(i: int)
      reads `size_entries, TableObjects(i), call_stack_manager
    {
      Table(i) != null ==>
        && Table(i).Valid()
        && Table(i).leak_analyzer.score_threshold == call_stack_suspicion_threshold
        && forall c :: c in Table(i).tracked ==> c in call_stack_manager.call_stacks
    }

    ghost predicate TablesOk()
      reads `size_entries, Tables(), call_stack_manager
    {
      forall i {:trigger TableOk(i)} :: TableOk(i)
    }

    /** The bookkeeping is right, and both tiers have been given what was outstanding at the
        checks so far. */
    ghost predicate Valid()
      reads this, Core(), Tables()
    {
      Bookkeeping() && AnalyzerOk(checks) && HistoriesOk()
    }

    /** The detector's components are in order, and all its counters and records agree with the
        outstanding allocations. */
    ghost predicate Bookkeeping()
      reads this, call_stack_manager, Tables()
    {
      && |size_entries| == K_NUM_SIZE_ENTRIES
      && Separate() && TablesOk()
      && call_stack_manager.Valid()
      && SlotsOk()
      && RecordsOk()
      && TracesAgree(Now(), traces, call_stack_manager.call_stacks)
    }

    ghost predicate SlotsOk()
      reads `size_entries, `address_map, `lost, Tables()
    {
      forall i {:trigger SlotOk(i)} :: SlotOk(i)
    }

    ghost predicate HistoriesOk()
      reads `size_entries, `checks, Tables()
    {
      forall i {:trigger HistoryOk(i)} :: HistoryOk(i)
    }

    /** The first tier has the configured threshold, and has been given a sample of each check. */
    ghost predicate AnalyzerOk(h: seq<Outstanding>)
      reads size_leak_analyzer.Repr()
    {
      && size_leak_analyzer.Valid() && SamplesOk(size_leak_analyzer.samples)
      && size_leak_analyzer.ranking_size == K_RANKED_LIST_SIZE
      && size_leak_analyzer.score_threshold == size_suspicion_threshold
      && SizeHistory(size_leak_analyzer.samples, h)
    }

    /** All sizes are in range, and the byte totals agree with the outstanding allocations. */
    ghost predicate RecordsOk()
      reads `address_map, `lost, `alloc_size, `free_size
    {
      RecordsAgree(Now(), alloc_size, free_size, start)
    }

    constructor (mapping_addr: nat, mapping_size: nat, size_suspicion_threshold: nat,
                 call_stack_suspicion_threshold: nat, hashOf: seq<nat> -> nat)
      ensures Valid() && fresh(Core()) && Tables() == {}
      ensures address_map == map[] && lost == [] && traces == Traces(map[], []) && checks == []
      ensures this.mapping_addr == mapping_addr && this.mapping_size == mapping_size
      ensures this.size_suspicion_threshold == size_suspicion_threshold
      ensures this.call_stack_suspicion_threshold == call_stack_suspicion_threshold
    {
      this.size_suspicion_threshold := size_suspicion_threshold;
      this.mapping_addr, this.mapping_size := mapping_addr, mapping_size;
      this.call_stack_suspicion_threshold := call_stack_suspicion_threshold;
      call_stack_manager := new CallStackManager(hashOf);
      size_leak_analyzer := new LeakAnalyzer(K_RANKED_LIST_SIZE, size_suspicion_threshold);
      var uninitialized1: int, uninitialized2: int := *, *;
      alloc_size, free_size := uninitialized1, uninitialized2;
      start := uninitialized1 - uninitialized2;
      num_stack_tables := 0;
      address_map, lost, traces, checks := map[], [], Traces(map[], []), [];
      size_entries := seq(K_NUM_SIZE_ENTRIES, _ => SizeEntry(0, 0, null));
      new;
      assert BytesDifferBy(alloc_size, free_size, start, 0, 0);
      forall i ensures TableOk(i) {}
      forall i ensures SlotOk(i) {
        if 0 <= i < |size_entries| {
          assert LiveIn(map[], i) == {};
          assert DifferBy(0, 0, 0, 0);
          forall c ensures LiveWith(map[], i, c) == {} {}
        }
      }
      forall i ensures HistoryOk(i) {}
    }

    /** Making a call stack object leaves the tables as they are. */
    method Intern(stack: seq<nat>) returns (c: nat)
      requires Separate() && TablesOk() && call_stack_manager.Valid()
      modifies call_stack_manager
      ensures TablesOk() && call_stack_manager.Valid()
      ensures c != 0 && c in call_stack_manager.call_stacks
      ensures call_stack_manager.call_stacks[c].stack == stack
      ensures ObjectsKept(old(call_stack_manager.call_stacks), call_stack_manager.call_stacks)
    {
      c := call_stack_manager.GetCallStack(stack);
      forall i ensures TableOk(i) {
        assert old(TableOk(i));
      }
    }

    /** Count call stack c once more in the table of slot i. */
    method TrackAlloc(i: int, c: nat)
      requires 0 <= i < |size_entries| && Separate() && TablesOk() && Table(i) != null
      requires c in call_stack_manager.call_stacks && Table(i).tracked[c] < TWO_32 - 1
      modifies Table(i)
      ensures TablesOk()
      ensures forall j {:trigger SlotAt(j)} :: 0 <= j < |size_entries| ==>
        SlotAt(j) == if j == i then old(SlotAt(j)).(tracked := old(SlotAt(j)).tracked + multiset{c}) else old(SlotAt(j))
    {
      hide CountsOk;
      hide TotalsOk;
      var table := size_entries[i].stack_table;
      assert TableOk(i) && table in TableObjects(i);
      table.Add(c);
      forall j ensures TableOk(j) {
        assert old(TableOk(j));
        if j != i {
          assert table !in TableObjects(j);
        }
      }
    }

    /** Count call stack c once less in the table of slot i. */
    method TrackFree(i: int, c: nat)
      requires 0 <= i < |size_entries| && Separate() && TablesOk() && Table(i) != null
      requires c in call_stack_manager.call_stacks
      modifies Table(i)
      ensures TablesOk()
      ensures forall j {:trigger SlotAt(j)} :: 0 <= j < |size_entries| ==>
        SlotAt(j) == if j == i then old(SlotAt(j)).(tracked := old(SlotAt(j)).tracked - multiset{c}) else old(SlotAt(j))
    {
      hide CountsOk;
      hide TotalsOk;
      var table := size_entries[i].stack_table;
      assert TableOk(i) && table in TableObjects(i);
      table.Remove(c);
      forall j ensures TableOk(j) {
        assert old(TableOk(j));
        if j != i {
          assert table !in TableObjects(j);
        }
      }
    }

    /** Set the counters of slot i. */
    method SetCounters(i: int, allocs: uint32, frees: uint32)
      requires 0 <= i < |size_entries| && Separate() && TablesOk()
      modifies `size_entries
      ensures |size_entries| == old(|size_entries|) && Separate() && TablesOk()
      ensures forall j :: Table(j) == old(Table(j))
      ensures forall j {:trigger SlotAt(j)} :: 0 <= j < |size_entries| ==>
        SlotAt(j) == if j == i then old(SlotAt(j)).(allocs := allocs, frees := frees) else old(SlotAt(j))
    {
      size_entries := size_entries[i := size_entries[i].(num_allocs := allocs, num_frees := frees)];
      assert forall j :: Table(j) == old(Table(j)) && TableObjects(j) == old(TableObjects(j));
      forall j ensures TableOk(j) {
        assert old(TableOk(j));
      }
    }

    /** Count an allocation in its slot; c is its call stack object, or 0. */
    method CountAllocation(size: nat, stack: seq<nat>) returns (c: nat)
      requires |size_entries| == K_NUM_SIZE_ENTRIES && HasIndex(size)
      requires Separate() && TablesOk() && call_stack_manager.Valid()
      requires forall i, d :: 0 <= i < |size_entries| ==> SlotAt(i).tracked[d] < TWO_32 - 1
      modifies `size_entries, call_stack_manager, TableOf(SizeToIndex(size))
      ensures |size_entries| == K_NUM_SIZE_ENTRIES
      ensures Separate() && TablesOk() && call_stack_manager.Valid()
      ensures forall j :: Table(j) == old(Table(j))
      ensures c != 0 <==> Table(SizeToIndex(size)) != null && |stack| > 0
      ensures c != 0 ==>
        c in call_stack_manager.call_stacks && call_stack_manager.call_stacks[c].stack == stack
      ensures ObjectsKept(old(call_stack_manager.call_stacks), call_stack_manager.call_stacks)
      ensures forall j {:trigger SlotAt(j)} :: 0 <= j < |size_entries| ==>
        SlotAt(j) == SlotAlloc(old(SlotAt(j)), AllocInfo(size, c), j)
    {
      IndexInRange(size);
      var i := SizeToIndex(size);
      var entry := size_entries[i];
      c := 0;
      if entry.stack_table != null && |stack| > 0 {
        c := Intern(stack);
        assert SlotAt(i) == old(SlotAt(i));
        TrackAlloc(i, c);
      }
      SetCounters(i, Increment(entry.num_allocs), entry.num_frees);
    }

    /** Record the allocation itself. */
    method StoreAlloc(ptr: nat, info: AllocInfo, ghost t: Trace)
      requires RecordsOk() && HasIndex(info.size)
      requires Separate() && TablesOk()
      modifies `address_map, `lost, `traces, `alloc_size
      ensures RecordsOk() && Now() == old(Now()).Alloc(ptr, info) && traces == old(traces).Alloc(ptr, t)
      ensures alloc_size == Add64(old(alloc_size), info.size)
      ensures Separate() && TablesOk()
      ensures forall j {:trigger SlotAt(j)} :: 0 <= j < |size_entries| ==> SlotAt(j) == old(SlotAt(j))
    {
      hide RecordsAgree;
      AllocRecords(Now(), alloc_size, free_size, start, ptr, info);
      alloc_size := Add64(alloc_size, info.size);
      traces := traces.Alloc(ptr, t);
      if ptr in address_map {
        lost := lost + [info];  // insert() does not overwrite
      } else {
        address_map := address_map[ptr := info];
      }
    }

    /** Record an allocation; c is its call stack object, or 0. */
    method RecordAlloc(ptr: nat, size: nat, stack: seq<nat>) returns (ghost c: nat)
      requires Valid()
      requires HasIndex(size)
      requires |address_map| + |lost| < TWO_32 - 1
      modifies `size_entries, `address_map, `lost, `traces, `alloc_size
      modifies call_stack_manager, TableOf(SizeToIndex(size))
      ensures Valid()
      ensures Now() == old(Now()).Alloc(ptr, AllocInfo(size, c))
      ensures traces == old(traces).Alloc(ptr, Trace(size, stack, c != 0))
      ensures c != 0 <==> Table(SizeToIndex(size)) != null && |stack| > 0
      ensures c != 0 ==>
        c in call_stack_manager.call_stacks && call_stack_manager.call_stacks[c].stack == stack
      ensures ObjectsKept(old(call_stack_manager.call_stacks), call_stack_manager.call_stacks)
      ensures forall j :: Table(j) == old(Table(j))
      ensures forall j {:trigger SlotAt(j)} :: 0 <= j < |size_entries| ==>
        AllocCounted(old(SlotAt(j)), SlotAt(j), size, c, j)
      ensures alloc_size == Add64(old(alloc_size), size)
    {
      hide SlotsOk;
      hide HistoriesOk;
      hide TablesOk;
      hide RecordsOk;
      hide TracesAgree;
      hide AllocCounted;
      hide AnalyzerOk;
      TableApart(SizeToIndex(size));
      SmallCounts();
      SlotsNow();
      ghost var slots, before := Slots(), Now();
      var call_stack := CountAllocation(size, stack);
      c := call_stack;
      StoreAlloc(ptr, AllocInfo(size, call_stack), Trace(size, stack, c != 0));
      AllocTraces(before, old(traces), old(call_stack_manager.call_stacks), call_stack_manager.call_stacks,
                  ptr, AllocInfo(size, c), Trace(size, stack, c != 0));
      SlotsAfterAlloc(slots, before, ptr, AllocInfo(size, c));
      SlotsCountAlloc(slots, AllocInfo(size, c));
    }

    lemma SlotsCountAlloc(slots: seq<Slot>, info: AllocInfo)
      requires |size_entries| == |slots| && HasIndex(info.size)
      requires forall j {:trigger SlotAt(j)} :: 0 <= j < |slots| ==> SlotAt(j) == SlotAlloc(slots[j], info, j)
      ensures forall j {:trigger SlotAt(j)} :: 0 <= j < |slots| ==>
        AllocCounted(slots[j], SlotAt(j), info.size, info.call_stack, j)
    {
      forall j | 0 <= j < |slots| ensures AllocCounted(slots[j], SlotAt(j), info.size, info.call_stack, j) {
        SlotAllocCounts(slots[j], info, j);
      }
    }

    lemma SlotsCountFree(slots: seq<Slot>, info: AllocInfo)
      requires |size_entries| == |slots| && HasIndex(info.size)
      requires forall j {:trigger SlotAt(j)} :: 0 <= j < |slots| ==> SlotAt(j) == SlotFree(slots[j], info, j)
      ensures forall j {:trigger SlotAt(j)} :: 0 <= j < |slots| ==>
        FreeCounted(slots[j], SlotAt(j), info.size, info.call_stack, j)
    {
      forall j | 0 <= j < |slots| ensures FreeCounted(slots[j], SlotAt(j), info.size, info.call_stack, j) {
        SlotFreeCounts(slots[j], info, j);
      }
    }

    lemma SlotsAfterAlloc(slots: seq<Slot>, before: Outstanding, ptr: nat, info: AllocInfo)
      requires |size_entries| == |slots| && Now() == before.Alloc(ptr, info)
      requires forall j :: 0 <= j < |slots| ==>
        SlotAgrees(slots[j], before, j) && StackHistory(slots[j].samples, checks, j)
      requires forall j {:trigger SlotAt(j)} :: 0 <= j < |slots| ==> SlotAt(j) == SlotAlloc(slots[j], info, j)
      ensures SlotsOk() && HistoriesOk()
    {
      forall j ensures SlotOk(j) && HistoryOk(j) {
        if 0 <= j < |size_entries| {
          SlotAllocAgrees(slots[j], before, ptr, info, j);
        }
      }
    }

    /** Forget a live allocation in its slot. */
    method CountFree(info: AllocInfo)
      requires |size_entries| == K_NUM_SIZE_ENTRIES && HasIndex(info.size)
      requires Separate() && TablesOk()
      requires info.call_stack != 0 ==>
        Table(SizeToIndex(info.size)) != null && info.call_stack in call_stack_manager.call_stacks
      modifies `size_entries, TableOf(SizeToIndex(info.size))
      ensures |size_entries| == K_NUM_SIZE_ENTRIES
      ensures Separate() && TablesOk()
      ensures forall j :: Table(j) == old(Table(j))
      ensures forall j {:trigger SlotAt(j)} :: 0 <= j < |size_entries| ==>
        SlotAt(j) == SlotFree(old(SlotAt(j)), info, j)
    {
      IndexInRange(info.size);
      var i := SizeToIndex(info.size);
      var entry := size_entries[i];
      if info.call_stack != 0 {
        if entry.stack_table != null {
          TrackFree(i, info.call_stack);
        }
      }
      SetCounters(i, entry.num_allocs, Increment(entry.num_frees));
    }

    /** Drop the record of a live allocation. */
    method DropRecord(ptr: nat)
      requires RecordsOk() && ptr in address_map
      requires Separate() && TablesOk()
      modifies `address_map, `traces, `free_size
      ensures RecordsOk() && Now() == old(Now()).Free(ptr) && traces == old(traces).Free(ptr)
      ensures free_size == Add64(old(free_size), old(address_map)[ptr].size)
      ensures Separate() && TablesOk()
      ensures forall j {:trigger SlotAt(j)} :: 0 <= j < |size_entries| ==> SlotAt(j) == old(SlotAt(j))
    {
      hide RecordsAgree;
      FreeRecords(Now(), alloc_size, free_size, start, ptr);
      free_size := Add64(free_size, address_map[ptr].size);
      address_map := address_map - {ptr};
      traces := traces.Free(ptr);
    }

    /** Removing a tracked stack finds a positive entry: a live allocation with a call stack is
        counted in its slot's table. */
    lemma LiveStackIsTracked(ptr: nat)
      requires Valid() && ptr in address_map && address_map[ptr].call_stack != 0
      ensures var i := SizeToIndex(address_map[ptr].size);
        Table(i) != null && Table(i).tracked[address_map[ptr].call_stack] > 0
    {
      var info := address_map[ptr];
      var i := SizeToIndex(info.size);
      IndexInRange(info.size);
      assert SlotOk(i);
      LiveIsCounted(Now(), ptr);
    }

    /** The table that counts the allocation at ptr, if any. */
    ghost function TableFor(ptr: nat): set<object>
      reads `size_entries, `address_map
    {
      if ptr in address_map then TableOf(SizeToIndex(address_map[ptr].size)) else {}
    }

    method RecordFree(ptr: nat)
      requires Valid()
      modifies `size_entries, `address_map, `traces, `free_size, TableFor(ptr)
      ensures Valid()
      ensures ptr in old(address_map) ==> Now() == old(Now()).Free(ptr) && traces == old(traces).Free(ptr)
      ensures ptr !in old(address_map) ==> Now() == old(Now()) && traces == old(traces)
      ensures ptr !in old(address_map) ==> size_entries == old(size_entries) && free_size == old(free_size)
      ensures forall j :: Table(j) == old(Table(j))
      ensures ptr in old(address_map) ==> forall j {:trigger SlotAt(j)} :: 0 <= j < |size_entries| ==>
        FreeCounted(old(SlotAt(j)), SlotAt(j), old(address_map)[ptr].size, old(address_map)[ptr].call_stack, j)
      ensures ptr in old(address_map) ==> free_size == Add64(old(free_size), old(address_map)[ptr].size)
    {
      hide SlotsOk;
      hide HistoriesOk;
      hide TablesOk;
      hide RecordsOk;
      hide TracesAgree;
      hide FreeCounted;
      hide AnalyzerOk;
      if ptr !in address_map {
        return;
      }
      SlotsNow();
      ghost var slots, before := Slots(), Now();
      var info := address_map[ptr];
      RecordHasIndex(ptr);
      TableApart(SizeToIndex(info.size));
      if info.call_stack != 0 {
        FreeIsTracked(ptr);
      }
      CountFree(info);
      DropRecord(ptr);
      FreeTraces(before, old(traces), call_stack_manager.call_stacks, ptr);
      SlotsAfterFree(slots, before, ptr);
      SlotsCountFree(slots, info);
    }

    /** What a caller may use of the invariant. */
    lemma ValidMeans()
      requires Valid()
      ensures |size_entries| == K_NUM_SIZE_ENTRIES && SlotsOk()
      ensures TracesAgree(Now(), traces, call_stack_manager.call_stacks)
      ensures AllIndexed(Now())
    {
    }

    /** The tables that recording touches are the detector's. */
    lemma TablesWithin(ptr: nat, size: nat)
      requires Valid()
      ensures HasIndex(size) ==> TableOf(SizeToIndex(size)) <= Tables()
      ensures TableFor(ptr) <= Tables()
    {
      hide TablesOk;
      hide SlotsOk;
      hide HistoriesOk;
      hide AnalyzerOk;
      hide TracesAgree;
      forall i | 0 <= i < |size_entries| ensures TableOf(i) <= Tables() {
        assert TableOf(i) <= TableObjects(i);
      }
      IndexInRange(size);
      if ptr in address_map {
        RecordHasIndex(ptr);
        IndexInRange(address_map[ptr].size);
      }
    }

    lemma TablesApart()
      requires Separate()
      ensures Tables() !! Core()
    {
      assert forall j :: TableObjects(j) !! Core();
    }

    lemma TableApart(i: int)
      requires Separate()
      ensures TableOf(i) !! size_leak_analyzer.Repr() && call_stack_manager !in TableOf(i)
    {
      assert TableOf(i) <= TableObjects(i);
    }

    lemma RecordHasIndex(ptr: nat)
      requires RecordsOk() && ptr in address_map
      ensures HasIndex(address_map[ptr].size)
    {
    }

    /** The call stack of a live allocation is in the table of its slot. */
    lemma FreeIsTracked(ptr: nat)
      requires Valid() && ptr in address_map && address_map[ptr].call_stack != 0
      ensures Table(SizeToIndex(address_map[ptr].size)) != null
      ensures address_map[ptr].call_stack in call_stack_manager.call_stacks
    {
      LiveStackIsTracked(ptr);
      assert TableOk(SizeToIndex(address_map[ptr].size));
    }

    lemma SlotsAfterFree(slots: seq<Slot>, before: Outstanding, ptr: nat)
      requires |size_entries| == |slots| && ptr in before.live && Now() == before.Free(ptr)
      requires forall j :: 0 <= j < |slots| ==>
        SlotAgrees(slots[j], before, j) && StackHistory(slots[j].samples, checks, j)
      requires forall j {:trigger SlotAt(j)} :: 0 <= j < |slots| ==>
        SlotAt(j) == SlotFree(slots[j], before.live[ptr], j)
      ensures SlotsOk() && HistoriesOk()
    {
      forall j ensures SlotOk(j) && HistoryOk(j) {
        if 0 <= j < |size_entries| {
          SlotFreeAgrees(slots[j], before, ptr, j);
        }
      }
    }

    /** The slots agree with the outstanding allocations and the checks. */
    lemma SlotsNow()
      requires SlotsOk() && HistoriesOk()
      ensures forall j :: 0 <= j < |size_entries| ==>
        SlotAgrees(Slots()[j], Now(), j) && StackHistory(Slots()[j].samples, checks, j)
    {
      forall j | 0 <= j < |size_entries|
        ensures SlotAgrees(Slots()[j], Now(), j) && StackHistory(Slots()[j].samples, checks, j)
      {
        assert SlotOk(j) && HistoryOk(j);
      }
    }

    lemma SlotsAgree()
      requires SlotsOk()
      ensures forall j {:trigger SlotAt(j)} :: 0 <= j < |size_entries| ==> SlotAgrees(SlotAt(j), Now(), j)
    {
      forall j | 0 <= j < |size_entries| ensures SlotAgrees(SlotAt(j), Now(), j) {
        assert SlotOk(j);
      }
    }

    lemma SmallCounts()
      requires Valid()
      requires |address_map| + |lost| < TWO_32 - 1
      ensures forall i, d :: 0 <= i < |size_entries| ==> SlotAt(i).tracked[d] < TWO_32 - 1
    {
      forall i, d | 0 <= i < |size_entries| ensures SlotAt(i).tracked[d] < TWO_32 - 1 {
        assert SlotOk(i);
        CountsBounded(Now(), i, d);
      }
    }

    // ---------- testing for leaks ----------

    lemma CountersAgree()
      requires SlotsOk()
      ensures forall j :: 0 <= j < |size_entries| ==>
        TotalsOk(size_entries[j].num_allocs, size_entries[j].num_frees, Now().InSlot(j))
    {
      forall j | 0 <= j < |size_entries|
        ensures TotalsOk(size_entries[j].num_allocs, size_entries[j].num_frees, Now().InSlot(j))
      {
        assert SlotOk(j);
      }
    }

    /** Rank the sizes by net number of allocations. */
    method RankSizes() returns (ranked_list: RankedList)
      requires Bookkeeping() && |address_map| + |lost| < COUNT_LIMIT
      ensures fresh(ranked_list) && ranked_list.Valid() && ranked_list.max_size == K_RANKED_LIST_SIZE
      ensures ranked_list.added == SizeList(Now())
      ensures SampleOk(ranked_list.added) && Distinct(ranked_list.added)
    {
      hide Separate;
      hide TablesOk;
      hide RecordsOk;
      hide TracesAgree;
      hide SlotsOk;
      CountersAgree();
      ranked_list := new RankedList(K_RANKED_LIST_SIZE);
      var i := 0;
      while i < |size_entries|
        invariant 0 <= i <= |size_entries|
        invariant fresh(ranked_list) && ranked_list.Valid() && ranked_list.max_size == K_RANKED_LIST_SIZE
        invariant ranked_list.added == SizeList(Now())[..i]
        invariant SampleOk(ranked_list.added)
        modifies ranked_list
      {
        var entry := size_entries[i];
        CountsBounded(Now(), i, 0);
        NetCount(entry.num_allocs, entry.num_frees, Now().InSlot(i));
        ranked_list.Add(SizeValue(IndexToSize(i)), ToInt32(entry.num_allocs - entry.num_frees));
        i := i + 1;
      }
    }

    /** The first tier: analyze the counts by size. */
    method AnalyzeSizes()
      requires Valid() && |address_map| + |lost| < COUNT_LIMIT
      modifies size_leak_analyzer.Repr()
      ensures Bookkeeping() && HistoriesOk() && AnalyzerOk(checks + [Now()])
      ensures size_leak_analyzer.samples == old(size_leak_analyzer.samples) + [SizeSample(Now())]
      ensures forall v :: v in size_leak_analyzer.suspected_leaks ==> IsSlotSize(v)
    {
      hide SlotsOk;
      hide HistoriesOk;
      hide TablesOk;
      hide RecordsOk;
      hide TracesAgree;
      hide AnalyzerOk;
      TablesApart();
      RankAndAnalyze();
    }

    method RankAndAnalyze()
      requires Bookkeeping() && AnalyzerOk(checks) && |address_map| + |lost| < COUNT_LIMIT
      modifies size_leak_analyzer.Repr()
      ensures AnalyzerOk(checks + [Now()])
      ensures size_leak_analyzer.samples == old(size_leak_analyzer.samples) + [SizeSample(Now())]
      ensures forall v :: v in size_leak_analyzer.suspected_leaks ==> IsSlotSize(v)
    {
      hide SlotsOk;
      hide TablesOk;
      hide RecordsOk;
      hide TracesAgree;
      hide AnalyzerOk;
      var size_ranked_list := RankSizes();
      AnalyzeRanked(size_ranked_list);
    }

    /** Only the analyzer changes. */
    method AnalyzeRanked(size_ranked_list: RankedList)
      requires AnalyzerOk(checks) && this !in size_leak_analyzer.Repr()
      requires size_ranked_list !in size_leak_analyzer.Repr() && size_ranked_list != this as object
      requires size_ranked_list.Valid() && size_ranked_list.max_size == K_RANKED_LIST_SIZE
      requires size_ranked_list.added == SizeList(Now())
      requires SampleOk(size_ranked_list.added) && Distinct(size_ranked_list.added)
      modifies size_leak_analyzer.Repr(), size_ranked_list
      ensures AnalyzerOk(checks + [Now()])
      ensures size_leak_analyzer.samples == old(size_leak_analyzer.samples) + [SizeSample(Now())]
      ensures forall v :: v in size_leak_analyzer.suspected_leaks ==> IsSlotSize(v)
    {
      RankedSampleOk(size_ranked_list.added, K_RANKED_LIST_SIZE);
      size_leak_analyzer.AddSample(size_ranked_list);
      ReportsAreSlotSizes();
    }

    lemma ReportsAreSlotSizes()
      requires size_leak_analyzer.Valid() && size_leak_analyzer.samples != []
      requires size_leak_analyzer.samples[|size_leak_analyzer.samples| - 1] == SizeSample(Now())
      ensures forall v :: v in size_leak_analyzer.suspected_leaks ==> IsSlotSize(v)
    {
      forall v | v in size_leak_analyzer.suspected_leaks ensures IsSlotSize(v) {
        size_leak_analyzer.ReportedValuesOccur(v);
        RankedValues(SizeList(Now()), K_RANKED_LIST_SIZE, v);
      }
    }

    ghost predicate IsSlotSize(v: Value) {
      v.SizeValue? && exists i :: 0 <= i < K_NUM_SIZE_ENTRIES && v.size == 4 * i
    }

    /** table is empty, has the configured threshold, and has been given no sample. */
    ghost predicate IsNew(table: CallStackTable)
      reads table.Repr()
    {
      && table.Valid() && table.tracked == multiset{} && table.leak_analyzer.samples == []
      && table.leak_analyzer.score_threshold == call_stack_suspicion_threshold
    }

    /** A new table shares no object with anything else. */
    method NewTable() returns (table: CallStackTable)
      requires Separate() && TablesOk()
      ensures IsNew(table) && fresh(table.Repr())
      ensures Separate() && TablesOk()
      ensures table.Repr() !! Core() && forall j :: table.Repr() !! TableObjects(j)
    {
      table := new CallStackTable(call_stack_suspicion_threshold);
      forall j ensures TableOk(j) {
        assert old(TableOk(j));
      }
    }

    /** Make table the call stack table of slot i. */
    method Install(i: int, table: CallStackTable)
      requires 0 <= i < |size_entries| && Table(i) == null && Separate() && TablesOk()
      requires IsNew(table)
      requires table.Repr() !! Core() && forall j :: table.Repr() !! TableObjects(j)
      modifies `size_entries
      ensures |size_entries| == old(|size_entries|) && Separate() && TablesOk()
      ensures Table(i) == table && forall j :: j != i ==> Table(j) == old(Table(j))
      ensures forall j {:trigger SlotAt(j)} :: 0 <= j < |size_entries| ==> SlotAt(j) == old(SlotAt(j))
    {
      size_entries := size_entries[i := size_entries[i].(stack_table := table)];
      assert TableObjects(i) == table.Repr();
      assert forall j :: j != i ==> TableObjects(j) == old(TableObjects(j));
      forall p, q | p != q ensures TableObjects(p) !! TableObjects(q) {
        assert old(TableObjects(p)) !! old(TableObjects(q));
      }
      forall j ensures TableOk(j) {
        assert old(TableOk(j));
      }
    }

    /** Give slot i a call stack table. */
    method AddTable(i: int)
      requires 0 <= i < |size_entries| && Table(i) == null && Separate() && TablesOk()
      modifies `size_entries, `num_stack_tables
      ensures |size_entries| == old(|size_entries|) && Separate() && TablesOk()
      ensures Table(i) != null && fresh(Table(i).Repr())
      ensures forall j :: j != i ==> Table(j) == old(Table(j))
      ensures forall j {:trigger SlotAt(j)} :: 0 <= j < |size_entries| ==> SlotAt(j) == old(SlotAt(j))
    {
      num_stack_tables := Increment(num_stack_tables);
      var table := NewTable();
      Install(i, table);
    }

    /** Give every suspected size a call stack table. */
    method AddTables()
      requires |size_entries| == K_NUM_SIZE_ENTRIES && Separate() && TablesOk()
      requires forall v :: v in size_leak_analyzer.suspected_leaks ==> IsSlotSize(v)
      modifies `size_entries, `num_stack_tables
      ensures |size_entries| == K_NUM_SIZE_ENTRIES && Separate() && TablesOk()
      ensures forall o :: o in Tables() ==> o in old(Tables()) || fresh(o)
      ensures forall j :: old(Table(j)) != null ==> Table(j) == old(Table(j))
      ensures forall j :: 0 <= j < |size_entries| ==>
        (Table(j) != null <==>
          old(Table(j)) != null || SizeValue(4 * j) in size_leak_analyzer.suspected_leaks)
      ensures forall j {:trigger SlotAt(j)} :: 0 <= j < |size_entries| ==> SlotAt(j) == old(SlotAt(j))
    {
      var leaks := size_leak_analyzer.suspected_leaks;
      var k := 0;
      while k < |leaks|
        invariant 0 <= k <= |leaks|
        invariant |size_entries| == K_NUM_SIZE_ENTRIES && Separate() && TablesOk()
        invariant forall j ::
          Table(j) == old(Table(j)) || (old(Table(j)) == null && Table(j) != null && fresh(Table(j).Repr()))
        invariant forall j :: 0 <= j < |size_entries| ==>
          (Table(j) != null <==> old(Table(j)) != null || SizeValue(4 * j) in leaks[..k])
        invariant forall j {:trigger SlotAt(j)} :: 0 <= j < |size_entries| ==> SlotAt(j) == old(SlotAt(j))
      {
        assert leaks[k] in leaks;
        var i: int :| 0 <= i < K_NUM_SIZE_ENTRIES && leaks[k].size == 4 * i;
        SizeIndexRoundTrip(i);
        var index := SizeToIndex(leaks[k].size);
        if size_entries[index].stack_table == null {
          AddTable(index);
        }
        k := k + 1;
      }
      forall o | o in Tables() ensures o in old(Tables()) || fresh(o) {
        var j :| 0 <= j < |size_entries| && o in TableObjects(j);
        assert o in old(TableObjects(j)) ==> o in old(Tables());
      }
    }

    /** The offset of ptr in the current binary, or ptr itself if it is not in it. */
    function GetOffset(ptr: nat): nat {
      if mapping_addr <= ptr < mapping_addr + mapping_size then ptr - mapping_addr else ptr
    }

    /** r is the report on call stack value v for the given size. */
    ghost predicate IsReportOn(r: Report, size: nat, v: Value)
      reads call_stack_manager
    {
      && v.CallStackValue? && v.call_stack in call_stack_manager.call_stacks
      && r.alloc_size_bytes == size
      && Relocated(mapping_addr, mapping_size, call_stack_manager.call_stacks[v.call_stack].stack, r.call_stack)
    }

    /** What there is to report on slot i: every call stack its table's analyzer suspects, if the
        table is not empty. */
    ghost predicate IsReportOf(rs: seq<Report>, i: nat)
      reads `size_entries, TableObjects(i), call_stack_manager
    {
      if Table(i) == null || Table(i).entry_map == map[] then
        rs == []
      else
        var leaks := Table(i).leak_analyzer.suspected_leaks;
        |rs| == |leaks| && forall k :: 0 <= k < |leaks| ==> IsReportOn(rs[k], 4 * i, leaks[k])
    }

    /** Report all suspects of one table. */
    method ReportSuspects(i: nat, leaks: seq<Value>) returns (rs: seq<Report>)
      requires forall v :: v in leaks ==> v.CallStackValue? && v.call_stack in call_stack_manager.call_stacks
      requires TablesOk()
      ensures TablesOk()
      ensures |rs| == |leaks|
      ensures forall k :: 0 <= k < |leaks| ==> IsReportOn(rs[k], 4 * i, leaks[k])
    {
      rs := [];
      var k := 0;
      while k < |leaks|
        invariant 0 <= k <= |leaks| && |rs| == k
        invariant forall j :: 0 <= j < k ==> IsReportOn(rs[j], 4 * i, leaks[j])
      {
        assert leaks[k] in leaks;
        var stack := call_stack_manager.call_stacks[leaks[k].call_stack].stack;
        var offsets := [];
        var j := 0;
        while j < |stack|
          invariant 0 <= j <= |stack| && |offsets| == j
          invariant forall l :: 0 <= l < j ==> IsOffset(mapping_addr, mapping_size, stack[l], offsets[l])
        {
          offsets := offsets + [GetOffset(stack[j])];
          j := j + 1;
        }
        assert Relocated(mapping_addr, mapping_size, stack, offsets);
        rs := rs + [Report(IndexToSize(i), offsets)];
        k := k + 1;
      }
    }

    /** Analyze the table of slot i; only its analyzer changes.  It is given the counts of the
        call stacks in the table. */
    method AnalyzeTable(i: nat)
      requires i < |size_entries| && Separate() && TablesOk() && Table(i) != null
      requires forall d :: Table(i).tracked[d] < COUNT_LIMIT
      modifies Table(i).leak_analyzer.Repr()
      ensures TablesOk()
      ensures forall v :: v in Table(i).leak_analyzer.suspected_leaks ==>
        v.CallStackValue? && v.call_stack in call_stack_manager.call_stacks
      ensures exists s ::
        Lists(s, Table(i).entry_map)
        && Table(i).leak_analyzer.samples == old(Table(i).leak_analyzer.samples) + [Top(Ranked(s), K_RANKED_LIST_SIZE)]
    {
      var table := size_entries[i].stack_table;
      assert TableOk(i);
      assert forall o :: o in table.leak_analyzer.Repr() ==> o in TableObjects(i);
      table.TestForLeaks();
      forall j ensures TableOk(j) {
        assert old(TableOk(j));
      }
    }

    /** From slot s to slot s', a check has given the table's analyzer a sample of what is
        outstanding, or skipped it. */
    ghost predicate Analyzed(s: Slot, s': Slot, i: int)
      reads `address_map, `lost
    {
      s' == s.(samples := s'.samples) && SampleAdded(s.samples, s'.samples, Now(), i)
    }

    /** Analyze the table of slot i, if there is one with call stacks in it. */
    method TestTable(i: nat) returns (rs: seq<Report>)
      requires i < |size_entries| && Separate() && TablesOk()
      requires SlotAgrees(SlotAt(i), Now(), i) && forall d :: SlotAt(i).tracked[d] < COUNT_LIMIT
      modifies AnalyzerOf(i)
      ensures TablesOk()
      ensures Analyzed(old(SlotAt(i)), SlotAt(i), i)
      ensures IsReportOf(rs, i)
    {
      var table := size_entries[i].stack_table;
      rs := [];
      TableIsListed(i);
      if table != null && table.entry_map != map[] {
        assert TableOk(i) && table !in table.leak_analyzer.Repr();
        AnalyzeTable(i);
        rs := ReportSuspects(i, table.leak_analyzer.suspected_leaks);
      }
    }

    lemma TableIsListed(i: nat)
      requires i < |size_entries| && TablesOk() && SlotAgrees(SlotAt(i), Now(), i)
      ensures HasStacks(Now(), i) <==> Table(i) != null && Table(i).entry_map != map[]
      ensures Table(i) != null ==> forall s :: Lists(s, Table(i).entry_map) ==> StacksListed(s, Now(), i)
    {
      assert TableOk(i);
      if Table(i) != null {
        TableLists(Table(i).entry_map, SlotAt(i), Now(), i);
      }
    }

    ghost function AnalyzerOf(i: int): set<object>
      reads `size_entries
    {
      if Table(i) == null then {} else Table(i).leak_analyzer.Repr()
    }

    /** Slots below i have been tested, and found is what there was to report on them. */
    ghost predicate Tested(found: seq<seq<Report>>, i: nat)
      reads `size_entries, Tables(), call_stack_manager
    {
      |found| == i <= |size_entries| && forall j: nat :: j < i ==> IsReportOf(found[j], j)
    }

    /** Test slot i. */
    method TestNext(i: nat, ghost found: seq<seq<Report>>) returns (rs: seq<Report>)
      requires i < |size_entries| && Separate() && TablesOk() && Tested(found, i)
      requires SlotAgrees(SlotAt(i), Now(), i) && forall d :: SlotAt(i).tracked[d] < COUNT_LIMIT
      modifies AnalyzerOf(i)
      ensures TablesOk() && Tested(found + [rs], i + 1)
      ensures Analyzed(old(SlotAt(i)), SlotAt(i), i)
      ensures forall j {:trigger SlotAt(j)} :: 0 <= j < |size_entries| && j != i ==> SlotAt(j) == old(SlotAt(j))
    {
      rs := TestTable(i);
      assert AnalyzerOf(i) <= TableObjects(i);
      forall j: nat | j < |size_entries| && j != i
        ensures SlotAt(j) == old(SlotAt(j))
        ensures j < i ==> IsReportOf(found[j], j)
      {
        assert old(TableObjects(i)) !! old(TableObjects(j));
        assert j < i ==> old(IsReportOf(found[j], j));
      }
    }

    /** The second tier: analyze the counts by call stack of every table. */
    method TestTables() returns (reports: seq<Report>, ghost found: seq<seq<Report>>)
      requires |size_entries| == K_NUM_SIZE_ENTRIES && Separate() && TablesOk() && SlotsOk()
      requires |address_map| + |lost| < COUNT_LIMIT
      modifies Tables()
      ensures Separate() && TablesOk()
      ensures forall j {:trigger SlotAt(j)} :: 0 <= j < |size_entries| ==> Analyzed(old(SlotAt(j)), SlotAt(j), j)
      ensures InOrder(reports, found) && Tested(found, K_NUM_SIZE_ENTRIES)
    {
      reports, found := [], [];
      SlotsAgree();
      ghost var slots := Slots();
      var i := 0;
      while i < |size_entries|
        invariant 0 <= i <= |size_entries|
        invariant Separate() && TablesOk() && Tested(found, i)
        invariant forall j {:trigger SlotAt(j)} :: 0 <= j < |size_entries| ==>
          if j < i then Analyzed(slots[j], SlotAt(j), j) else SlotAt(j) == slots[j]
        invariant InOrder(reports, found)
      {
        AnalyzerWithin(i);
        SlotIsSmall(slots, i);
        var rs := TestNext(i, found);
        OneMorePart(reports, found, rs);
        reports := reports + rs;
        found := found + [rs];
        i := i + 1;
      }
    }

    lemma AnalyzerWithin(i: nat)
      requires i < |size_entries|
      ensures AnalyzerOf(i) <= Tables()
    {
      assert AnalyzerOf(i) <= TableObjects(i);
      forall o | o in TableObjects(i) ensures o in Tables() {}
    }

    lemma SlotIsSmall(slots: seq<Slot>, i: nat)
      requires i < |size_entries| == |slots| && SlotAt(i) == slots[i] && SlotAgrees(slots[i], Now(), i)
      requires |address_map| + |lost| < COUNT_LIMIT
      ensures SlotAgrees(SlotAt(i), Now(), i) && forall d :: SlotAt(i).tracked[d] < COUNT_LIMIT
    {
      forall d ensures SlotAt(i).tracked[d] < COUNT_LIMIT {
        CountsBounded(Now(), i, d);
      }
    }

    /** The first tier's outcome: every suspected size has a call stack table. */
    method GiveTables()
      requires Bookkeeping() && HistoriesOk()
      requires forall v :: v in size_leak_analyzer.suspected_leaks ==> IsSlotSize(v)
      modifies `size_entries, `num_stack_tables
      ensures Bookkeeping() && HistoriesOk() && forall o :: o in Tables() ==> o in old(Tables()) || fresh(o)
      ensures forall j :: old(Table(j)) != null ==> Table(j) == old(Table(j))
      ensures forall j :: 0 <= j < |size_entries| ==>
        (Table(j) != null <==>
          old(Table(j)) != null || SizeValue(4 * j) in size_leak_analyzer.suspected_leaks)
      ensures forall j {:trigger SlotAt(j)} :: 0 <= j < |size_entries| ==> SlotAt(j) == old(SlotAt(j))
    {
      hide SlotsOk;
      hide HistoriesOk;
      hide RecordsOk;
      hide TracesAgree;
      SlotsNow();
      ghost var slots := Slots();
      AddTables();
      SlotsKept(slots);
    }

    /** The second tier, on a detector whose counts are small. */
    method TestStacks() returns (reports: seq<Report>, ghost found: seq<seq<Report>>)
      requires Bookkeeping() && HistoriesOk() && |address_map| + |lost| < COUNT_LIMIT
      modifies `checks, Tables()
      ensures Bookkeeping() && HistoriesOk() && checks == old(checks) + [Now()]
      ensures forall j {:trigger SlotAt(j)} :: 0 <= j < |size_entries| ==> Analyzed(old(SlotAt(j)), SlotAt(j), j)
      ensures InOrder(reports, found) && Tested(found, K_NUM_SIZE_ENTRIES)
    {
      hide SlotsOk;
      hide HistoriesOk;
      hide TablesOk;
      hide RecordsOk;
      hide TracesAgree;
      hide Tested;
      hide Analyzed;
      TablesApart();
      SlotsNow();
      ghost var slots := Slots();
      reports, found := TestTables();
      checks := checks + [Now()];
      SlotsAfterCheck(slots, old(checks));
    }

    lemma SlotsKept(slots: seq<Slot>)
      requires |size_entries| == |slots|
      requires forall j :: 0 <= j < |slots| ==>
        SlotAgrees(slots[j], Now(), j) && StackHistory(slots[j].samples, checks, j)
      requires forall j {:trigger SlotAt(j)} :: 0 <= j < |slots| ==> SlotAt(j) == slots[j]
      ensures SlotsOk() && HistoriesOk()
    {
      forall j ensures SlotOk(j) && HistoryOk(j) {}
    }

    lemma SlotsAfterCheck(slots: seq<Slot>, before: seq<Outstanding>)
      requires |size_entries| == |slots| && checks == before + [Now()]
      requires forall j :: 0 <= j < |slots| ==>
        SlotAgrees(slots[j], Now(), j) && StackHistory(slots[j].samples, before, j)
      requires forall j {:trigger SlotAt(j)} :: 0 <= j < |slots| ==> Analyzed(slots[j], SlotAt(j), j)
      ensures SlotsOk() && HistoriesOk()
    {
      forall j ensures SlotOk(j) && HistoryOk(j) {
        if 0 <= j < |size_entries| {
          ExtendStackHistory(slots[j].samples, SlotAt(j).samples, before, Now(), j);
        }
      }
    }

    /** Run a check for leaks on the current counts.  The first tier analyzes the outstanding
        allocations by size, the suspected sizes get call stack tables, and the suspects of the
        second tier are reported, slot by slot. */
    method TestForLeaks() returns (reports: seq<Report>, ghost found: seq<seq<Report>>)
      requires Valid() && |address_map| + |lost| < COUNT_LIMIT
      modifies `size_entries, `num_stack_tables, `checks, size_leak_analyzer.Repr(), Tables()
      ensures Valid() && checks == old(checks) + [Now()]
      ensures size_leak_analyzer.samples == old(size_leak_analyzer.samples) + [SizeSample(Now())]
      ensures forall o :: o in Tables() ==> o in old(Tables()) || fresh(o)
      ensures forall j :: old(Table(j)) != null ==> Table(j) == old(Table(j))
      ensures forall j :: 0 <= j < |size_entries| ==>
        (Table(j) != null <==>
          old(Table(j)) != null || SizeValue(4 * j) in size_leak_analyzer.suspected_leaks)
      ensures forall j {:trigger SlotAt(j)} :: 0 <= j < |size_entries| ==> Analyzed(old(SlotAt(j)), SlotAt(j), j)
      ensures InOrder(reports, found) && Tested(found, K_NUM_SIZE_ENTRIES)
    {
      hide SlotsOk;
      hide HistoriesOk;
      hide TablesOk;
      hide RecordsOk;
      hide TracesAgree;
      hide AnalyzerOk;
      AnalyzeSizes();
      TablesApart();
      reports, found := CheckStacks();
    }

    /** The second tier, with tables for what the first one suspects. */
    method CheckStacks() returns (reports: seq<Report>, ghost found: seq<seq<Report>>)
      requires Bookkeeping() && HistoriesOk() && |address_map| + |lost| < COUNT_LIMIT
      requires forall v :: v in size_leak_analyzer.suspected_leaks ==> IsSlotSize(v)
      modifies `size_entries, `num_stack_tables, `checks, Tables()
      ensures Bookkeeping() && HistoriesOk() && checks == old(checks) + [Now()]
      ensures forall o :: o in Tables() ==> o in old(Tables()) || fresh(o)
      ensures forall j :: old(Table(j)) != null ==> Table(j) == old(Table(j))
      ensures forall j :: 0 <= j < |size_entries| ==>
        (Table(j) != null <==>
          old(Table(j)) != null || SizeValue(4 * j) in size_leak_analyzer.suspected_leaks)
      ensures forall j {:trigger SlotAt(j)} :: 0 <= j < |size_entries| ==> Analyzed(old(SlotAt(j)), SlotAt(j), j)
      ensures InOrder(reports, found) && Tested(found, K_NUM_SIZE_ENTRIES)
    {
      hide SlotsOk;
      hide HistoriesOk;
      hide TablesOk;
      hide RecordsOk;
      hide TracesAgree;
      GiveTables();
      TablesApart();
      reports, found := TestStacks();
    }

    // ---------- what a suspicion means ----------

    /** The number of outstanding allocations of a suspected size has risen from check to check for
        as long as the threshold says. */
    lemma SuspectedSizesRose(i: nat)
      requires Valid() && i < K_NUM_SIZE_ENTRIES && SizeValue(4 * i) in size_leak_analyzer.suspected_leaks
      requires size_suspicion_threshold >= 1 && |checks| < TWO_32
      ensures SizeKeptRising(checks, i, size_suspicion_threshold)
    {
      size_leak_analyzer.ReportedValuesGrow(SizeValue(4 * i));
      SizeGrowth(size_leak_analyzer.samples, checks, i, size_suspicion_threshold);
    }

    /** The number of outstanding allocations of a slot with a call stack suspected there has risen
        over as many checks, not counting those at which the table was empty; and from check to
        check exactly if there was no such check among them. */
    lemma SuspectedStacksRose(i: nat, c: nat)
      requires Valid() && Table(i) != null && CallStackValue(c) in Table(i).leak_analyzer.suspected_leaks
      requires call_stack_suspicion_threshold >= 1 && |checks| < TWO_32
      ensures StackKeptRising(TestedChecks(checks, i), i, c, call_stack_suspicion_threshold)
      ensures StackKeptRising(checks, i, c, call_stack_suspicion_threshold)
        <==> forall k :: |checks| - call_stack_suspicion_threshold <= k < |checks| ==> NotSkipped(checks, i, k)
    {
      assert TableOk(i) && HistoryOk(i);
      FewerTested(checks, i);
      Table(i).leak_analyzer.ReportedValuesGrow(CallStackValue(c));
      StackGrowth(SlotAt(i).samples, checks, i, c, call_stack_suspicion_threshold);
      CheckToCheck(checks, i, c, call_stack_suspicion_threshold);
    }

    /** What each tier suspects, said of its samples alone: exactly the values that stood out at as
        many of the last checks as the threshold says. */
    lemma SuspectsStoodOut(v: Value, i: nat)
      requires Valid() && |checks| < TWO_32
      ensures size_suspicion_threshold >= 1 ==>
        (v in size_leak_analyzer.suspected_leaks <==>
          StoodOutFor(size_leak_analyzer.samples, 16, v, size_suspicion_threshold))
      ensures Table(i) != null && call_stack_suspicion_threshold >= 1 ==>
        (v in Table(i).leak_analyzer.suspected_leaks <==>
          StoodOutFor(Table(i).leak_analyzer.samples, 16, v, call_stack_suspicion_threshold))
    {
      hide StoodOutFor;
      if size_suspicion_threshold >= 1 {
        ReportedStoodOut(size_leak_analyzer, v);
      }
      if Table(i) != null && call_stack_suspicion_threshold >= 1 {
        assert TableOk(i) && HistoryOk(i);
        FewerTested(checks, i);
        ReportedStoodOut(Table(i).leak_analyzer, v);
      }
    }

    /** A report, right after the check that made it, is about a call stack whose outstanding
        allocations of this size have risen over the last checks of the slot's table, this one
        included. */
    lemma ReportedStacksRose(rs: seq<Report>, i: nat, k: nat) returns (c: nat)
      requires Valid() && checks != [] && checks[|checks| - 1] == Now()
      requires i < K_NUM_SIZE_ENTRIES && IsReportOf(rs, i) && k < |rs|
      requires call_stack_suspicion_threshold >= 1 && |checks| < TWO_32
      ensures c in call_stack_manager.call_stacks
      ensures rs[k].alloc_size_bytes == 4 * i
      ensures Relocated(mapping_addr, mapping_size, call_stack_manager.call_stacks[c].stack, rs[k].call_stack)
      ensures NotSkipped(checks, i, |checks| - 1)
      ensures StackKeptRising(TestedChecks(checks, i), i, c, call_stack_suspicion_threshold)
    {
      assert SlotOk(i) && TableOk(i) && HistoryOk(i);
      TableIsListed(i);
      var v := Table(i).leak_analyzer.suspected_leaks[k];
      assert v in Table(i).leak_analyzer.suspected_leaks;
      SuspectIsListed(i, v);
      c := v.call_stack;
      SuspectedStacksRose(i, c);
    }

    /** What a table suspects right after it was tested is in the table. */
    lemma SuspectIsListed(i: nat, v: Value)
      requires Valid() && checks != [] && checks[|checks| - 1] == Now() && HasStacks(Now(), i)
      requires i < K_NUM_SIZE_ENTRIES && Table(i) != null && v in Table(i).leak_analyzer.suspected_leaks
      ensures v.CallStackValue? && v.call_stack in call_stack_manager.call_stacks
    {
      hide StackHistory;
      hide SizeHistory;
      hide TracesAgree;
      hide HasStacks;
      assert SlotOk(i) && TableOk(i) && HistoryOk(i);
      SuspectIsOutstanding(Table(i).leak_analyzer, checks, i, v);
      assert SlotAt(i).tracked[v.call_stack] > 0;
    }

    /** The count of a call stack object in the table of slot i is the number of outstanding
        allocations of the slot that were recorded with the contents of the object; and contents
        that any was recorded with have an object in the table. */
    lemma CountsAreByContents(i: nat, c: nat, stack: seq<nat>)
      requires Valid() && i < K_NUM_SIZE_ENTRIES && Table(i) != null && c in call_stack_manager.call_stacks
      ensures var n := traces.WithContents(i, call_stack_manager.call_stacks[c].stack);
        (c in Table(i).entry_map <==> n > 0) && (n > 0 ==> Table(i).entry_map[c] == n)
      ensures traces.WithContents(i, stack) > 0 ==>
        exists d ::
          d in Table(i).entry_map && d in call_stack_manager.call_stacks
          && call_stack_manager.call_stacks[d].stack == stack
    {
      assert SlotOk(i) && TableOk(i);
      var objects, hashOf := call_stack_manager.call_stacks, call_stack_manager.hashOf;
      CountByContents(Now(), traces, objects, hashOf, i, c);
      if traces.WithContents(i, stack) > 0 {
        ContentsHaveObject(Now(), traces, objects, i, stack);
        var d :| d in objects && objects[d].stack == stack;
        CountByContents(Now(), traces, objects, hashOf, i, d);
        assert d in Table(i).entry_map;
      }
    }
  }
}
