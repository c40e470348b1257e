/**
 Runs of the leak detector: any interleaving of allocations, frees and checks for leaks, on a
 detector that has just been made (leak_detector_impl.cc:94-259).
 */
module LeakRuns {
  import opened RankedLists
  import opened CallStackManagers
  import opened CallStackTables
  import opened LeakAnalyzers
  import opened LeakCounts
  import opened LeakTraces
  import opened LeakHistories
  import opened LeakDetectors

  datatype Event = Alloc(ptr: nat, size: nat, stack: seq<nat>) | Free(ptr: nat) | Check

  /** What is passed when an allocation is recorded. */
  datatype Call = Call(size: nat, stack: seq<nat>)

  /** The outstanding allocations by what was passed, with no detector in sight: the live ones by
      address, and those recorded at an address that was live already. */
  datatype Recorded = Recorded(live: map<nat, Call>, lost: seq<Call>) {
    ghost function After(e: Event): Recorded {
      match e
      case Alloc(ptr, size, stack) =>
        if ptr in live then Recorded(live, lost + [Call(size, stack)])
        else Recorded(live[ptr := Call(size, stack)], lost)
      case Free(ptr) => Recorded(live - {ptr}, lost)
      case Check => this
    }

    /** The number of outstanding allocations whose size belongs to slot i. */
    ghost function InSlot(i: int): nat {
      |set a | a in live && BelongsTo(live[a].size, i)| + CallsIn(lost, i)
    }
  }

  function CallsIn(calls: seq<Call>, i: int): nat {
    if calls == [] then 0
    else CallsIn(calls[..|calls| - 1], i) + if BelongsTo(calls[|calls| - 1].size, i) then 1 else 0
  }

  ghost function RecordedAfter(events: seq<Event>): Recorded {
    if events == [] then Recorded(map[], [])
    else RecordedAfter(events[..|events| - 1]).After(events[|events| - 1])
  }

  /** What is outstanding at each check. */
  ghost function RecordedAtChecks(events: seq<Event>): seq<Recorded> {
    if events == [] then []
    else
      var front := events[..|events| - 1];
      RecordedAtChecks(front) + if events[|events| - 1].Check? then [RecordedAfter(front)] else []
  }

  lemma {:induction false} FewOutstanding(events: seq<Event>)
    ensures |RecordedAfter(events).live| + |RecordedAfter(events).lost| <= |events|
  {
    if events != [] {
      var front, e := events[..|events| - 1], events[|events| - 1];
      FewOutstanding(front);
      var r := RecordedAfter(front);
      if e.Free? {
        FreeShrinks(r.live, e.ptr);
      }
    }
  }

  lemma FreeShrinks(m: map<nat, Call>, ptr: nat)
    ensures |m - {ptr}| <= |m|
  {
    assert (m - {ptr}).Keys == m.Keys - {ptr};
    assert |m - {ptr}| == |(m - {ptr}).Keys| && |m| == |m.Keys|;
  }

  // ---------- the detector's records ----------

  ghost function CallOf(t: Trace): Call {
    Call(t.size, t.stack)
  }

  ghost function RecordedOf(ts: Traces): Recorded {
    Recorded(map a | a in ts.live :: CallOf(ts.live[a]),
             seq(|ts.lost|, k requires 0 <= k < |ts.lost| => CallOf(ts.lost[k])))
  }

  /** o has the addresses and sizes of r, which all have an index. */
  ghost predicate SameSizes(o: Outstanding, r: Recorded) {
    && o.live.Keys == r.live.Keys && |o.lost| == |r.lost|
    && (forall a :: a in o.live ==> o.live[a].size == r.live[a].size)
    && (forall k :: 0 <= k < |o.lost| ==> o.lost[k].size == r.lost[k].size)
    && AllIndexed(o)
  }

  lemma TracesHaveSizes(o: Outstanding, ts: Traces, objects: map<nat, CallStack>)
    requires TracesAgree(o, ts, objects) && AllIndexed(o)
    ensures SameSizes(o, RecordedOf(ts))
    ensures |o.live| == |RecordedOf(ts).live| && |o.lost| == |RecordedOf(ts).lost|
  {
    assert |o.live| == |o.live.Keys| && |RecordedOf(ts).live| == |RecordedOf(ts).live.Keys|;
  }

  lemma {:induction false} LostInSlot(lost: seq<AllocInfo>, calls: seq<Call>, i: int)
    requires |lost| == |calls|
    requires forall k :: 0 <= k < |lost| ==> lost[k].size == calls[k].size && HasIndex(lost[k].size)
    ensures LostIn(lost, i) == CallsIn(calls, i)
  {
    if lost != [] {
      var n := |lost| - 1;
      LostInSlot(lost[..n], calls[..n], i);
      assert HasIndex(lost[n].size);
      IndexIsSlot(lost[n].size, i);
    }
  }

  /** Counting the outstanding allocations of a slot needs no more than their sizes. */
  lemma InSlotBySizes(o: Outstanding, r: Recorded, i: int)
    requires SameSizes(o, r)
    ensures o.InSlot(i) == r.InSlot(i)
  {
    LostInSlot(o.lost, r.lost, i);
    forall a | a in o.live ensures SizeToIndex(o.live[a].size) == i <==> BelongsTo(r.live[a].size, i) {
      IndexIsSlot(o.live[a].size, i);
    }
    assert LiveIn(o.live, i) == set a | a in r.live && BelongsTo(r.live[a].size, i);
  }

  ghost predicate ChecksMatch(checks: seq<Outstanding>, recorded: seq<Recorded>) {
    |checks| == |recorded| && forall k :: 0 <= k < |checks| ==> SameSizes(checks[k], recorded[k])
  }

  // ---------- runs ----------

  lemma AllocRecorded(ts: Traces, ptr: nat, t: Trace)
    ensures RecordedOf(ts.Alloc(ptr, t)) == RecordedOf(ts).After(Alloc(ptr, t.size, t.stack))
  {
  }

  lemma FreeRecorded(ts: Traces, ptr: nat)
    ensures RecordedOf(ts.Free(ptr)) == RecordedOf(ts).After(Free(ptr))
    ensures ptr !in ts.live ==> RecordedOf(ts).After(Free(ptr)) == RecordedOf(ts)
  {
  }

  /** One event, on a detector. */
  method Apply(d: LeakDetector, e: Event)
    requires d.Valid() && |d.address_map| + |d.lost| < COUNT_LIMIT && (e.Alloc? ==> HasIndex(e.size))
    modifies d, d.call_stack_manager, d.size_leak_analyzer.Repr(), d.Tables()
    ensures d.Valid()
    ensures forall o :: o in d.Tables() ==> o in old(d.Tables()) || fresh(o)
    ensures RecordedOf(d.traces) == old(RecordedOf(d.traces)).After(e)
    ensures d.checks == old(d.checks) + if e.Check? then [d.Now()] else []
  {
    hide LeakDetector.Valid;
    match e
    case Alloc(ptr, size, stack) =>
      ApplyAlloc(d, ptr, size, stack);
    case Free(ptr) =>
      ApplyFree(d, ptr);
    case Check =>
      var reports, found := d.TestForLeaks();
  }

  method ApplyAlloc(d: LeakDetector, ptr: nat, size: nat, stack: seq<nat>)
    requires d.Valid() && |d.address_map| + |d.lost| < COUNT_LIMIT && HasIndex(size)
    modifies d, d.call_stack_manager, d.Tables()
    ensures d.Valid() && d.checks == old(d.checks)
    ensures forall o :: o in d.Tables() ==> o in old(d.Tables())
    ensures RecordedOf(d.traces) == old(RecordedOf(d.traces)).After(Alloc(ptr, size, stack))
  {
    hide LeakDetector.Valid;
    d.ValidMeans();
    d.TablesWithin(ptr, size);
    ghost var c := d.RecordAlloc(ptr, size, stack);
    d.ValidMeans();
    AllocRecorded(old(d.traces), ptr, Trace(size, stack, c != 0));
    forall o | o in d.Tables() ensures o in old(d.Tables()) {
      var j :| 0 <= j < |d.size_entries| && o in d.TableObjects(j);
      assert d.Table(j) == old(d.Table(j)) && o in old(d.TableObjects(j));
    }
  }

  method ApplyFree(d: LeakDetector, ptr: nat)
    requires d.Valid()
    modifies d, d.Tables()
    ensures d.Valid() && d.checks == old(d.checks)
    ensures forall o :: o in d.Tables() ==> o in old(d.Tables())
    ensures RecordedOf(d.traces) == old(RecordedOf(d.traces)).After(Free(ptr))
  {
    hide LeakDetector.Valid;
    d.ValidMeans();
    d.TablesWithin(ptr, 0);
    d.RecordFree(ptr);
    d.ValidMeans();
    FreeRecorded(old(d.traces), ptr);
    forall o | o in d.Tables() ensures o in old(d.Tables()) {
      var j :| 0 <= j < |d.size_entries| && o in d.TableObjects(j);
      assert d.Table(j) == old(d.Table(j)) && o in old(d.TableObjects(j));
    }
  }

  lemma NoEvents()
    ensures RecordedOf(Traces(map[], [])) == RecordedAfter([]) && ChecksMatch([], RecordedAtChecks([]))
  {
  }

  lemma BeforeEvent(d: LeakDetector, events: seq<Event>, k: nat)
    requires k < |events| < COUNT_LIMIT && d.Valid() && RecordedOf(d.traces) == RecordedAfter(events[..k])
    ensures |d.address_map| + |d.lost| < COUNT_LIMIT
  {
    hide LeakDetector.Valid;
    FewOutstanding(events[..k]);
    d.ValidMeans();
    TracesHaveSizes(d.Now(), d.traces, d.call_stack_manager.call_stacks);
  }

  lemma AfterEvent(d: LeakDetector, events: seq<Event>, k: nat, checks: seq<Outstanding>)
    requires k < |events| && d.Valid() && RecordedOf(d.traces) == RecordedAfter(events[..k]).After(events[k])
    requires ChecksMatch(checks, RecordedAtChecks(events[..k]))
    requires d.checks == checks + if events[k].Check? then [d.Now()] else []
    ensures RecordedOf(d.traces) == RecordedAfter(events[..k + 1])
    ensures ChecksMatch(d.checks, RecordedAtChecks(events[..k + 1]))
  {
    hide LeakDetector.Valid;
    d.ValidMeans();
    TracesHaveSizes(d.Now(), d.traces, d.call_stack_manager.call_stacks);
    assert events[..k + 1][..k] == events[..k];
  }

  /** Any events in any order, on a new detector: it stays valid, its records are those of the
      events, and its history is what was outstanding at each check. */
  method Run(events: seq<Event>, mapping_addr: nat, mapping_size: nat, size_suspicion_threshold: nat,
             call_stack_suspicion_threshold: nat, hashOf: seq<nat> -> nat) returns (d: LeakDetector)
    requires |events| < COUNT_LIMIT
    requires forall k :: 0 <= k < |events| && events[k].Alloc? ==> HasIndex(events[k].size)
    ensures fresh(d) && d.Valid()
    ensures d.size_suspicion_threshold == size_suspicion_threshold
    ensures d.call_stack_suspicion_threshold == call_stack_suspicion_threshold
    ensures RecordedOf(d.traces) == RecordedAfter(events)
    ensures ChecksMatch(d.checks, RecordedAtChecks(events))
  {
    hide LeakDetector.Valid;
    hide ChecksMatch;
    hide RecordedOf;
    hide RecordedAfter;
    hide RecordedAtChecks;
    NoEvents();
    d := new LeakDetector(mapping_addr, mapping_size, size_suspicion_threshold, call_stack_suspicion_threshold, hashOf);
    var k := 0;
    while k < |events|
      invariant 0 <= k <= |events|
      invariant fresh(d.Core()) && forall o :: o in d.Tables() ==> fresh(o)
      invariant d.Valid()
      invariant RecordedOf(d.traces) == RecordedAfter(events[..k])
      invariant ChecksMatch(d.checks, RecordedAtChecks(events[..k]))
    {
      BeforeEvent(d, events, k);
      ghost var checks := d.checks;
      Apply(d, events[k]);
      AfterEvent(d, events, k, checks);
      k := k + 1;
    }
    assert events[..k] == events;
  }

  lemma TotalsAfter(d: LeakDetector, events: seq<Event>, i: nat)
    requires d.Valid() && i < K_NUM_SIZE_ENTRIES && RecordedOf(d.traces) == RecordedAfter(events)
    ensures |d.size_entries| == K_NUM_SIZE_ENTRIES
    ensures TotalsOk(d.size_entries[i].num_allocs, d.size_entries[i].num_frees, RecordedAfter(events).InSlot(i))
  {
    hide LeakDetector.Valid;
    hide LeakDetector.SlotsOk;
    hide TracesAgree;
    hide SameSizes;
    hide TotalsOk;
    d.ValidMeans();
    d.CountersAgree();
    TracesHaveSizes(d.Now(), d.traces, d.call_stack_manager.call_stacks);
    InSlotBySizes(d.Now(), RecordedAfter(events), i);
  }

  /** In a detector that has gone through these events, the counters of a slot differ by its
      outstanding allocations, modulo 2^32. */
  lemma CountersAfter(d: LeakDetector, events: seq<Event>, i: nat)
    requires d.Valid() && i < K_NUM_SIZE_ENTRIES && RecordedOf(d.traces) == RecordedAfter(events)
    ensures |d.size_entries| == K_NUM_SIZE_ENTRIES
    ensures (d.size_entries[i].num_allocs - d.size_entries[i].num_frees) % 0x1_0000_0000
      == RecordedAfter(events).InSlot(i) % 0x1_0000_0000
  {
    hide *;
    LimitsInNumbers();
    TotalsAfter(d, events, i);
    TotalsModulo(d.size_entries[i].num_allocs, d.size_entries[i].num_frees, RecordedAfter(events).InSlot(i));
  }

  /** And a suspected size has had ever more outstanding allocations at the last checks among
      the events. */
  lemma SuspectedSizesGrew(d: LeakDetector, events: seq<Event>, i: nat, k: int)
    requires d.Valid() && i < K_NUM_SIZE_ENTRIES && ChecksMatch(d.checks, RecordedAtChecks(events))
    requires SizeValue(4 * i) in d.size_leak_analyzer.suspected_leaks
    requires d.size_suspicion_threshold >= 1 && |d.checks| < TWO_32
    requires |d.checks| - d.size_suspicion_threshold <= k < |d.checks|
    ensures 0 < k && RecordedAtChecks(events)[k - 1].InSlot(i) < RecordedAtChecks(events)[k].InSlot(i)
  {
    d.SuspectedSizesRose(i);
    assert SizeRose(d.checks, i, k);
    InSlotBySizes(d.checks[k - 1], RecordedAtChecks(events)[k - 1], i);
    InSlotBySizes(d.checks[k], RecordedAtChecks(events)[k], i);
  }
}
