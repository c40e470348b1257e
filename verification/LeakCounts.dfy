/**
 The bookkeeping of the leak detector (leak_detector_impl.cc) as values: size slots, the
 allocations that are outstanding, and the counts that have to agree with them.
 */
module LeakCounts {
  import opened IntSets
  import opened LeakAnalyzers
  import opened CallStackTables

  const K_NUM_SIZE_ENTRIES := 2048

  /** An allocation: its size, and the address of its call stack, or 0. */
  datatype AllocInfo = AllocInfo(size: nat, call_stack: nat)

  function SizeToIndex(size: nat): int {
    var result := ToInt32(size / 4);
    if result < K_NUM_SIZE_ENTRIES then result else 0
  }

  function IndexToSize(index: nat): nat {
    4 * index
  }

  /** Every slot's own size maps back to the slot. */
  lemma SizeIndexRoundTrip(i: nat)
    requires i < K_NUM_SIZE_ENTRIES
    ensures SizeToIndex(IndexToSize(i)) == i
  {
    ToInt32Exact(i);
  }

  /** size / 4, cut to 32 bits, is not negative as an int. */
  predicate HasIndex(size: nat) {
    size / 4 % TWO_32 <= INT_MAX
  }

  /** That is exactly when the index is in range. */
  lemma IndexInRange(size: nat)
    ensures 0 <= SizeToIndex(size) < K_NUM_SIZE_ENTRIES <==> HasIndex(size)
    ensures size < 4 * (INT_MAX + 1) ==> HasIndex(size)
  {
  }

  /** Where an allocation is counted: below 8192 in the slot of the four sizes it is one of, and
      from there on in slot 0, but that from 2^33 on its quarter is cut off at 32 bits first. */
  predicate BelongsTo(size: nat, i: int) {
    if size < 8192 then 4 * i <= size < 4 * i + 4
    else if size < 0x2_0000_0000 then i == 0
    else
      var quarter := size / 4 % 0x1_0000_0000;
      if quarter < 2048 then i == quarter else i == 0
  }

  /** That is the index, and the only slot. */
  lemma IndexIsSlot(size: nat, i: int)
    requires HasIndex(size)
    ensures SizeToIndex(size) == i <==> BelongsTo(size, i)
  {
  }

  /** The table's size and the sizes of its slots, in numbers. */
  lemma SlotsInNumbers(i: nat)
    ensures K_NUM_SIZE_ENTRIES == 2048 && K_RANKED_LIST_SIZE == 16 && IndexToSize(i) == 4 * i
  {
  }

  /** A size without an index: 2^33. */
  lemma NegativeIndex()
    ensures SizeToIndex(0x2_0000_0000) == -INT_MAX - 1 && !HasIndex(0x2_0000_0000)
  {
  }

  /** The live addresses whose allocations belong to slot i. */
  ghost function LiveIn(m: map<nat, AllocInfo>, i: int): set<nat> {
    set a | a in m && SizeToIndex(m[a].size) == i
  }

  /** ... and carry call stack c. */
  ghost function LiveWith(m: map<nat, AllocInfo>, i: int, c: nat): set<nat> {
    set a | a in m && SizeToIndex(m[a].size) == i && m[a].call_stack == c
  }

  function LostIn(lost: seq<AllocInfo>, i: int): nat {
    if lost == [] then 0
    else LostIn(lost[..|lost| - 1], i) + if SizeToIndex(lost[|lost| - 1].size) == i then 1 else 0
  }

  function LostWith(lost: seq<AllocInfo>, i: int, c: nat): nat {
    if lost == [] then 0
    else
      LostWith(lost[..|lost| - 1], i, c)
      + if SizeToIndex(lost[|lost| - 1].size) == i && lost[|lost| - 1].call_stack == c then 1 else 0
  }

  /** The outstanding allocations: the live ones by address, and those that were recorded at an
      address that was live already, whose record is lost. */
  datatype Outstanding = Outstanding(live: map<nat, AllocInfo>, lost: seq<AllocInfo>) {
    ghost function InSlot(i: int): nat {
      |LiveIn(live, i)| + LostIn(lost, i)
    }

    ghost function WithStack(i: int, c: nat): nat {
      |LiveWith(live, i, c)| + LostWith(lost, i, c)
    }

    /** address_map_.insert keeps the record of an address that is already there. */
    ghost function Alloc(a: nat, info: AllocInfo): Outstanding {
      if a in live then Outstanding(live, lost + [info]) else Outstanding(live[a := info], lost)
    }

    ghost function Free(a: nat): Outstanding {
      Outstanding(live - {a}, lost)
    }
  }

  lemma AllocInSlot(o: Outstanding, a: nat, info: AllocInfo, i: int)
    ensures o.Alloc(a, info).InSlot(i)
      == o.InSlot(i) + if SizeToIndex(info.size) == i then 1 else 0
  {
    if a in o.live {
      assert (o.lost + [info])[..|o.lost|] == o.lost;
    } else {
      var m := o.live[a := info];
      if SizeToIndex(info.size) == i {
        assert LiveIn(m, i) == LiveIn(o.live, i) + {a};
      } else {
        assert LiveIn(m, i) == LiveIn(o.live, i);
      }
    }
  }

  lemma AllocWithStack(o: Outstanding, a: nat, info: AllocInfo, i: int, c: nat)
    ensures o.Alloc(a, info).WithStack(i, c)
      == o.WithStack(i, c) + if SizeToIndex(info.size) == i && info.call_stack == c then 1 else 0
  {
    if a in o.live {
      assert (o.lost + [info])[..|o.lost|] == o.lost;
    } else {
      var m := o.live[a := info];
      if SizeToIndex(info.size) == i && info.call_stack == c {
        assert LiveWith(m, i, c) == LiveWith(o.live, i, c) + {a};
      } else {
        assert LiveWith(m, i, c) == LiveWith(o.live, i, c);
      }
    }
  }

  lemma FreeInSlot(o: Outstanding, a: nat, i: int)
    requires a in o.live
    ensures o.Free(a).InSlot(i)
      == o.InSlot(i) - if SizeToIndex(o.live[a].size) == i then 1 else 0
  {
    var m := o.live - {a};
    if SizeToIndex(o.live[a].size) == i {
      assert LiveIn(o.live, i) == LiveIn(m, i) + {a};
    } else {
      assert LiveIn(m, i) == LiveIn(o.live, i);
    }
  }

  lemma FreeWithStack(o: Outstanding, a: nat, i: int, c: nat)
    requires a in o.live
    ensures o.Free(a).WithStack(i, c)
      == o.WithStack(i, c) - if SizeToIndex(o.live[a].size) == i && o.live[a].call_stack == c then 1 else 0
  {
    var m := o.live - {a};
    if SizeToIndex(o.live[a].size) == i && o.live[a].call_stack == c {
      assert LiveWith(o.live, i, c) == LiveWith(m, i, c) + {a};
    } else {
      assert LiveWith(m, i, c) == LiveWith(o.live, i, c);
    }
  }

  lemma {:induction false} LostBounded(lost: seq<AllocInfo>, i: int, c: nat)
    ensures LostWith(lost, i, c) <= LostIn(lost, i) <= |lost|
  {
    if lost != [] {
      LostBounded(lost[..|lost| - 1], i, c);
    }
  }

  /** No count exceeds the number of outstanding allocations. */
  lemma CountsBounded(o: Outstanding, i: int, c: nat)
    ensures o.WithStack(i, c) <= o.InSlot(i) <= |o.live| + |o.lost|
  {
    SubsetSize(LiveWith(o.live, i, c), LiveIn(o.live, i));
    SubsetSize(LiveIn(o.live, i), o.live.Keys);
    LostBounded(o.lost, i, c);
  }

  lemma LiveIsCounted(o: Outstanding, a: nat)
    requires a in o.live
    ensures o.WithStack(SizeToIndex(o.live[a].size), o.live[a].call_stack) >= 1
  {
    var s := LiveWith(o.live, SizeToIndex(o.live[a].size), o.live[a].call_stack);
    assert a in s;
    SubsetSize({a}, s);
  }

  // ---------- total sizes ----------

  ghost function Total(m: map<nat, AllocInfo>): int {
    if m == map[] then 0
    else var a :| a in m; m[a].size + Total(m - {a})
  }

  function LostTotal(lost: seq<AllocInfo>): int {
    if lost == [] then 0 else LostTotal(lost[..|lost| - 1]) + lost[|lost| - 1].size
  }

  /** The total does not depend on the order of summation. */
  lemma {:induction false} TotalRemove(m: map<nat, AllocInfo>, a: nat)
    requires a in m
    ensures Total(m) == m[a].size + Total(m - {a})
  {
    var b :| b in m && Total(m) == m[b].size + Total(m - {b});
    if a != b {
      TotalRemove(m - {b}, a);
      TotalRemove(m - {a}, b);
      assert m - {a} - {b} == m - {b} - {a};
    }
  }

  ghost function Bytes(o: Outstanding): int {
    Total(o.live) + LostTotal(o.lost)
  }

  lemma AllocBytes(o: Outstanding, a: nat, info: AllocInfo)
    ensures Bytes(o.Alloc(a, info)) == Bytes(o) + info.size
  {
    if a in o.live {
      var lost := o.lost + [info];
      assert lost[..|lost| - 1] == o.lost;
    } else {
      TotalRemove(o.live[a := info], a);
      assert o.live[a := info] - {a} == o.live;
    }
  }

  lemma FreeBytes(o: Outstanding, a: nat)
    requires a in o.live
    ensures Bytes(o.Free(a)) == Bytes(o) - o.live[a].size
  {
    TotalRemove(o.live, a);
  }

  // ---------- what the detector's counters have to agree with ----------

  /** The 32-bit counters of slot i, the call stacks its table tracks, and the samples that the
      table's analyzer has been given. */
  datatype Slot = Slot(allocs: uint32, frees: uint32, tracked: multiset<nat>, samples: seq<Sample>)

  /** Slot i's counters differ by its outstanding allocations, and its table tracks each call
      stack as often as an outstanding allocation of the slot carries it. */
  ghost predicate SlotAgrees(s: Slot, o: Outstanding, i: int) {
    && TotalsOk(s.allocs, s.frees, o.InSlot(i))
    && s.tracked[0] == 0
    && forall c :: c != 0 ==> s.tracked[c] == o.WithStack(i, c)
  }

  /** Slot i after an allocation with the given info. */
  function SlotAlloc(s: Slot, info: AllocInfo, i: int): Slot {
    if SizeToIndex(info.size) == i then
      Slot(Increment(s.allocs), s.frees,
           if info.call_stack == 0 then s.tracked else s.tracked + multiset{info.call_stack}, s.samples)
    else s
  }

  function SlotFree(s: Slot, info: AllocInfo, i: int): Slot {
    if SizeToIndex(info.size) == i then
      Slot(s.allocs, Increment(s.frees),
           if info.call_stack == 0 then s.tracked else s.tracked - multiset{info.call_stack}, s.samples)
    else s
  }

  /** n is one more than before, or as before, as a 32-bit number. */
  predicate OneMore(before: int, n: int, yes: bool) {
    n == (before + if yes then 1 else 0) % 0x1_0000_0000
  }

  lemma IncrementIsOneMore(n: uint32)
    ensures OneMore(n, Increment(n), true) && OneMore(n, n, false)
  {
  }

  /** From slot s to slot s', an allocation of the given size, with call stack c, has been counted
      exactly if it belongs to slot i. */
  ghost predicate AllocCounted(s: Slot, s': Slot, size: nat, c: nat, i: int) {
    && OneMore(s.allocs, s'.allocs, BelongsTo(size, i)) && s'.frees == s.frees && s'.samples == s.samples
    && s'.tracked == if c != 0 && BelongsTo(size, i) then s.tracked + multiset{c} else s.tracked
  }

  ghost predicate FreeCounted(s: Slot, s': Slot, size: nat, c: nat, i: int) {
    && OneMore(s.frees, s'.frees, BelongsTo(size, i)) && s'.allocs == s.allocs && s'.samples == s.samples
    && s'.tracked == if c != 0 && BelongsTo(size, i) then s.tracked - multiset{c} else s.tracked
  }

  lemma SlotAllocCounts(s: Slot, info: AllocInfo, i: int)
    requires HasIndex(info.size)
    ensures AllocCounted(s, SlotAlloc(s, info, i), info.size, info.call_stack, i)
  {
    IndexIsSlot(info.size, i);
    IncrementIsOneMore(s.allocs);
  }

  lemma SlotFreeCounts(s: Slot, info: AllocInfo, i: int)
    requires HasIndex(info.size)
    ensures FreeCounted(s, SlotFree(s, info, i), info.size, info.call_stack, i)
  {
    IndexIsSlot(info.size, i);
    IncrementIsOneMore(s.frees);
  }

  lemma SlotAllocAgrees(s: Slot, o: Outstanding, a: nat, info: AllocInfo, i: int)
    requires SlotAgrees(s, o, i)
    ensures SlotAgrees(SlotAlloc(s, info, i), o.Alloc(a, info), i)
  {
    AllocInSlot(o, a, info, i);
    CountAlloc(s.allocs, s.frees, o.InSlot(i));
    var s' := SlotAlloc(s, info, i);
    forall c | c != 0 ensures s'.tracked[c] == o.Alloc(a, info).WithStack(i, c) {
      AllocWithStack(o, a, info, i, c);
    }
  }

  lemma SlotFreeAgrees(s: Slot, o: Outstanding, a: nat, i: int)
    requires SlotAgrees(s, o, i) && a in o.live
    ensures SlotAgrees(SlotFree(s, o.live[a], i), o.Free(a), i)
  {
    FreeInSlot(o, a, i);
    CountFree(s.allocs, s.frees, o.InSlot(i));
    var s' := SlotFree(s, o.live[a], i);
    forall c | c != 0 ensures s'.tracked[c] == o.Free(a).WithStack(i, c) {
      FreeWithStack(o, a, i, c);
    }
  }

  /** With no record lost, the difference of a slot's 32-bit counters is the number of live
      addresses in the slot, and a stack's count is the number of live addresses in the slot
      that carry it. */
  lemma SlotCountsLive(s: Slot, o: Outstanding, i: int, c: nat)
    requires SlotAgrees(s, o, i)
    ensures (s.allocs - s.frees) % TWO_32 == |LiveIn(o.live, i)| % TWO_32
      <==> LostIn(o.lost, i) % TWO_32 == 0
    ensures c != 0 ==> (s.tracked[c] == |LiveWith(o.live, i, c)| <==> LostWith(o.lost, i, c) == 0)
  {
    TotalsModulo(s.allocs, s.frees, o.InSlot(i));
  }

  /** Recording a second allocation at a live address loses a record: one of size 4 at address 8,
      and another, are counted as two, with one live address. */
  lemma LostRecordCounts()
    ensures var info := AllocInfo(4, 0);
      var o := Outstanding(map[], []).Alloc(8, info).Alloc(8, info);
      o.InSlot(1) == 2 && LiveIn(o.live, 1) == {8}
  {
    var info := AllocInfo(4, 0);
    var o := Outstanding(map[8 := info], [info]);
    assert Outstanding(map[], []).Alloc(8, info).Alloc(8, info) == o;
    assert SizeToIndex(4) == 1;
    assert LiveIn(o.live, 1) == {8};
    assert LostIn(o.lost, 1) == LostIn([], 1) + 1;
  }

  /** The difference of the counters, passed on as an int, is the count of outstanding
      allocations while that is small. */
  lemma NetCount(allocs: uint32, frees: uint32, n: nat)
    requires TotalsOk(allocs, frees, n) && n < COUNT_LIMIT
    ensures ToInt32(allocs - frees) == n
  {
    TotalsModulo(allocs, frees, n);
  }

  // ---------- 64-bit byte totals ----------

  const TWO_64 := 0x1_0000_0000_0000_0000

  ghost predicate BytesDifferBy(taken: int, freed: int, start: int, n: int, k: int) {
    taken - freed == start + n + k * TWO_64
  }

  /** The 64-bit totals have moved apart by n since they differed by start. */
  ghost predicate BytesOk(taken: int, freed: int, start: int, n: int) {
    exists k :: BytesDifferBy(taken, freed, start, n, k)
  }

  function Add64(total: int, n: nat): int {
    (total + n) % TWO_64
  }

  lemma Add64InNumbers(total: int, n: nat)
    ensures Add64(total, n) == (total + n) % 0x1_0000_0000_0000_0000
  {
  }

  lemma CountAllocBytes(taken: int, freed: int, start: int, n: int, size: nat)
    requires BytesOk(taken, freed, start, n)
    ensures BytesOk(Add64(taken, size), freed, start, n + size)
  {
    var k :| BytesDifferBy(taken, freed, start, n, k);
    assert BytesDifferBy(Add64(taken, size), freed, start, n + size, k - (taken + size) / TWO_64);
  }

  lemma CountFreeBytes(taken: int, freed: int, start: int, n: int, size: nat)
    requires BytesOk(taken, freed, start, n)
    ensures BytesOk(taken, Add64(freed, size), start, n - size)
  {
    var k :| BytesDifferBy(taken, freed, start, n, k);
    assert BytesDifferBy(taken, Add64(freed, size), start, n - size, k + (freed + size) / TWO_64);
  }

  ghost predicate AllIndexed(o: Outstanding) {
    && (forall a :: a in o.live ==> HasIndex(o.live[a].size))
    && (forall k :: 0 <= k < |o.lost| ==> HasIndex(o.lost[k].size))
  }

  /** All recorded sizes have an index, and the byte totals agree with the outstanding allocations. */
  ghost predicate RecordsAgree(o: Outstanding, taken: int, freed: int, start: int) {
    && AllIndexed(o)
    && BytesOk(taken, freed, start, Bytes(o))
  }

  lemma AllocRecords(o: Outstanding, taken: int, freed: int, start: int, a: nat, info: AllocInfo)
    requires RecordsAgree(o, taken, freed, start) && HasIndex(info.size)
    ensures RecordsAgree(o.Alloc(a, info), Add64(taken, info.size), freed, start)
  {
    CountAllocBytes(taken, freed, start, Bytes(o), info.size);
    AllocBytes(o, a, info);
  }

  lemma FreeRecords(o: Outstanding, taken: int, freed: int, start: int, a: nat)
    requires RecordsAgree(o, taken, freed, start) && a in o.live
    ensures RecordsAgree(o.Free(a), taken, Add64(freed, o.live[a].size), start)
  {
    CountFreeBytes(taken, freed, start, Bytes(o), o.live[a].size);
    FreeBytes(o, a);
  }
}
