/**
 The compact address map (compact_address_map.cc, compact_address_map.h): a hash table of
 clusters, two radix levels below it, and a linked list of entries per 256-byte block.
 */
module CompactAddressMaps {
  import opened Options
  import opened AddressRadix
  import opened EntryLists
  import opened AddressLookup
  import opened AddressUpdates
  import opened AddressSnapshots
  import opened AddressRuns

  const K_ENTRY_BULK_ALLOC_COUNT := 64

  lemma BatchInNumbers()
    ensures K_ENTRY_BULK_ALLOC_COUNT == 64
  {
  }

  /** next links up the batch at p, and is else as before. */
  ghost predicate Chained(p: nat, before: map<nat, nat>, next: map<nat, nat>) {
    && (forall e :: e in before && e < p ==> e in next && next[e] == before[e])
    && (forall e :: p <= e < p + K_ENTRY_BULK_ALLOC_COUNT ==>
          e in next && next[e] == if e + 1 < p + K_ENTRY_BULK_ALLOC_COUNT then e + 1 else 0)
  }

  class CompactAddressMap {
    var cluster_hash_table: seq<nat>
    var cluster_id: map<nat, nat>            // Cluster::id
    var cluster_next: map<nat, nat>          // Cluster::next
    var subclusters: map<(nat, nat), nat>    // Cluster::subclusters[i]
    var pages: map<(nat, nat), nat>          // Subcluster::pages[i]
    var heads: map<Home, nat>                // Page::blocks[i], and free_entries_
    var entry_next: map<nat, nat>            // Entry::next
    var entries: map<nat, EntryData>         // the rest of Entry
    var num_entries: nat
    var stats_num_entries: nat
    var brk: nat                             // New returns pointers from here on
    ghost var state: Snapshot
    ghost var overwrites: nat                // the inserts at an address that was present
    ghost var shadowed: nat                  // the live entries that no lookup finds any more
    ghost var low: bool                      // all addresses so far were below 2^52

    /** The finite map that this is. */
    ghost function Contents(): map<nat, Info>
      reads `state
    {
      state.contents
    }

    /** The fields are those of state. */
    ghost predicate Matches()
      reads `state, `cluster_hash_table, `cluster_id, `cluster_next, `subclusters, `pages
      reads `heads, `entry_next, `entries, `brk
    {
      && cluster_hash_table == state.table && cluster_next == state.cluster_next
      && cluster_id == state.t.radix.ids && subclusters == state.t.radix.subclusters
      && pages == state.t.radix.pages && heads == state.heads
      && entry_next == state.entry_next && entries == state.t.entries && brk == state.t.brk
    }

    ghost predicate Sound()
      reads `state, `cluster_hash_table, `cluster_id, `cluster_next, `subclusters, `pages
      reads `heads, `entry_next, `entries, `brk
    {
      Matches() && Consistent(state)
    }

    /** stats_.num_entries counts the entries made, which are free or live; num_entries_ counts
        the live ones, and every overwrite as well. */
    ghost predicate CountsOk()
      reads `state, `num_entries, `stats_num_entries, `overwrites, `shadowed
    {
      && num_entries == |Contents()| + overwrites + shadowed
      && stats_num_entries == |state.home| == NumFree() + |Contents()| + shadowed
    }

    ghost function NumFree(): nat
      reads `state
    {
      if Free in state.t.lists then |state.t.lists[Free]| else 0
    }

    /** As long as all addresses are below 2^52, no bucket has two clusters with the same id
        and every live entry is found. */
    ghost predicate LowOk()
      reads `state, `shadowed, `low
    {
      low ==> shadowed == 0 && IdsUnique(state.t.radix.buckets, state.t.radix.ids)
    }

    ghost predicate Valid()
      reads this
    {
      Sound() && CountsOk() && LowOk()
    }

    constructor ()
      ensures Valid() && Contents() == map[] && num_entries == overwrites == shadowed == 0 && low
    {
      cluster_hash_table := seq(K_CLUSTER_HASH_TABLE_SIZE, i => 0);
      cluster_id, cluster_next, subclusters, pages := map[], map[], map[], map[];
      heads, entry_next, entries := map[Free := 0], map[], map[];
      num_entries, stats_num_entries, brk := 0, 0, 1;
      state, overwrites, shadowed, low := EmptySnapshot(), 0, 0, true;
    }

    /** CompactAddressMap::New: count new objects, zeroed. */
    method New(count: nat) returns (p: nat)
      requires 0 < count
      modifies `brk
      ensures p == old(brk) && brk == p + count
    {
      p := brk;
      brk := brk + count;
    }

    // ---------- from an address to its page ----------

    /** Walk one bucket.  The pointer's id is compared in full with the 32-bit ids. */
    method FindInBucket(addr: nat) returns (c: nat)
      requires Sound()
      ensures c == ClusterAt(state, addr)
    {
      var id := ClusterId(addr);
      var index := id % K_CLUSTER_HASH_TABLE_SIZE;
      c := cluster_hash_table[index];
      ghost var bucket, k := state.t.radix.buckets[index], 0;
      assert BucketOk(state.t.radix, index);
      while c != 0 && cluster_id[c] != id
        invariant k <= |bucket| && c == At(bucket, k)
        invariant FindCluster(bucket[k..], cluster_id, id) == ClusterAt(state, addr)
        decreases |bucket| - k
      {
        assert bucket[k..][1..] == bucket[k + 1..];
        c := cluster_next[c];
        k := k + 1;
      }
    }

    method GetCluster(addr: nat) returns (c: nat)
      requires Sound() && LowOk()
      modifies `brk, `cluster_hash_table, `cluster_next, `cluster_id, `subclusters
      modifies `state, `shadowed, `low
      ensures Sound() && LowOk()
      ensures c == ClusterAt(state, Low(addr)) != 0
      ensures Contents() == Unshadowed(old(Contents()), addr)
      ensures ListsKept()
      ensures shadowed == old(shadowed) + |old(Contents())| - |Contents()|
      ensures low == (old(low) && addr < ADDRESS_LIMIT)
    {
      LowDigits(addr);
      c := FindInBucket(addr);
      if c == 0 {
        c := AddCluster(addr);
      } else {
        ClusterOfSpec(state.t.radix, brk, addr);
      }
    }

    twostate predicate ListsKept()
      reads `state
    {
      state.home == old(state.home) && NumFree() == old(NumFree())
    }

    method AddCluster(addr: nat) returns (c: nat)
      requires Sound() && LowOk() && ClusterAt(state, addr) == 0
      modifies `brk, `cluster_hash_table, `cluster_next, `cluster_id, `subclusters
      modifies `state, `shadowed, `low
      ensures Sound() && LowOk()
      ensures c == ClusterAt(state, Low(addr)) != 0
      ensures Contents() == Unshadowed(old(Contents()), addr)
      ensures ListsKept()
      ensures shadowed == old(shadowed) + |old(Contents())| - |Contents()|
      ensures low == (old(low) && addr < ADDRESS_LIMIT)
    {
      NewClusterConsistent(state, brk, addr);
      KeepUnique(addr);
      UnshadowedIsSmaller(Contents(), addr);
      c := LinkCluster(addr);
    }

    method LinkCluster(addr: nat) returns (c: nat)
      requires Matches() && |state.table| == |state.t.radix.buckets| == K_CLUSTER_HASH_TABLE_SIZE
      requires |Unshadowed(Contents(), addr)| <= |Contents()|
      modifies `brk, `cluster_hash_table, `cluster_next, `cluster_id, `subclusters
      modifies `state, `shadowed, `low
      ensures Matches() && c == old(brk) && state == NewCluster(old(state), c, addr)
      ensures shadowed == old(shadowed) + |old(Contents())| - |Contents()|
      ensures low == (old(low) && addr < ADDRESS_LIMIT)
    {
      c := PushCluster(ClusterId(addr));
      Shadow(addr);
      state := NewCluster(state, c, addr);
    }

    /** c->id = id, which has 32 bits; c->next = cluster_hash_table_[index]; and so on. */
    method PushCluster(id: nat) returns (c: nat)
      requires |cluster_hash_table| == K_CLUSTER_HASH_TABLE_SIZE
      modifies `brk, `cluster_hash_table, `cluster_next, `cluster_id, `subclusters
      ensures c == old(brk) && brk == c + 1
      ensures cluster_id == old(cluster_id)[c := id % ID_LIMIT]
      ensures cluster_next == old(cluster_next)[c := old(cluster_hash_table)[id % K_CLUSTER_HASH_TABLE_SIZE]]
      ensures cluster_hash_table == old(cluster_hash_table)[id % K_CLUSTER_HASH_TABLE_SIZE := c]
      ensures subclusters == old(subclusters) + Zeros(c)
    {
      var index := id % K_CLUSTER_HASH_TABLE_SIZE;
      c := New(1);
      subclusters := subclusters + Zeros(c);
      cluster_id := cluster_id[c := id % ID_LIMIT];
      cluster_next := cluster_next[c := cluster_hash_table[index]];
      cluster_hash_table := cluster_hash_table[index := c];
    }

    /** The entries that a second cluster with the same id hides. */
    ghost method Shadow(addr: nat)
      requires |Unshadowed(Contents(), addr)| <= |Contents()|
      modifies `shadowed, `low
      ensures shadowed == old(shadowed) + |Contents()| - |Unshadowed(Contents(), addr)|
      ensures low == (old(low) && addr < ADDRESS_LIMIT)
    {
      shadowed := shadowed + (|Contents()| - |Unshadowed(Contents(), addr)|);
      low := low && addr < ADDRESS_LIMIT;
    }

    lemma KeepUnique(addr: nat)
      requires Sound() && LowOk() && ClusterAt(state, addr) == 0
      ensures low && addr < ADDRESS_LIMIT ==>
        var r := NewCluster(state, brk, addr).t.radix;
        IdsUnique(r.buckets, r.ids)
    {
      if low && addr < ADDRESS_LIMIT {
        LowDigits(addr);
        UniqueWithCluster(state.t.radix, brk, brk, addr);
      }
    }

    method GetSubcluster(cluster: nat, addr: nat) returns (s: nat)
      requires Sound() && cluster == ClusterAt(state, Low(addr)) != 0
      modifies `brk, `subclusters, `pages, `state
      ensures Sound()
      ensures s == SubclusterAt(state, Low(addr)) != 0
      ensures TablesChanged()
    {
      LowDigits(addr);
      SameDigits(addr, Low(addr));
      SlotsOnTheWay(state, Low(addr));
      var index := SubclusterIndex(addr);
      s := subclusters[(cluster, index)];
      if s == 0 {
        NewSubclusterConsistent(state, brk, Low(addr));
        s := LinkSubcluster(cluster, index);
      }
    }

    /** Only tables below the clusters changed. */
    twostate predicate TablesChanged()
      reads `state
    {
      && state.contents == old(state.contents) && ListsKept()
      && state.t.radix.buckets == old(state.t.radix.buckets) && state.t.radix.ids == old(state.t.radix.ids)
    }

    method LinkSubcluster(cluster: nat, index: nat) returns (s: nat)
      requires Matches()
      modifies `brk, `subclusters, `pages, `state
      ensures Matches() && s == old(brk) && state == NewSubcluster(old(state), cluster, index, s)
    {
      s := New(1);
      subclusters := subclusters[(cluster, index) := s];
      pages := pages + Zeros(s);
      state := NewSubcluster(state, cluster, index, s);
    }

    method GetPage(addr: nat) returns (p: nat)
      requires Sound() && LowOk()
      modifies `brk, `cluster_hash_table, `cluster_next, `cluster_id, `subclusters, `pages, `heads
      modifies `state, `shadowed, `low
      ensures Sound() && LowOk()
      ensures p == PageAt(state, Low(addr)) != 0
      ensures Contents() == Unshadowed(old(Contents()), addr)
      ensures ListsKept()
      ensures shadowed == old(shadowed) + |old(Contents())| - |Contents()|
      ensures low == (old(low) && addr < ADDRESS_LIMIT)
    {
      hide Consistent;
      var cluster := GetCluster(addr);
      p := PageInCluster(cluster, addr);
    }

    method PageInCluster(cluster: nat, addr: nat) returns (p: nat)
      requires Sound() && cluster == ClusterAt(state, Low(addr)) != 0
      modifies `brk, `subclusters, `pages, `heads, `state
      ensures Sound()
      ensures p == PageAt(state, Low(addr)) != 0
      ensures TablesChanged()
    {
      hide Consistent;
      var subcluster := GetSubcluster(cluster, addr);
      p := PageInSubcluster(subcluster, addr);
    }

    method PageInSubcluster(subcluster: nat, addr: nat) returns (p: nat)
      requires Sound() && subcluster == SubclusterAt(state, Low(addr)) != 0
      modifies `brk, `pages, `heads, `state
      ensures Sound()
      ensures p == PageAt(state, Low(addr)) != 0
      ensures TablesChanged()
    {
      LowDigits(addr);
      SameDigits(addr, Low(addr));
      SlotsOnTheWay(state, Low(addr));
      var index := PageIndex(addr);
      p := pages[(subcluster, index)];
      if p == 0 {
        NewPageConsistent(state, brk, Low(addr));
        p := LinkPage(subcluster, index);
      }
    }

    method LinkPage(subcluster: nat, index: nat) returns (p: nat)
      requires Matches()
      modifies `brk, `pages, `heads, `state
      ensures Matches() && p == old(brk) && state == NewPage(old(state), subcluster, index, p)
    {
      p := New(1);
      pages := pages[(subcluster, index) := p];
      heads := heads + NullBlocks(p);
      state := NewPage(state, subcluster, index, p);
    }

    // ---------- from a page to the entry ----------

    /** Walk the list of a block.  prev is the entry before, or NULL at the front. */
    method FindEntry(page: nat, addr: nat) returns (entry: nat, prev: nat, ghost k: nat)
      requires Sound() && page == PageAt(state, Low(addr)) != 0
      ensures Found(addr, page, entry, prev, k)
      ensures entry == 0 <==> Low(addr) !in Contents()
      ensures entry != 0 ==> entry in entries && entries[entry].offset == Offset(addr)
    {
      hide Consistent;
      LowDigits(addr);
      SameDigits(addr, Low(addr));
      ListAtOk(state, Low(addr));
      ghost var s := ListAt(state, Low(addr));
      entry, prev, k := heads[Block(page, BlockIndex(addr))], 0, 0;
      while entry != 0 && entries[entry].offset != Offset(addr)
        invariant k <= |s| && entry == At(s, k) && prev == (if k == 0 then 0 else s[k - 1])
        invariant 0 < k ==> prev != 0
        invariant forall i :: 0 <= i < k ==> entries[s[i]].offset != Offset(addr)
        decreases |s| - k
      {
        prev := entry;
        entry := entry_next[entry];
        k := k + 1;
      }
      if k < |s| {
        ListLookupAt(s, entries, k);
      } else {
        ListLookupNone(s, entries, Offset(addr));
      }
    }

    /** Overwrite entry k of the list of address x. */
    method Overwrite(entry: nat, size: nat, hash: Option<nat>, ghost x: nat, ghost k: nat)
      requires Sound() && PageAt(state, x) != 0 && k < |ListAt(state, x)| && entry == ListAt(state, x)[k]
      requires entry in entries && entries[entry].offset == Offset(x)
      modifies `entries, `state
      ensures Sound()
      ensures x in old(Contents()) && Contents() == old(Contents())[x := Info(size % 256, hash)]
      ensures TablesKept()
    {
      var offset := entries[entry].offset;
      StoredInfo(entries[entry], offset, size, hash);
      StoreAtConsistent(state, x, k, Store(entries[entry], offset, size, hash));
      StoreIn(entry, offset, size, hash, x);
    }

    /** entry->Store(...) */
    method StoreIn(entry: nat, offset: nat, size: nat, hash: Option<nat>, ghost x: nat)
      requires Matches() && entry in entries
      modifies `entries, `state
      ensures Matches()
      ensures state == StoreAt(old(state), x, entry, Store(old(entries)[entry], offset, size, hash))
    {
      var data := Store(entries[entry], offset, size, hash);
      entries := entries[entry := data];
      state := StoreAt(state, x, entry, data);
    }

    /** The radix tables did not change, nor did the number of entries. */
    twostate predicate TablesKept()
      reads `state
    {
      state.t.radix == old(state.t.radix) && |state.home| == old(|state.home|) && NumFree() == old(NumFree())
    }

    // ---------- a batch of entries ----------

    /** The free list is empty, and gets a new batch of entries. */
    method Refill(ghost x: nat)
      requires Sound() && Free in heads && heads[Free] == 0
      modifies `brk, `heads, `entry_next, `entries, `stats_num_entries, `state
      ensures Sound() && Free in heads && heads[Free] != 0
      ensures Contents() == old(Contents()) && PageAt(state, x) == old(PageAt(state, x))
      ensures state.t.radix.buckets == old(state.t.radix.buckets) && state.t.radix.ids == old(state.t.radix.ids)
      ensures stats_num_entries == old(stats_num_entries) + K_ENTRY_BULK_ALLOC_COUNT
      ensures |state.home| == |old(state.home)| + K_ENTRY_BULK_ALLOC_COUNT
      ensures NumFree() == old(NumFree()) + K_ENTRY_BULK_ALLOC_COUNT
    {
      ghost var was := state;
      FreeAtOk(was);
      var p := LinkBatch();
      NewBatchConsistent(was, p, K_ENTRY_BULK_ALLOC_COUNT, entry_next);
      BatchCounts(was, p, K_ENTRY_BULK_ALLOC_COUNT, entry_next);
      FreeAtOk(state);
      PageAtKept(was.t.radix, was.t.brk, brk, x);
    }

    method LinkBatch() returns (p: nat)
      requires Matches()
      modifies `brk, `heads, `entry_next, `entries, `stats_num_entries, `state
      ensures Matches() && p == old(brk)
      ensures state == NewBatch(old(state), p, K_ENTRY_BULK_ALLOC_COUNT, entry_next)
      ensures stats_num_entries == old(stats_num_entries) + K_ENTRY_BULK_ALLOC_COUNT
      ensures Chained(p, old(entry_next), entry_next)
    {
      p := NewEntryArray();
      state := NewBatch(state, p, K_ENTRY_BULK_ALLOC_COUNT, entry_next);
    }

    method NewEntryArray() returns (p: nat)
      modifies `brk, `heads, `entry_next, `entries, `stats_num_entries
      ensures p == old(brk) && brk == p + K_ENTRY_BULK_ALLOC_COUNT && heads == old(heads)[Free := p]
      ensures entries == old(entries) + NewEntries(p, K_ENTRY_BULK_ALLOC_COUNT)
      ensures stats_num_entries == old(stats_num_entries) + K_ENTRY_BULK_ALLOC_COUNT
      ensures Chained(p, old(entry_next), entry_next)
    {
      p := New(K_ENTRY_BULK_ALLOC_COUNT);
      entries := entries + NewEntries(p, K_ENTRY_BULK_ALLOC_COUNT);
      stats_num_entries := stats_num_entries + K_ENTRY_BULK_ALLOC_COUNT;
      ChainBatch(p);
      heads := heads[Free := p];
    }

    /** array[i].next = &array[i + 1], except that the last one is followed by NULL. */
    method ChainBatch(p: nat)
      modifies `entry_next
      ensures Chained(p, old(entry_next), entry_next)
    {
      var i := 0;
      while i < K_ENTRY_BULK_ALLOC_COUNT - 1
        invariant i <= K_ENTRY_BULK_ALLOC_COUNT - 1
        invariant forall e :: e in old(entry_next) && e < p ==> e in entry_next && entry_next[e] == old(entry_next)[e]
        invariant forall e :: p <= e < p + i ==> e in entry_next && entry_next[e] == e + 1
      {
        entry_next := entry_next[p + i := p + (i + 1)];
        i := i + 1;
      }
      entry_next := entry_next[p + (K_ENTRY_BULK_ALLOC_COUNT - 1) := 0];
    }

    // ---------- taking an entry and giving it back ----------

    /** Detach a free entry for address x. */
    method Create(page: nat, block: nat, offset: nat, size: nat, hash: Option<nat>, ghost x: nat)
      requires Sound() && Free in heads && heads[Free] != 0
      requires page == PageAt(state, x) != 0 && block == BlockIndex(x) && offset == Offset(x) && x !in Contents()
      modifies `heads, `entry_next, `entries, `state
      ensures Sound()
      ensures Contents() == old(Contents())[x := Info(size % 256, hash)]
      ensures state.t.radix == old(state.t.radix) && |state.home| == |old(state.home)|
      ensures 0 < old(NumFree()) && NumFree() == old(NumFree()) - 1
    {
      FreeAtOk(state);
      ListAtOk(state, x);
      StoredInfo(entries[heads[Free]], offset, size, hash);
      TakeForConsistent(state, x, Store(entries[heads[Free]], offset, size, hash));
      TakeCounts(state, x, HomeOf(state.t, x), Store(entries[heads[Free]], offset, size, hash));
      Take(Block(page, block), offset, size, hash, x);
    }

    /** entry = free_entries_; free_entries_ = entry->next; entry->Store(...);
        entry->next = page->blocks[block]; page->blocks[block] = entry. */
    method Take(h: Home, offset: nat, size: nat, hash: Option<nat>, ghost x: nat)
      requires Matches() && Free in state.t.lists && state.t.lists[Free] != [] && h in state.t.lists && h != Free
      requires h in heads && Free in heads && heads[Free] in entry_next && heads[Free] in entries
      requires heads[Free] == state.t.lists[Free][0]
      modifies `heads, `entry_next, `entries, `state
      ensures Matches()
      ensures var e := old(heads)[Free];
        state == TakeFor(old(state), x, h, e, Store(old(entries)[e], offset, size, hash))
    {
      var entry := heads[Free];
      var data := Store(entries[entry], offset, size, hash);
      state := TakeFor(state, x, h, entry, data);
      heads := heads[Free := entry_next[entry]];
      entries := entries[entry := data];
      entry_next := entry_next[entry := heads[h]];
      heads := heads[h := entry];
    }

    /** *p = entry->next; entry->next = free_entries_; free_entries_ = entry, where p points to
        the head of the list if prev is NULL, and else to the next field of prev. */
    method Unlink(h: Home, entry: nat, prev: nat, ghost x: nat, ghost k: nat)
      requires Matches() && Free in state.t.lists && h in state.t.lists && h != Free && k < |state.t.lists[h]|
      requires entry == state.t.lists[h][k] && entry in entry_next && h in heads && Free in heads
      requires prev == (if k == 0 then 0 else state.t.lists[h][k - 1]) && (0 < k ==> prev != 0)
      modifies `heads, `entry_next, `state
      ensures Matches() && state == RecycleFor(old(state), x, h, k)
    {
      state := RecycleFor(state, x, h, k);
      if prev == 0 {
        heads := heads[h := entry_next[entry]];
      } else {
        entry_next := entry_next[prev := entry_next[entry]];
      }
      entry_next := entry_next[entry := heads[Free]];
      heads := heads[Free := entry];
    }

    /** Take entry k, that of address x, off its list. */
    method Remove(page: nat, block: nat, entry: nat, prev: nat, ghost x: nat, ghost k: nat)
      requires Sound() && page == PageAt(state, x) != 0 && block == BlockIndex(x)
      requires k < |ListAt(state, x)| && entry == ListAt(state, x)[k]
      requires entry in entries && entries[entry].offset == Offset(x)
      requires prev == (if k == 0 then 0 else ListAt(state, x)[k - 1]) && (0 < k ==> prev != 0)
      modifies `heads, `entry_next, `state
      ensures Sound()
      ensures x in old(Contents()) && InfoOf(old(entries)[entry]) == old(Contents())[x]
      ensures Contents() == old(Contents()) - {x}
      ensures state.t.radix == old(state.t.radix) && |state.home| == |old(state.home)|
      ensures NumFree() == old(NumFree()) + 1
    {
      FreeAtOk(state);
      ListAtOk(state, x);
      RecycleForConsistent(state, x, k);
      Unlink(Block(page, block), entry, prev, x, k);
    }

    // ---------- the operations ----------

    /** Put the size, modulo 256, and the hash at address addr, or at its low 52 bits. */
    method Insert(addr: nat, size: nat, hash: Option<nat>)
      requires Valid()
      modifies this
      ensures Valid()
      ensures Contents() == AfterInsert(old(Contents()), addr, size, hash)
      ensures addr < 0x10_0000_0000_0000 ==> Contents() == old(Contents())[addr := Info(size % 256, hash)]
      ensures num_entries == old(num_entries) + 1
      ensures overwrites == old(overwrites) + (if addr in old(Contents()) then 1 else 0)
      ensures shadowed == old(shadowed) + |old(Contents())| - |Unshadowed(old(Contents()), addr)|
      ensures low == (old(low) && addr < ADDRESS_LIMIT)
    {
      hide Consistent;
      UnshadowedAt(state, addr);
      var page, entry, prev, k := Find(addr);
      Put(page, entry, addr, size, hash, k);
    }

    /** What both operations do first: find or make the page of addr, and look for addr there. */
    method Find(addr: nat) returns (page: nat, entry: nat, prev: nat, ghost k: nat)
      requires Valid()
      modifies `brk, `cluster_hash_table, `cluster_next, `cluster_id, `subclusters, `pages, `heads
      modifies `state, `shadowed, `low
      ensures Valid() && Found(addr, page, entry, prev, k)
      ensures Contents() == Unshadowed(old(Contents()), addr)
      ensures shadowed == old(shadowed) + |old(Contents())| - |Contents()|
      ensures low == (old(low) && addr < ADDRESS_LIMIT)
    {
      hide Consistent;
      page := GetPage(addr);
      entry, prev, k := FindEntry(page, addr);
    }

    /** entry is entry k of the list of addr, or NULL if addr is not in the map; prev is the
        entry before. */
    ghost predicate Found(addr: nat, page: nat, entry: nat, prev: nat, k: nat)
      reads `state
      requires Consistent(state)
    {
      && page == PageAt(state, Low(addr)) != 0
      && var s := ListAt(state, Low(addr));
        && k <= |s| && entry == At(s, k) && prev == (if k == 0 then 0 else s[k - 1])
        && (0 < k ==> prev != 0)
        && (k < |s| ==> s[k] != 0 && s[k] in state.t.entries && state.t.entries[s[k]].offset == Offset(addr))
        && (entry == 0 <==> Low(addr) !in Contents())
    }

    method Put(page: nat, entry: nat, addr: nat, size: nat, hash: Option<nat>, ghost k: nat)
      requires Valid() && exists prev: nat :: Found(addr, page, entry, prev, k)
      modifies `brk, `heads, `entry_next, `entries, `stats_num_entries, `num_entries, `overwrites, `state
      ensures Valid()
      ensures Contents() == old(Contents())[Low(addr) := Info(size % 256, hash)]
      ensures num_entries == old(num_entries) + 1
      ensures overwrites == old(overwrites) + (if Low(addr) in old(Contents()) then 1 else 0)
    {
      hide Consistent;
      ghost var x := Low(addr);
      LowDigits(addr);
      SameDigits(addr, x);
      if entry != 0 {
        Overwrite(entry, size, hash, x, k);
        overwrites := overwrites + 1;
      } else {
        InsertNew(page, BlockIndex(addr), Offset(addr), size, hash, x);
      }
      num_entries := num_entries + 1;
    }

    method InsertNew(page: nat, block: nat, offset: nat, size: nat, hash: Option<nat>, ghost x: nat)
      requires Sound() && CountsOk() && x !in Contents()
      requires page == PageAt(state, x) != 0 && block == BlockIndex(x) && offset == Offset(x)
      modifies `brk, `heads, `entry_next, `entries, `stats_num_entries, `state
      ensures Sound()
      ensures Contents() == old(Contents())[x := Info(size % 256, hash)]
      ensures stats_num_entries == |state.home| == NumFree() + |Contents()| + shadowed
      ensures state.t.radix.buckets == old(state.t.radix.buckets) && state.t.radix.ids == old(state.t.radix.ids)
    {
      hide Consistent;
      EnsureFree(x);
      Create(page, block, offset, size, hash, x);
    }

    method EnsureFree(ghost x: nat)
      requires Sound() && CountsOk()
      modifies `brk, `heads, `entry_next, `entries, `stats_num_entries, `state
      ensures Sound() && CountsOk() && Free in heads && heads[Free] != 0
      ensures Contents() == old(Contents()) && PageAt(state, x) == old(PageAt(state, x))
      ensures state.t.radix.buckets == old(state.t.radix.buckets) && state.t.radix.ids == old(state.t.radix.ids)
    {
      hide Consistent;
      FreeAtOk(state);
      if heads[Free] == 0 {
        Refill(x);
      }
    }

    /** Take address addr out of the map, and return its entry if it was there. */
    method FindAndRemove(addr: nat) returns (result: Option<EntryData>)
      requires Valid()
      modifies this
      ensures Valid()
      ensures result.Some? <==> addr in old(Contents())
      ensures result.Some? ==> InfoOf(result.value) == old(Contents())[addr] && result.value.offset == Offset(addr)
      ensures Contents() == AfterFind(old(Contents()), addr)
      ensures addr < 0x10_0000_0000_0000 ==> Contents() == old(Contents()) - {addr}
      ensures num_entries == old(num_entries) - (if addr in old(Contents()) then 1 else 0)
      ensures overwrites == old(overwrites)
      ensures shadowed == old(shadowed) + |old(Contents())| - |Unshadowed(old(Contents()), addr)|
      ensures low == (old(low) && addr < ADDRESS_LIMIT)
    {
      hide Consistent;
      UnshadowedAt(state, addr);
      var page, entry, prev, k := Find(addr);
      result := TakeOut(page, entry, prev, addr, k);
    }

    method TakeOut(page: nat, entry: nat, prev: nat, addr: nat, ghost k: nat) returns (result: Option<EntryData>)
      requires Valid() && Found(addr, page, entry, prev, k)
      modifies `heads, `entry_next, `num_entries, `state
      ensures Valid()
      ensures result.Some? <==> Low(addr) in old(Contents())
      ensures result.Some? ==>
        InfoOf(result.value) == old(Contents())[Low(addr)] && result.value.offset == Offset(addr)
      ensures Contents() == old(Contents()) - {Low(addr)}
      ensures num_entries == old(num_entries) - (if Low(addr) in old(Contents()) then 1 else 0)
    {
      hide Consistent;
      LowDigits(addr);
      SameDigits(addr, Low(addr));
      if entry != 0 {
        result := Some(entries[entry]);
        Remove(page, BlockIndex(addr), entry, prev, Low(addr), k);
        num_entries := num_entries - 1;
      } else {
        result := None;
      }
    }

    lemma ContentsAreLow()
      requires Valid()
      ensures AllLow(Contents())
    {
      BelowLimit(state.t, Contents());
    }

    /** size() is the number of addresses in the map exactly when no insert was at an address
        that was present and no lookup hid a cluster. */
    lemma SizeIsExact()
      requires Valid()
      ensures num_entries == |Contents()| <==> overwrites == 0 && shadowed == 0
      ensures low ==> (num_entries == |Contents()| <==> overwrites == 0)
      ensures low ==> stats_num_entries == NumFree() + |Contents()|
    {
    }
  }
  /** The fields of an entry that holds a size and a hash. */
  ghost predicate IsEntryOf(e: EntryData, addr: nat, size: nat, hash: Option<nat>) {
    && e.size == size % 256 && e.offset == addr % 256
    && (e.has_call_stack <==> hash.Some?)
    && (hash.Some? ==> e.call_stack_hash == hash.value)
  }

  /** Below 2^52, what is inserted is found, and only once; from there on it is not found. */
  method InsertAndFind(m: CompactAddressMap, addr: nat, size: nat, hash: Option<nat>)
    returns (first: Option<EntryData>, second: Option<EntryData>)
    requires m.Valid()
    modifies m
    ensures m.Valid() && second == None
    ensures first.Some? <==> addr < 0x10_0000_0000_0000
    ensures first.Some? ==> IsEntryOf(first.value, addr, size, hash)
    ensures addr < 0x10_0000_0000_0000 ==> m.Contents() == old(m.Contents()) - {addr}
  {
    hide CompactAddressMap.Valid;
    hide AfterInsert;
    hide AfterFind;
    m.ContentsAreLow();
    FindAfterInsert(m.Contents(), addr, size, hash);
    m.Insert(addr, size, hash);
    first := m.FindAndRemove(addr);
    second := m.FindAndRemove(addr);
    if first.Some? {
      EntryHolds(first.value, addr, size, hash);
    }
  }

  lemma EntryHolds(e: EntryData, addr: nat, size: nat, hash: Option<nat>)
    requires InfoOf(e) == Info(size % 256, hash) && e.offset == Offset(addr)
    ensures IsEntryOf(e, addr, size, hash)
  {
  }

  /** Inserting at an address twice counts twice: size() is 2, with one address in the map. */
  method OverwriteCountsTwice() returns (m: CompactAddressMap)
    ensures fresh(m) && m.Valid() && m.num_entries == 2 && |m.Contents()| == 1
  {
    hide Consistent;
    m := new CompactAddressMap();
    m.Insert(8, 4, None);
    m.Insert(8, 4, None);
    assert m.low;
    m.SizeIsExact();
  }
}
