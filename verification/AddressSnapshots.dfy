/**
 The states of the compact address map, and the steps between them (compact_address_map.cc).
 */
module AddressSnapshots {
  import opened IntSets
  import opened Options
  import opened AddressRadix
  import opened EntryLists
  import opened AddressLookup
  import opened AddressUpdates

  /** Every bucket is linked up from its slot of the hash table. */
  ghost predicate ChainsOk(table: seq<nat>, next: map<nat, nat>, buckets: seq<seq<nat>>) {
    && |table| == |buckets| == K_CLUSTER_HASH_TABLE_SIZE
    && forall i :: 0 <= i < |buckets| ==> IsList(table[i], next, buckets[i])
  }

  /** No two clusters of a bucket have the same id. */
  ghost predicate IdsUnique(buckets: seq<seq<nat>>, ids: map<nat, nat>) {
    forall i :: 0 <= i < |buckets| ==> UniqueIn(buckets[i], ids)
  }

  ghost predicate UniqueIn(bucket: seq<nat>, ids: map<nat, nat>) {
    && (forall k :: 0 <= k < |bucket| ==> bucket[k] in ids)
    && (forall j, k :: 0 <= j < k < |bucket| ==> ids[bucket[j]] != ids[bucket[k]])
  }

  /** The state of the map, but for its counters. */
  datatype Snapshot = Snapshot(
    t: Tables,
    table: seq<nat>,                // cluster_hash_table_
    cluster_next: map<nat, nat>,
    heads: map<Home, nat>,
    entry_next: map<nat, nat>,
    home: map<nat, Home>,
    contents: map<nat, Info>)

  /** Every cluster, page and entry is in its place, and looking up an address finds what
      contents says. */
  ghost predicate Consistent(s: Snapshot) {
    match s
    case Snapshot(t, table, cluster_next, heads, entry_next, home, contents) =>
      && 0 < t.brk
      && TablesOk(t) && HomesOk(t, home) && Agrees(t, contents)
      && ChainsOk(table, cluster_next, t.radix.buckets)
      && Linked(t.lists, heads, entry_next)
  }

  lemma ClusterIsNew(r: Radix, brk: nat, c: nat, i: nat, k: nat)
    requires RadixOk(r, brk) && brk <= c && i < |r.buckets| && k < |r.buckets[i]|
    ensures r.buckets[i][k] != c
  {
    assert BucketOk(r, i);
  }

  /** c->next = cluster_hash_table_[index]; cluster_hash_table_[index] = c. */
  lemma ChainsWithCluster(r: Radix, brk: nat, table: seq<nat>, next: map<nat, nat>, c: nat, id: nat)
    requires RadixOk(r, brk) && 0 < brk <= c && ChainsOk(table, next, r.buckets)
    ensures var i := id % K_CLUSTER_HASH_TABLE_SIZE;
      ChainsOk(table[i := c], next[c := table[i]], WithCluster(r, c, id).buckets)
  {
    var i := id % K_CLUSTER_HASH_TABLE_SIZE;
    var buckets' := WithCluster(r, c, id).buckets;
    forall j | 0 <= j < |buckets'|
      ensures IsList(table[i := c][j], next[c := table[i]], buckets'[j])
    {
      assert IsList(table[j], next, r.buckets[j]);
      forall k | 0 <= k < |r.buckets[j]| ensures r.buckets[j][k] != c {
        ClusterIsNew(r, brk, c, j, k);
      }
      ForeignEntry(table[j], next, r.buckets[j], c, table[i]);
      if j == i {
        ConsIsList(table[i], next[c := table[i]], r.buckets[i], c);
      }
    }
  }

  /** A cluster for an id that its bucket does not have keeps the ids unique. */
  lemma UniqueWithCluster(r: Radix, brk: nat, c: nat, a: nat)
    requires RadixOk(r, brk) && 0 < brk <= c && IdsUnique(r.buckets, r.ids) && ClusterId(a) < ID_LIMIT
    requires ClusterOf(r, brk, a) == 0
    ensures var r' := WithCluster(r, c, ClusterId(a));
      IdsUnique(r'.buckets, r'.ids)
  {
    var r' := WithCluster(r, c, ClusterId(a));
    forall i | 0 <= i < |r'.buckets| ensures UniqueIn(r'.buckets[i], r'.ids) {
      UniqueBucket(r, brk, c, a, i);
    }
  }

  lemma UniqueBucket(r: Radix, brk: nat, c: nat, a: nat, i: nat)
    requires RadixOk(r, brk) && 0 < brk <= c && i < |r.buckets| && UniqueIn(r.buckets[i], r.ids)
    requires ClusterOf(r, brk, a) == 0
    ensures var r' := WithCluster(r, c, ClusterId(a));
      UniqueIn(r'.buckets[i], r'.ids)
  {
    var id := ClusterId(a);
    assert BucketOk(r, i);
    if i == id % K_CLUSTER_HASH_TABLE_SIZE {
      FindClusterSpec(r.buckets[i], r.ids, id);
      UniqueCons(r.buckets[i], r.ids, c, id);
    } else {
      forall k | 0 <= k < |r.buckets[i]| ensures r.buckets[i][k] != c {
        ClusterIsNew(r, brk, c, i, k);
      }
    }
  }

  lemma UniqueCons(bucket: seq<nat>, ids: map<nat, nat>, c: nat, id: nat)
    requires forall k :: 0 <= k < |bucket| ==> bucket[k] in ids && ids[bucket[k]] != id
    requires UniqueIn(bucket, ids) && c !in ids
    ensures UniqueIn([c] + bucket, ids[c := id])
  {
  }

  ghost predicate OnList(s: Snapshot, e: nat, h: Home, k: nat) {
    h in s.t.lists && k < |s.t.lists[h]| && s.t.lists[h][k] == e
  }

  /** Every entry ever made is at exactly one place of exactly one list, which is the free list
      or that of a block. */
  lemma OnExactlyOneList(s: Snapshot, e: nat)
    requires Consistent(s) && e in s.t.entries
    ensures exists h, k: nat :: OnList(s, e, h, k)
    ensures forall h, k: nat, h', k': nat :: OnList(s, e, h, k) && OnList(s, e, h', k') ==> h == h' && k == k'
  {
    var h := s.home[e];
    var k :| 0 <= k < |s.t.lists[h]| && s.t.lists[h][k] == e;
    assert OnList(s, e, h, k);
    forall h', k': nat | OnList(s, e, h', k') ensures h' == h && k' == k {
      OnlyHere(s, h, k, h', k');
    }
  }

  lemma OnlyHere(s: Snapshot, h: Home, k: nat, h': Home, k': nat)
    requires Partition(s.t.lists, s.home) && h in s.t.lists && k < |s.t.lists[h]|
    requires h' in s.t.lists && k' < |s.t.lists[h']| && s.t.lists[h'][k'] == s.t.lists[h][k]
    ensures h' == h && k' == k
  {
  }

  /** No two entries of a block have the same offset. */
  lemma OffsetsAreUnique(s: Snapshot, h: Home, d: nat, k: nat, e: nat, k': nat)
    requires Consistent(s) && h != Free && d != e && OnList(s, d, h, k) && OnList(s, e, h, k')
    ensures d in s.t.entries && e in s.t.entries && s.t.entries[d].offset != s.t.entries[e].offset
  {
  }

  // ---------- the steps ----------

  type ConsistentSnapshot = s: Snapshot | Consistent(s) ghost witness EmptySnapshot()

  /** The map just made. */
  ghost function EmptySnapshot(): (s: Snapshot)
    ensures Consistent(s) && IdsUnique(s.t.radix.buckets, s.t.radix.ids)
  {
    var r := Radix(seq(K_CLUSTER_HASH_TABLE_SIZE, i => []), map[], map[], map[]);
    EmptyBuckets(r);
    Snapshot(Tables(r, 1, map[Free := []], map[]), seq(K_CLUSTER_HASH_TABLE_SIZE, i => 0), map[],
             map[Free := 0], map[], map[], map[])
  }

  lemma EmptyBuckets(r: Radix)
    requires r == Radix(seq(K_CLUSTER_HASH_TABLE_SIZE, i => []), map[], map[], map[])
    ensures RadixOk(r, 1) && IdsUnique(r.buckets, r.ids)
    ensures forall a: nat :: PageOf(r, 1, a) == 0
  {
    forall i: nat | i < |r.buckets| ensures BucketOk(r, i) {
    }
  }

  ghost function ClusterAt(s: ConsistentSnapshot, a: nat): nat {
    ClusterOf(s.t.radix, s.t.brk, a)
  }

  ghost function SubclusterAt(s: ConsistentSnapshot, a: nat): nat {
    SubclusterOf(s.t.radix, s.t.brk, a)
  }

  ghost function PageAt(s: ConsistentSnapshot, a: nat): nat {
    PageOf(s.t.radix, s.t.brk, a)
  }

  /** The list where address a belongs. */
  ghost function ListAt(s: ConsistentSnapshot, a: nat): seq<nat>
    requires PageAt(s, a) != 0
  {
    HomeListed(s.t, a);
    s.t.lists[HomeOf(s.t, a)]
  }

  /** A new cluster for address addr.  Its id is cut off at 32 bits. */
  ghost function NewCluster(s: Snapshot, c: nat, addr: nat): Snapshot
    requires |s.table| == |s.t.radix.buckets| == K_CLUSTER_HASH_TABLE_SIZE
  {
    var index := ClusterId(addr) % K_CLUSTER_HASH_TABLE_SIZE;
    s.(t := ClusterAdded(s.t, c, ClusterId(addr) % ID_LIMIT), table := s.table[index := c],
       cluster_next := s.cluster_next[c := s.table[index]], contents := Unshadowed(s.contents, addr))
  }

  lemma NewClusterConsistent(s: ConsistentSnapshot, c: nat, addr: nat)
    requires s.t.brk <= c && ClusterAt(s, addr) == 0
    ensures Consistent(NewCluster(s, c, addr))
    ensures ClusterAt(NewCluster(s, c, addr), Low(addr)) == c
  {
    ClusterAddedAgrees(s.t, c, addr, s.contents);
    ChainsWithCluster(s.t.radix, s.t.brk, s.table, s.cluster_next, c, ClusterId(addr) % ID_LIMIT);
    SameBucket(ClusterId(addr));
  }

  lemma SameBucket(id: nat)
    ensures id % ID_LIMIT % K_CLUSTER_HASH_TABLE_SIZE == id % K_CLUSTER_HASH_TABLE_SIZE
  {
  }

  ghost function NewSubcluster(s: Snapshot, c: nat, i: nat, p: nat): Snapshot {
    s.(t := SubclusterAdded(s.t, c, i, p))
  }

  lemma NewSubclusterConsistent(s: ConsistentSnapshot, p: nat, a: nat)
    requires s.t.brk <= p && ClusterAt(s, a) != 0 && SubclusterAt(s, a) == 0
    ensures Consistent(NewSubcluster(s, ClusterAt(s, a), SubclusterIndex(a), p))
    ensures SubclusterAt(NewSubcluster(s, ClusterAt(s, a), SubclusterIndex(a), p), a) == p
  {
    SubclusterAddedAgrees(s.t, a, p, s.contents);
    NewSubclusterFound(s.t.radix, s.t.brk, a, p);
  }

  ghost function NewPage(s: Snapshot, c: nat, i: nat, p: nat): Snapshot {
    s.(t := PageAdded(s.t, c, i, p), heads := s.heads + NullBlocks(p))
  }

  lemma NewPageConsistent(s: ConsistentSnapshot, p: nat, a: nat)
    requires s.t.brk <= p && SubclusterAt(s, a) != 0 && PageAt(s, a) == 0
    ensures Consistent(NewPage(s, SubclusterAt(s, a), PageIndex(a), p))
    ensures PageAt(NewPage(s, SubclusterAt(s, a), PageIndex(a), p), a) == p
  {
    PageAddedAgrees(s.t, a, p, s.contents);
    PageAddedHomes(s.t, s.home, SubclusterAt(s, a), PageIndex(a), p);
    PageAddedLinked(s.t.lists, s.heads, s.entry_next, p);
  }

  /** The list of address a is linked up, and consists of entries with different offsets. */
  lemma ListAtOk(s: ConsistentSnapshot, a: nat)
    requires PageAt(s, a) != 0
    ensures HomeOf(s.t, a) in s.heads && HomeOf(s.t, a) in s.t.lists && HomeOf(s.t, a) != Free
    ensures ListOk(ListAt(s, a), s.t.entries)
    ensures IsList(s.heads[HomeOf(s.t, a)], s.entry_next, ListAt(s, a))
    ensures ListLookup(ListAt(s, a), s.t.entries, Offset(a)) == Held(s.contents, a)
  {
    HomeListed(s.t, a);
    assert Lookup(s.t, a) == Held(s.contents, a);
  }

  /** free_entries_ is null exactly when there is no free entry. */
  lemma FreeAtOk(s: ConsistentSnapshot)
    ensures Free in s.heads && Free in s.t.lists
    ensures s.heads[Free] == 0 <==> s.t.lists[Free] == []
  {
    assert IsList(s.heads[Free], s.entry_next, s.t.lists[Free]);
  }

  lemma HomesBelow(s: ConsistentSnapshot)
    ensures forall e :: e in s.home ==> e < s.t.brk
  {
  }

  lemma PageAtKept(r: Radix, brk: nat, brk': nat, a: nat)
    requires RadixOk(r, brk) && RadixOk(r, brk')
    ensures PageOf(r, brk', a) == PageOf(r, brk, a)
  {
  }

  /** New data in entry e, which is that of address x. */
  ghost function StoreAt(s: Snapshot, x: nat, e: nat, data: EntryData): Snapshot {
    s.(t := s.t.(entries := s.t.entries[e := data]), contents := s.contents[x := InfoOf(data)])
  }

  lemma StoreAtConsistent(s: ConsistentSnapshot, x: nat, k: nat, data: EntryData)
    requires PageAt(s, x) != 0 && k < |ListAt(s, x)| && ListAt(s, x)[k] in s.t.entries
    requires s.t.entries[ListAt(s, x)[k]].offset == Offset(x) == data.offset
    ensures Consistent(StoreAt(s, x, ListAt(s, x)[k], data))
    ensures x in s.contents
  {
    HomeListed(s.t, x);
    OverwrittenAgrees(s.t, s.home, x, k, data, s.contents);
  }

  /** The first free entry e moves to the front of list h, for address x. */
  ghost function TakeFor(s: Snapshot, x: nat, h: Home, e: nat, data: EntryData): Snapshot
    requires Free in s.t.lists && s.t.lists[Free] != [] && h in s.t.lists
    requires h in s.heads && e in s.entry_next
  {
    s.(t := Taken(s.t, h, data), home := s.home[e := h], contents := s.contents[x := InfoOf(data)],
       heads := s.heads[Free := s.entry_next[e]][h := e], entry_next := s.entry_next[e := s.heads[h]])
  }

  lemma TakeForConsistent(s: ConsistentSnapshot, x: nat, data: EntryData)
    requires PageAt(s, x) != 0 && s.t.lists[Free] != [] && data.offset == Offset(x)
    requires ListOk(ListAt(s, x), s.t.entries)
    requires ListLookup(ListAt(s, x), s.t.entries, Offset(x)) == None
    ensures HomeOf(s.t, x) in s.t.lists && HomeOf(s.t, x) in s.heads
    ensures Free in s.heads && s.heads[Free] in s.entry_next && s.heads[Free] == s.t.lists[Free][0]
    ensures s.heads[Free] in s.t.entries && s.heads[Free] in s.home
    ensures Consistent(TakeFor(s, x, HomeOf(s.t, x), s.heads[Free], data))
    ensures x !in s.contents
  {
    var h := HomeOf(s.t, x);
    HomeListed(s.t, x);
    TakenAgrees(s.t, s.home, x, data, s.contents);
    TakenHomes(s.t, s.home, h, data);
    TakeLinked(s.t.lists, s.home, s.heads, s.entry_next, h);
  }

  lemma TakeCounts(s: ConsistentSnapshot, x: nat, h: Home, data: EntryData)
    requires s.t.lists[Free] != [] && h in s.t.lists && h in s.heads && h != Free
    requires Free in s.heads && s.heads[Free] in s.entry_next && s.heads[Free] in s.home
    ensures var s' := TakeFor(s, x, h, s.heads[Free], data);
      |s'.home| == |s.home| && |s'.t.lists[Free]| == |s.t.lists[Free]| - 1
  {
  }

  /** Entry k of list h, that of address x, moves to the front of the free list. */
  ghost function RecycleFor(s: Snapshot, x: nat, h: Home, k: nat): Snapshot
    requires Free in s.t.lists && h in s.t.lists && k < |s.t.lists[h]| && s.t.lists[h][k] in s.entry_next
    requires h in s.heads && Free in s.heads
  {
    var list := s.t.lists[h];
    var e := list[k];
    s.(t := Recycled(s.t, h, k), home := s.home[e := Free], contents := s.contents - {x},
       heads := s.heads[h := UnlinkHead(s.heads[h], s.entry_next, list, k)][Free := e],
       entry_next := UnlinkNext(s.entry_next, list, k)[e := s.heads[Free]])
  }

  lemma RecycleForConsistent(s: ConsistentSnapshot, x: nat, k: nat)
    requires PageAt(s, x) != 0 && k < |ListAt(s, x)| && ListAt(s, x)[k] in s.t.entries
    requires s.t.entries[ListAt(s, x)[k]].offset == Offset(x)
    ensures HomeOf(s.t, x) in s.t.lists && HomeOf(s.t, x) in s.heads && Free in s.heads
    ensures ListAt(s, x)[k] in s.entry_next && ListAt(s, x)[k] in s.home
    ensures Consistent(RecycleFor(s, x, HomeOf(s.t, x), k))
    ensures x in s.contents && s.contents[x] == InfoOf(s.t.entries[ListAt(s, x)[k]])
  {
    HomeListed(s.t, x);
    RecycledAgrees(s.t, s.home, x, k, s.contents);
    RecycledHomes(s.t, s.home, HomeOf(s.t, x), k);
    RecycleLinked(s.t.lists, s.home, s.heads, s.entry_next, HomeOf(s.t, x), k);
  }

  /** A batch of n new entries from p on is the free list. */
  ghost function NewBatch(s: Snapshot, p: nat, n: nat, next: map<nat, nat>): Snapshot {
    s.(t := Grown(s.t, p, n), home := s.home + BatchHome(p, n), heads := s.heads[Free := p], entry_next := next)
  }

  lemma NewBatchConsistent(s: ConsistentSnapshot, p: nat, n: nat, next: map<nat, nat>)
    requires s.t.brk <= p && 0 < n && s.t.lists[Free] == []
    requires forall e :: e in s.entry_next && e < p ==> e in next && next[e] == s.entry_next[e]
    requires forall e :: p <= e < p + n ==> e in next && next[e] == if e + 1 < p + n then e + 1 else 0
    ensures Consistent(NewBatch(s, p, n, next))
  {
    GrownAgrees(s.t, s.home, p, n, s.contents);
    GrownHomes(s.t, s.home, p, n);
    GrowLinked(s.t.lists, s.home, s.heads, s.entry_next, next, p, n);
  }

  /** An address of 2^52 or more is never in the map, not even after cutting it off: its new
      cluster is empty. */
  lemma UnshadowedAt(s: ConsistentSnapshot, addr: nat)
    ensures Low(addr) in Unshadowed(s.contents, addr) <==> addr in s.contents
    ensures addr in s.contents ==> addr < ADDRESS_LIMIT
    ensures addr < ADDRESS_LIMIT ==> Low(addr) == addr && Unshadowed(s.contents, addr) == s.contents
    ensures Unshadowed(s.contents, addr) - {Low(addr)} == Unshadowed(s.contents, addr) - {addr}
  {
    BelowLimit(s.t, s.contents);
    LowDigits(addr);
  }

  /** The slots on the way to a page. */
  lemma SlotsOnTheWay(s: ConsistentSnapshot, a: nat)
    ensures SubclusterIndex(a) < 16 && PageIndex(a) < 16 && BlockIndex(a) < 16
    ensures ClusterAt(s, a) != 0 ==>
      var q := (ClusterAt(s, a), SubclusterIndex(a));
      q in s.t.radix.subclusters && s.t.radix.subclusters[q] == SubclusterAt(s, a)
    ensures SubclusterAt(s, a) != 0 ==>
      var q := (SubclusterAt(s, a), PageIndex(a));
      q in s.t.radix.pages && s.t.radix.pages[q] == PageAt(s, a)
  {
    AddressDigits(a);
    ClusterOfSpec(s.t.radix, s.t.brk, a);
  }

  lemma BatchCounts(s: ConsistentSnapshot, p: nat, n: nat, next: map<nat, nat>)
    requires s.t.brk <= p
    ensures |NewBatch(s, p, n, next).home| == |s.home| + n
    ensures |NewBatch(s, p, n, next).t.lists[Free]| == n
  {
    HomesBelow(s);
    GrownSize(s.home, p, n);
  }

  lemma UnshadowedIsSmaller(contents: map<nat, Info>, addr: nat)
    ensures |Unshadowed(contents, addr)| <= |contents|
  {
    var u := Unshadowed(contents, addr);
    assert u.Keys <= contents.Keys;
    assert |u| == |u.Keys|;
    assert |contents| == |contents.Keys|;
    SubsetSize(u.Keys, contents.Keys);
  }
}
