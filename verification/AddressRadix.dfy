/**
 The radix tables of the compact address map (compact_address_map.h, compact_address_map.cc):
 how an address is split, and how a page is found from it.

 Memory is modelled one map per field.  A pointer is a natural number and NULL is 0;
 subclusters[(c, i)] is c->subclusters[i], and so on.
 */
module AddressRadix {

  const K_BLOCK_SIZE := 256
  const K_PAGE_SIZE := 16 * K_BLOCK_SIZE
  const K_SUBCLUSTER_SIZE := 16 * K_PAGE_SIZE
  const K_CLUSTER_SIZE := 16 * K_SUBCLUSTER_SIZE
  const K_CLUSTER_HASH_TABLE_SIZE := 4096   // 2^32 / kClusterSize
  const ID_LIMIT := 0x1_0000_0000           // Cluster::id has 32 bits
  const ADDRESS_LIMIT := ID_LIMIT * K_CLUSTER_SIZE

  /** The sizes in numbers: a cluster is 1 MB, and 2^32 of them are 2^52 bytes. */
  lemma SizesInNumbers()
    ensures K_BLOCK_SIZE == 0x100 && K_PAGE_SIZE == 0x1000 && K_SUBCLUSTER_SIZE == 0x1_0000
    ensures K_CLUSTER_SIZE == 0x10_0000 && K_CLUSTER_HASH_TABLE_SIZE * K_CLUSTER_SIZE == 0x1_0000_0000
    ensures ID_LIMIT == 0x1_0000_0000 && ADDRESS_LIMIT == 0x10_0000_0000_0000
  {
  }

  function ClusterId(a: nat): nat { a / K_CLUSTER_SIZE }

  function SubclusterIndex(a: nat): nat { a % K_CLUSTER_SIZE / K_SUBCLUSTER_SIZE }

  function PageIndex(a: nat): nat { a % K_SUBCLUSTER_SIZE / K_PAGE_SIZE }

  function BlockIndex(a: nat): nat { a % K_PAGE_SIZE / K_BLOCK_SIZE }

  function Offset(a: nat): nat { a % K_BLOCK_SIZE }

  lemma ProductExceeds(d: int, m: nat)
    requires 0 < m
    ensures d > 0 ==> d * m >= m
    ensures d < 0 ==> d * m + m <= 0
  {
    if d > 0 {
      assert (d - 1) * m >= 0;
    } else if d < 0 {
      assert (-d - 1) * m >= 0;
    }
  }

  lemma DivModUnique(a: nat, m: nat, q: int, s: nat)
    requires 0 < m && a == q * m + s && s < m
    ensures a / m == q && a % m == s
  {
    var d := a / m - q;
    assert a == (a / m) * m + a % m;
    assert d * m == s - a % m;
    ProductExceeds(d, m);
  }

  /** A number modulo 16 m is its next digit times m and its value modulo m. */
  lemma NextDigit(a: nat, m: nat)
    requires 0 < m
    ensures a % (16 * m) == a % (16 * m) / m * m + a % m
    ensures a % (16 * m) / m < 16
  {
    var q, r := a / (16 * m), a % (16 * m);
    var d, e := r / m, r % m;
    assert a == q * (16 * m) + r && r == d * m + e;
    assert (16 * q + d) * m == q * (16 * m) + d * m;
    DivModUnique(a, m, 16 * q + d, e);
    ProductExceeds(d - 15, m);
  }

  /** The split of an address is one of its digits in mixed radix. */
  lemma AddressDigits(a: nat)
    ensures a == ClusterId(a) * K_CLUSTER_SIZE + SubclusterIndex(a) * K_SUBCLUSTER_SIZE
                 + PageIndex(a) * K_PAGE_SIZE + BlockIndex(a) * K_BLOCK_SIZE + Offset(a)
    ensures SubclusterIndex(a) < 16 && PageIndex(a) < 16 && BlockIndex(a) < 16 && Offset(a) < K_BLOCK_SIZE
  {
    NextDigit(a, K_SUBCLUSTER_SIZE);
    NextDigit(a, K_PAGE_SIZE);
    NextDigit(a, K_BLOCK_SIZE);
  }

  /** The low 52 bits of an address, which is all that a cluster keeps of it. */
  function Low(a: nat): nat { a % ADDRESS_LIMIT }

  lemma LowDigits(a: nat)
    ensures ClusterId(Low(a)) == ClusterId(a) % ID_LIMIT
    ensures Low(a) % K_CLUSTER_SIZE == a % K_CLUSTER_SIZE
    ensures a < ADDRESS_LIMIT ==> Low(a) == a
    ensures a < ADDRESS_LIMIT <==> ClusterId(a) < ID_LIMIT
  {
    var id, r := ClusterId(a), a % K_CLUSTER_SIZE;
    var q, t := id / ID_LIMIT, id % ID_LIMIT;
    DivModUnique(a, ADDRESS_LIMIT, q, t * K_CLUSTER_SIZE + r);
    DivModUnique(Low(a), K_CLUSTER_SIZE, t, r);
  }

  /** The digits below the cluster depend only on the address modulo the cluster size. */
  lemma SameDigits(a: nat, b: nat)
    requires a % K_CLUSTER_SIZE == b % K_CLUSTER_SIZE
    ensures SubclusterIndex(a) == SubclusterIndex(b) && PageIndex(a) == PageIndex(b)
    ensures BlockIndex(a) == BlockIndex(b) && Offset(a) == Offset(b)
  {
    Reduce(a);
    Reduce(b);
  }

  lemma Reduce(a: nat)
    ensures a % K_CLUSTER_SIZE % K_SUBCLUSTER_SIZE == a % K_SUBCLUSTER_SIZE
    ensures a % K_SUBCLUSTER_SIZE % K_PAGE_SIZE == a % K_PAGE_SIZE
    ensures a % K_PAGE_SIZE % K_BLOCK_SIZE == a % K_BLOCK_SIZE
  {
    NextDigit(a, K_SUBCLUSTER_SIZE);
    DivModUnique(a % K_CLUSTER_SIZE, K_SUBCLUSTER_SIZE, SubclusterIndex(a), a % K_SUBCLUSTER_SIZE);
    NextDigit(a, K_PAGE_SIZE);
    DivModUnique(a % K_SUBCLUSTER_SIZE, K_PAGE_SIZE, PageIndex(a), a % K_PAGE_SIZE);
    NextDigit(a, K_BLOCK_SIZE);
    DivModUnique(a % K_PAGE_SIZE, K_BLOCK_SIZE, BlockIndex(a), a % K_BLOCK_SIZE);
  }

  datatype Radix = Radix(
    buckets: seq<seq<nat>>,              // the clusters of each bucket, in list order
    ids: map<nat, nat>,                  // Cluster::id
    subclusters: map<(nat, nat), nat>,
    pages: map<(nat, nat), nat>)

  /** The first cluster of a bucket with the given id, or NULL. */
  function FindCluster(bucket: seq<nat>, ids: map<nat, nat>, id: nat): nat
    requires forall k :: 0 <= k < |bucket| ==> bucket[k] in ids
  {
    if bucket == [] then 0
    else if ids[bucket[0]] == id then bucket[0]
    else FindCluster(bucket[1..], ids, id)
  }

  /** No two table slots point to the same object. */
  ghost predicate Injective(m: map<(nat, nat), nat>) {
    forall i, j {:trigger Slot(m, i), Slot(m, j)} ::
      i in m && j in m && Slot(m, i) == Slot(m, j) != 0 ==> i == j
  }

  function Slot(m: map<(nat, nat), nat>, i: (nat, nat)): nat
    requires i in m
  {
    m[i]
  }

  lemma SlotsDiffer(m: map<(nat, nat), nat>, i: (nat, nat), j: (nat, nat))
    requires Injective(m) && i in m && j in m && m[i] == m[j] != 0
    ensures i == j
  {
    assert Slot(m, i) == Slot(m, j);
  }

  ghost predicate BucketOk(r: Radix, i: nat)
    requires i < |r.buckets|
  {
    forall k :: 0 <= k < |r.buckets[i]| ==>
      var c := r.buckets[i][k];
      c in r.ids && c != 0 && r.ids[c] % K_CLUSTER_HASH_TABLE_SIZE == i
  }

  ghost predicate BucketsOk(r: Radix) {
    && |r.buckets| == K_CLUSTER_HASH_TABLE_SIZE
    && forall i: nat :: i < |r.buckets| ==> BucketOk(r, i)
  }

  /** Every cluster and every subcluster has its sixteen slots. */
  ghost predicate SlotsOk(r: Radix) {
    && (forall c, i: nat :: c in r.ids && i < 16 ==> (c, i) in r.subclusters)
    && (forall q, i: nat :: q in r.subclusters && r.subclusters[q] != 0 && i < 16 ==>
          (r.subclusters[q], i) in r.pages)
  }

  /** All pointers are below brk, and ids have 32 bits. */
  ghost predicate BoundsOk(r: Radix, brk: nat) {
    && (forall c :: c in r.ids ==> 0 < c < brk && r.ids[c] < ID_LIMIT)
    && (forall q :: q in r.subclusters ==> q.0 < brk && r.subclusters[q] < brk)
    && (forall q :: q in r.pages ==> q.0 < brk && r.pages[q] < brk)
  }

  /** The tables are well-formed. */
  ghost predicate RadixOk(r: Radix, brk: nat) {
    && BucketsOk(r) && SlotsOk(r) && BoundsOk(r, brk)
    && Injective(r.subclusters) && Injective(r.pages)
  }

  lemma {:induction false} FindClusterSpec(bucket: seq<nat>, ids: map<nat, nat>, id: nat)
    requires forall k :: 0 <= k < |bucket| ==> bucket[k] in ids && bucket[k] != 0
    ensures var c := FindCluster(bucket, ids, id);
      if c == 0 then forall k :: 0 <= k < |bucket| ==> ids[bucket[k]] != id
      else c in ids && ids[c] == id && exists k :: 0 <= k < |bucket| && bucket[k] == c
  {
    if bucket != [] && ids[bucket[0]] != id {
      FindClusterSpec(bucket[1..], ids, id);
      var c := FindCluster(bucket, ids, id);
      if c == 0 {
        assert forall k :: 0 < k < |bucket| ==> bucket[k] == bucket[1..][k - 1];
      } else {
        var k :| 0 <= k < |bucket[1..]| && bucket[1..][k] == c;
        assert bucket[k + 1] == c;
      }
    }
  }

  /** The cluster that a lookup of address a finds. */
  ghost function ClusterOf(r: Radix, brk: nat, a: nat): nat
    requires RadixOk(r, brk)
  {
    assert BucketOk(r, ClusterId(a) % K_CLUSTER_HASH_TABLE_SIZE);
    FindCluster(r.buckets[ClusterId(a) % K_CLUSTER_HASH_TABLE_SIZE], r.ids, ClusterId(a))
  }

  lemma ClusterOfSpec(r: Radix, brk: nat, a: nat)
    requires RadixOk(r, brk)
    ensures var c := ClusterOf(r, brk, a);
      c != 0 ==> c in r.ids && r.ids[c] == ClusterId(a)
  {
    var i := ClusterId(a) % K_CLUSTER_HASH_TABLE_SIZE;
    assert BucketOk(r, i);
    FindClusterSpec(r.buckets[i], r.ids, ClusterId(a));
  }

  ghost function SubclusterOf(r: Radix, brk: nat, a: nat): nat
    requires RadixOk(r, brk)
  {
    var c := ClusterOf(r, brk, a);
    if c == 0 then 0
    else
      ClusterOfSpec(r, brk, a);
      r.subclusters[(c, SubclusterIndex(a))]
  }

  /** The page that a lookup of address a finds, or NULL. */
  ghost function PageOf(r: Radix, brk: nat, a: nat): nat
    requires RadixOk(r, brk)
  {
    var s := SubclusterOf(r, brk, a);
    if s == 0 then 0
    else
      ClusterOfSpec(r, brk, a);
      r.pages[(s, PageIndex(a))]
  }

  /** Two addresses find the same page only if they agree above the page offset, and only
      addresses below 2^52 find one at all. */
  lemma SamePage(r: Radix, brk: nat, a: nat, b: nat)
    requires RadixOk(r, brk)
    requires PageOf(r, brk, a) == PageOf(r, brk, b) != 0
    ensures a < ADDRESS_LIMIT
    ensures a / K_PAGE_SIZE == b / K_PAGE_SIZE
  {
    ClusterOfSpec(r, brk, a);
    ClusterOfSpec(r, brk, b);
    AddressDigits(a);
    AddressDigits(b);
    SlotsDiffer(r.pages, (SubclusterOf(r, brk, a), PageIndex(a)), (SubclusterOf(r, brk, b), PageIndex(b)));
    SameSubcluster(r, brk, a, b);
    SamePageDigits(a, b);
    LowDigits(a);
  }

  lemma SameSubcluster(r: Radix, brk: nat, a: nat, b: nat)
    requires RadixOk(r, brk)
    requires SubclusterOf(r, brk, a) == SubclusterOf(r, brk, b) != 0
    ensures ClusterId(a) == ClusterId(b) < ID_LIMIT && SubclusterIndex(a) == SubclusterIndex(b)
  {
    ClusterOfSpec(r, brk, a);
    ClusterOfSpec(r, brk, b);
    AddressDigits(a);
    AddressDigits(b);
    SlotsDiffer(r.subclusters, (ClusterOf(r, brk, a), SubclusterIndex(a)),
                (ClusterOf(r, brk, b), SubclusterIndex(b)));
  }

  // ---------- new tables ----------

  /** Sixteen null pointers of a new object p. */
  function Zeros(p: nat): map<(nat, nat), nat> {
    map i: nat | i < 16 :: (p, i) := 0
  }

  /** A new cluster at the front of its bucket. */
  function WithCluster(r: Radix, c: nat, id: nat): Radix
    requires |r.buckets| == K_CLUSTER_HASH_TABLE_SIZE
  {
    var i := id % K_CLUSTER_HASH_TABLE_SIZE;
    r.(buckets := r.buckets[i := [c] + r.buckets[i]], ids := r.ids[c := id],
       subclusters := r.subclusters + Zeros(c))
  }

  function WithSubcluster(r: Radix, c: nat, i: nat, s: nat): Radix {
    r.(subclusters := r.subclusters[(c, i) := s], pages := r.pages + Zeros(s))
  }

  function WithPage(r: Radix, s: nat, i: nat, p: nat): Radix {
    r.(pages := r.pages[(s, i) := p])
  }

  lemma InjectiveWithZeros(m: map<(nat, nat), nat>, p: nat)
    requires Injective(m) && forall q :: q in m ==> q.0 != p
    ensures Injective(m + Zeros(p))
  {
    var m' := m + Zeros(p);
    forall i, j | i in m' && j in m' && Slot(m', i) == Slot(m', j) != 0 ensures i == j {
      SlotsDiffer(m, i, j);
    }
  }

  lemma InjectiveWith(m: map<(nat, nat), nat>, q: (nat, nat), v: nat)
    requires Injective(m) && forall j :: j in m ==> m[j] != v
    ensures Injective(m[q := v])
  {
    var m' := m[q := v];
    forall i, j | i in m' && j in m' && Slot(m', i) == Slot(m', j) != 0 ensures i == j {
      if i != q && j != q {
        SlotsDiffer(m, i, j);
      }
    }
  }

  lemma WithClusterOk(r: Radix, brk: nat, c: nat, id: nat)
    requires RadixOk(r, brk) && 0 < brk <= c && id < ID_LIMIT
    ensures RadixOk(WithCluster(r, c, id), c + 1)
  {
    WithClusterBuckets(r, brk, c, id);
    WithClusterSlots(r, c, id);
    WithClusterBounds(r, brk, c, id);
    InjectiveWithZeros(r.subclusters, c);
  }

  lemma WithClusterBuckets(r: Radix, brk: nat, c: nat, id: nat)
    requires BucketsOk(r) && BoundsOk(r, brk) && 0 < brk <= c
    ensures BucketsOk(WithCluster(r, c, id))
  {
    var r' := WithCluster(r, c, id);
    forall i: nat | i < |r'.buckets| ensures BucketOk(r', i) {
      assert BucketOk(r, i);
    }
  }

  lemma WithClusterSlots(r: Radix, c: nat, id: nat)
    requires SlotsOk(r) && |r.buckets| == K_CLUSTER_HASH_TABLE_SIZE
    ensures SlotsOk(WithCluster(r, c, id))
  {
  }

  lemma WithClusterBounds(r: Radix, brk: nat, c: nat, id: nat)
    requires BoundsOk(r, brk) && 0 < brk <= c && id < ID_LIMIT && |r.buckets| == K_CLUSTER_HASH_TABLE_SIZE
    ensures BoundsOk(WithCluster(r, c, id), c + 1)
  {
  }

  lemma ClusterFound(r: Radix, brk: nat, c: nat, id: nat, a: nat)
    requires RadixOk(r, brk) && 0 < brk <= c && id < ID_LIMIT
    requires RadixOk(WithCluster(r, c, id), c + 1)
    ensures ClusterOf(WithCluster(r, c, id), c + 1, a) == if ClusterId(a) == id then c else ClusterOf(r, brk, a)
  {
    var r' := WithCluster(r, c, id);
    var i := ClusterId(a) % K_CLUSTER_HASH_TABLE_SIZE;
    assert BucketOk(r, i) && BucketOk(r', i);
    if i == id % K_CLUSTER_HASH_TABLE_SIZE {
      assert r'.buckets[i][1..] == r.buckets[i];
    }
    SameIds(r.buckets[i], r.ids, r'.ids, ClusterId(a));
  }

  /** The new cluster takes over every address with its id; none of them finds a page. */
  lemma WithClusterPages(r: Radix, brk: nat, c: nat, id: nat, a: nat)
    requires RadixOk(r, brk) && 0 < brk <= c && id < ID_LIMIT
    requires RadixOk(WithCluster(r, c, id), c + 1)
    ensures var r' := WithCluster(r, c, id);
      && ClusterOf(r', c + 1, a) == (if ClusterId(a) == id then c else ClusterOf(r, brk, a))
      && PageOf(r', c + 1, a) == (if ClusterId(a) == id then 0 else PageOf(r, brk, a))
  {
    ClusterFound(r, brk, c, id, a);
    ClusterOfSpec(r, brk, a);
    AddressDigits(a);
  }

  lemma {:induction false} SameIds(bucket: seq<nat>, ids: map<nat, nat>, ids': map<nat, nat>, id: nat)
    requires forall k :: 0 <= k < |bucket| ==>
      bucket[k] in ids && bucket[k] in ids' && ids[bucket[k]] == ids'[bucket[k]]
    ensures FindCluster(bucket, ids, id) == FindCluster(bucket, ids', id)
  {
    if bucket != [] {
      SameIds(bucket[1..], ids, ids', id);
    }
  }

  lemma BucketsKept(r: Radix, r': Radix)
    requires BucketsOk(r) && r'.buckets == r.buckets && r'.ids == r.ids
    ensures BucketsOk(r')
  {
    forall i: nat | i < |r'.buckets| ensures BucketOk(r', i) {
      assert BucketOk(r, i);
    }
  }

  lemma WithSubclusterSlots(r: Radix, c: nat, i: nat, s: nat)
    requires SlotsOk(r) && i < 16
    ensures SlotsOk(WithSubcluster(r, c, i, s))
  {
  }

  lemma WithSubclusterOk(r: Radix, brk: nat, c: nat, i: nat, s: nat)
    requires RadixOk(r, brk) && 0 < brk <= s
    requires c in r.ids && i < 16 && r.subclusters[(c, i)] == 0
    ensures RadixOk(WithSubcluster(r, c, i, s), s + 1)
  {
    var r' := WithSubcluster(r, c, i, s);
    BucketsKept(r, r');
    WithSubclusterSlots(r, c, i, s);
    InjectiveWith(r.subclusters, (c, i), s);
    InjectiveWithZeros(r.pages, s);
  }

  /** A new subcluster changes no lookup: it has no pages. */
  lemma WithSubclusterPages(r: Radix, brk: nat, c: nat, i: nat, s: nat, a: nat)
    requires RadixOk(r, brk) && 0 < brk <= s
    requires c in r.ids && i < 16 && r.subclusters[(c, i)] == 0
    requires RadixOk(WithSubcluster(r, c, i, s), s + 1)
    ensures var r' := WithSubcluster(r, c, i, s);
      && ClusterOf(r', s + 1, a) == ClusterOf(r, brk, a)
      && PageOf(r', s + 1, a) == PageOf(r, brk, a)
  {
    ClusterOfSpec(r, brk, a);
    AddressDigits(a);
  }

  lemma WithPageOk(r: Radix, brk: nat, s: nat, i: nat, p: nat)
    requires RadixOk(r, brk) && 0 < brk <= p
    requires (s, i) in r.pages && r.pages[(s, i)] == 0
    ensures RadixOk(WithPage(r, s, i, p), p + 1)
  {
    BucketsKept(r, WithPage(r, s, i, p));
    InjectiveWith(r.pages, (s, i), p);
  }

  /** A new page is found by exactly the addresses that lead to its slot. */
  lemma WithPagePages(r: Radix, brk: nat, s: nat, i: nat, p: nat, a: nat)
    requires RadixOk(r, brk) && 0 < brk <= p
    requires s != 0 && (s, i) in r.pages && r.pages[(s, i)] == 0
    requires RadixOk(WithPage(r, s, i, p), p + 1)
    ensures var r' := WithPage(r, s, i, p);
      && SubclusterOf(r', p + 1, a) == SubclusterOf(r, brk, a)
      && PageOf(r', p + 1, a) ==
           (if SubclusterOf(r, brk, a) == s && PageIndex(a) == i then p else PageOf(r, brk, a))
  {
    ClusterOfSpec(r, brk, a);
    AddressDigits(a);
  }

  lemma PageNumber(a: nat)
    ensures a / K_PAGE_SIZE == ClusterId(a) * 256 + SubclusterIndex(a) * 16 + PageIndex(a)
  {
    AddressDigits(a);
    DivModUnique(a, K_PAGE_SIZE, ClusterId(a) * 256 + SubclusterIndex(a) * 16 + PageIndex(a),
                 BlockIndex(a) * K_BLOCK_SIZE + Offset(a));
  }

  lemma SamePageDigits(a: nat, b: nat)
    ensures a / K_PAGE_SIZE == b / K_PAGE_SIZE <==>
      ClusterId(a) == ClusterId(b) && SubclusterIndex(a) == SubclusterIndex(b) && PageIndex(a) == PageIndex(b)
  {
    PageNumber(a);
    PageNumber(b);
    AddressDigits(a);
    AddressDigits(b);
  }
}
