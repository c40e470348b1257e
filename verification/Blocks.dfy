/**
 The geometry of an arena (base/low_level_alloc.cc): blocks, the bytes they cover, the
 mapped regions, and what coalescing and splitting do to them.  Everything here is about
 values; the Arena class applies it to its own state.
 */
module Blocks {
  import opened SkiplistLevels
  import opened Skiplist

  // ---------- addresses and sizes ----------

  /** The least multiple of align that is not below addr. */
  function RoundUp(addr: int, align: int): int
    requires 0 < align
  {
    (addr + align - 1) / align * align
  }

  // ---------- block geometry ----------

  /** Blocks are aligned, big enough, and pairwise disjoint. */
  ghost predicate BlocksOk(bs: set<int>, size: map<int, int>) {
    && bs <= size.Keys
    && (forall b :: b in bs ==> 0 < b && b % 32 == 0 && 64 <= size[b] && size[b] % 32 == 0)
    && (forall a, b :: a in bs && b in bs && a < b ==> a + size[a] <= b)
  }

  /** Byte x belongs to one of the blocks. */
  ghost predicate Covers(bs: set<int>, size: map<int, int>, x: int)
    requires bs <= size.Keys
  {
    exists b :: b in bs && b <= x < b + size[b]
  }

  /** Byte x belongs to a region obtained from mmap. */
  ghost predicate Mapped(regions: set<(int, int)>, x: int) {
    exists r :: r in regions && r.0 <= x < r.0 + r.1
  }

  /** The blocks cover exactly the mapped bytes. */
  ghost predicate Tiles(bs: set<int>, size: map<int, int>, regions: set<(int, int)>)
    requires bs <= size.Keys
  {
    forall x :: Covers(bs, size, x) <==> Mapped(regions, x)
  }

  ghost predicate SameSizes(bs: set<int>, size: map<int, int>, size': map<int, int>) {
    && bs <= size.Keys && bs <= size'.Keys
    && forall b :: b in bs ==> size[b] == size'[b]
  }

  /** No two blocks are adjacent. */
  ghost predicate Coalesced(bs: set<int>, size: map<int, int>)
    requires bs <= size.Keys
  {
    forall a, b :: a in bs && b in bs ==> a + size[a] != b
  }

  /** Every free block has at least the levels its size calls for, and has room for them. */
  ghost predicate LevelsFit(free: set<int>, size: map<int, int>, levels: map<int, int>)
    requires free <= size.Keys && free <= levels.Keys
  {
    forall b :: b in free ==> LevelFits(size[b], levels[b])
  }

  /** Merging block n into its predecessor a keeps the blocks well-formed. */
  lemma MergeBlocks(bs: set<int>, size: map<int, int>, a: int, n: int)
    requires BlocksOk(bs, size)
    requires a in bs && n in bs && a + size[a] == n
    ensures BlocksOk(bs - {n}, size[a := size[a] + size[n]])
  {
  }

  /** A block that has just been given a suitable level count fits. */
  lemma RelevelFits(free: set<int>, size: map<int, int>, levels: map<int, int>,
                    a: int, length: int, levels': map<int, int>)
    requires free <= size.Keys && free <= levels.Keys && HEAD !in free && HEAD in levels'
    requires LevelsFit(free - {a}, size, levels)
    requires a in levels' && levels' == levels[a := levels'[a]][HEAD := levels'[HEAD]]
    requires LevelFits(length, levels'[a])
    ensures LevelsFit(free, size[a := length], levels')
  {
  }

  /** Block a takes over its successor n. */
  ghost function Merged(s: Space, a: int, n: int): Space
    requires a in s.size && n in s.size
  {
    Space(s.free - {n}, s.size[a := s.size[a] + s.size[n]])
  }

  /** The level-0 successor of a decides whether there is anything to merge a with. */
  lemma SuccessorDecides(s: Space, levels: map<int, int>, a: int, n: int)
    requires s.Ok() && s.free <= levels.Keys && forall b :: b in s.free ==> 1 <= levels[b]
    requires IsNext(s.free, levels, a, 0, n)
    requires a in s.free || (a == HEAD && a in s.size && s.size[a] == 0)
    ensures n != NULL && a + s.size[a] == n ==>
      a in s.free && n in s.free && a != n && s.CoalesceAt(a) == Merged(s, a, n)
    ensures !(n != NULL && a + s.size[a] == n) ==> s.CoalesceAt(a) == s
  {
  }

  /** The free blocks and the sizes in all headers. */
  datatype Space = Space(free: set<int>, size: map<int, int>) {
    ghost predicate Ok() {
      BlocksOk(free, size)
    }

    /** Block a takes over its free successor, if it has one. */
    ghost function CoalesceAt(a: int): Space
      requires Ok()
    {
      if a in free && a + size[a] in free then
        Space(free - {a + size[a]}, size[a := size[a] + size[a + size[a]]])
      else
        this
    }

    /** The sizes after cutting block a in two at a + req. */
    ghost function SplitAt(a: int, req: int): Space
      requires a in size
    {
      Space(free, size[a + req := size[a] - req][a := req])
    }

    /** p is the last block below f, or the list head. */
    ghost predicate IsPredecessor(f: int, p: int) {
      && (p == HEAD || p in free)
      && p < f
      && forall b :: b in free && p < b ==> f <= b
    }
  }

  /** Merging a block with its successor does not change which bytes are free. */
  lemma CoalesceAtCovers(s: Space, a: int, x: int)
    requires s.Ok()
    ensures s.CoalesceAt(a).Ok()
    ensures Covers(s.CoalesceAt(a).free, s.CoalesceAt(a).size, x) <==> Covers(s.free, s.size, x)
  {
    var t := s.CoalesceAt(a);
    if a in s.free && a + s.size[a] in s.free {
      var n := a + s.size[a];
      MergeBlocks(s.free, s.size, a, n);
      if b :| b in s.free && b <= x < b + s.size[b] {
        assert b == a || b == n ==> a in t.free && a <= x < a + t.size[a];
        assert b != a && b != n ==> b in t.free && b <= x < b + t.size[b];
      }
      if b :| b in t.free && b <= x < b + t.size[b] {
        assert b == a && n <= x ==> n in s.free && n <= x < n + s.size[n];
        assert b == a && x < n ==> a in s.free && a <= x < a + s.size[a];
      }
    }
  }

  /** What AddToFreelist does to the free space: put block f in, merge it with its successor,
      then merge its predecessor with it. */
  ghost function AddBlock(s: Space, f: int, p: int): Space
    requires Space(s.free + {f}, s.size).Ok()
    requires Space(s.free + {f}, s.size).CoalesceAt(f).Ok()
  {
    Space(s.free + {f}, s.size).CoalesceAt(f).CoalesceAt(p)
  }

  /** A coalesced list plus one disjoint block becomes a coalesced list that covers exactly
      the union of the bytes, with the new block inside a single block. */
  lemma AddBlockCoalesces(s: Space, f: int, p: int)
    requires Space(s.free + {f}, s.size).Ok() && f !in s.free
    requires Space(s.free + {f}, s.size).CoalesceAt(f).Ok()
    requires Coalesced(s.free, s.size)
    requires s.IsPredecessor(f, p)
    ensures var t := AddBlock(s, f, p);
      && t.Ok()
      && Coalesced(t.free, t.size)
      && (exists b :: b in t.free && b <= f && f + s.size[f] <= b + t.size[b])
  {
    var s1 := Space(s.free + {f}, s.size);
    var s2 := s1.CoalesceAt(f);
    var t := s2.CoalesceAt(p);
    assert f in s2.free && f + s.size[f] <= f + s2.size[f];
    forall a, b | a in s2.free && b in s2.free && a + s2.size[a] == b
      ensures a == p && b == f
    {
      assert a != f;
      assert b == f;
      assert a <= p;
    }
    if p in s2.free && p + s2.size[p] == f {
      MergeBlocks(s2.free, s2.size, p, f);
      assert p in t.free && p <= f && f + s.size[f] <= p + t.size[p];
    } else {
      assert t == s2;
      assert f in t.free && f <= f && f + s.size[f] <= f + t.size[f];
    }
  }

  /** From s to t, exactly the bytes of block f have become free, and they lie in one block. */
  ghost predicate Released(s: Space, f: int, t: Space) {
    && s.free <= s.size.Keys && t.free <= t.size.Keys && f in s.size
    && (forall x :: Covers(t.free, t.size, x)
          <==> Covers(s.free, s.size, x) || f <= x < f + s.size[f])
    && (exists b :: b in t.free && b <= f && f + s.size[f] <= b + t.size[b])
  }

  lemma AddBlockCovers(s: Space, f: int, p: int, x: int)
    requires Space(s.free + {f}, s.size).Ok() && f !in s.free
    requires Space(s.free + {f}, s.size).CoalesceAt(f).Ok()
    ensures Covers(AddBlock(s, f, p).free, AddBlock(s, f, p).size, x)
      <==> Covers(s.free, s.size, x) || f <= x < f + s.size[f]
  {
    var s1 := Space(s.free + {f}, s.size);
    CoalesceAtCovers(s1, f, x);
    CoalesceAtCovers(s1.CoalesceAt(f), p, x);
    if Covers(s1.free, s1.size, x) {
      var b :| b in s1.free && b <= x < b + s1.size[b];
      assert b != f ==> b in s.free && b <= x < b + s.size[b];
    }
    if f <= x < f + s.size[f] {
      assert f in s1.free && f <= x < f + s1.size[f];
    }
    if Covers(s.free, s.size, x) {
      var b :| b in s.free && b <= x < b + s.size[b];
      assert b in s1.free && b <= x < b + s1.size[b];
    }
  }

  lemma AddBlockReleases(s: Space, f: int, p: int)
    requires Space(s.free + {f}, s.size).Ok() && f !in s.free
    requires Space(s.free + {f}, s.size).CoalesceAt(f).Ok()
    requires Coalesced(s.free, s.size)
    requires s.IsPredecessor(f, p)
    ensures var t := AddBlock(s, f, p);
      t.Ok() && Coalesced(t.free, t.size) && Released(s, f, t)
  {
    AddBlockCoalesces(s, f, p);
    forall x { AddBlockCovers(s, f, p, x); }
  }

  // ---------- regions ----------

  predicate PageAligned(r: (int, int), page: int)
    requires 0 < page
  {
    r.0 % page == 0 && r.1 % page == 0
  }

  /** Regions are page-aligned and pairwise disjoint. */
  ghost predicate RegionsOk(regions: set<(int, int)>, page: int) {
    && 0 < page
    && (forall r :: r in regions ==> 0 < r.0 && 0 < r.1)
    && (forall r {:trigger PageAligned(r, page)} :: r in regions ==> PageAligned(r, page))
    && (forall q, r :: q in regions && r in regions && q.0 < r.0 ==> q.0 + q.1 <= r.0)
    && (forall q, r :: q in regions && r in regions && q.0 == r.0 ==> q == r)
  }

  /** What mmap promises about a new region. */
  predicate FreshRegion(regions: set<(int, int)>, page: int, base: int, length: int) {
    && 0 < page && 0 < base && base % page == 0
    && forall r :: r in regions ==> r.0 + r.1 <= base || base + length <= r.0
  }

  lemma RegionsBounded(regions: set<(int, int)>) returns (top: int)
    ensures 0 < top
    ensures forall r :: r in regions ==> r.0 + r.1 <= top
  {
    top := 1;
    var rest := regions;
    while rest != {}
      invariant rest <= regions && 0 < top
      invariant forall r :: r in regions - rest ==> r.0 + r.1 <= top
    {
      var r :| r in rest;
      rest := rest - {r};
      if top < r.0 + r.1 {
        top := r.0 + r.1;
      }
    }
  }

  lemma ProductAtLeast(d: int, page: int)
    requires 1 <= d && 1 <= page
    ensures d <= d * page && page <= d * page
  {
    assert 0 <= (d - 1) * (page - 1);
  }

  lemma SmallMultipleIsZero(d: int, page: int)
    requires 0 <= d * page < page
    ensures d == 0
  {
    if d >= 1 {
      ProductAtLeast(d, page);
    } else if d <= -1 {
      ProductAtLeast(-d, page);
    }
  }

  lemma MultipleIsDivisible(k: int, page: int)
    requires 0 < page
    ensures (k * page) % page == 0
  {
    var q, r := (k * page) / page, (k * page) % page;
    assert k * page == q * page + r;
    assert (k - q) * page == r;
    SmallMultipleIsZero(k - q, page);
  }

  /** A region disjoint from all earlier ones always exists. */
  lemma SomeFreshRegion(regions: set<(int, int)>, page: int, length: int)
    requires 0 < page
    ensures exists base :: FreshRegion(regions, page, base, length)
  {
    var top := RegionsBounded(regions);
    MultipleIsDivisible(top, page);
    ProductAtLeast(top, page);
    assert FreshRegion(regions, page, top * page, length);
  }

  /** mmap of length bytes, anywhere that is not mapped yet. */
  method Mmap(regions: set<(int, int)>, page: int, length: int) returns (base: int)
    requires 0 < page
    ensures FreshRegion(regions, page, base, length)
  {
    SomeFreshRegion(regions, page, length);
    base :| FreshRegion(regions, page, base, length);
  }

  lemma RoundUpIsLeastMultiple(addr: int, align: int)
    requires 0 < align
    ensures RoundUp(addr, align) % align == 0
    ensures addr <= RoundUp(addr, align) < addr + align
  {
    MultipleIsDivisible((addr + align - 1) / align, align);
  }

  // ---------- splitting and releasing ----------

  lemma CoversUnion(a: set<int>, b: set<int>, size: map<int, int>, x: int)
    requires a <= size.Keys && b <= size.Keys
    ensures Covers(a + b, size, x) <==> Covers(a, size, x) || Covers(b, size, x)
  {
    if Covers(a + b, size, x) {
      var c :| c in a + b && c <= x < c + size[c];
      assert c in a || c in b;
    }
    if Covers(a, size, x) {
      var c :| c in a && c <= x < c + size[c];
      assert c in a + b;
    }
    if Covers(b, size, x) {
      var c :| c in b && c <= x < c + size[c];
      assert c in a + b;
    }
  }

  lemma CoversSame(bs: set<int>, size: map<int, int>, size': map<int, int>, x: int)
    requires SameSizes(bs, size, size')
    ensures Covers(bs, size, x) <==> Covers(bs, size', x)
  {
    if Covers(bs, size, x) {
      var b :| b in bs && b <= x < b + size[b];
      assert b in bs && b <= x < b + size'[b];
    }
    if Covers(bs, size', x) {
      var b :| b in bs && b <= x < b + size'[b];
      assert b in bs && b <= x < b + size[b];
    }
  }

  /** Releasing block f moves its bytes from the used to the free blocks. */
  lemma ReleaseKeepsBytes(s: Space, t: Space, used: set<int>, f: int, x: int)
    requires Released(s, f, t) && f in used
    requires used <= s.size.Keys && SameSizes(used - {f}, s.size, t.size)
    ensures Covers(t.free + (used - {f}), t.size, x) <==> Covers(s.free + used, s.size, x)
  {
    CoversUnion(t.free, used - {f}, t.size, x);
    CoversUnion(s.free, used, s.size, x);
    CoversSame(used - {f}, s.size, t.size, x);
    if Covers(used, s.size, x) {
      var b :| b in used && b <= x < b + s.size[b];
      assert b != f ==> b in used - {f};
    }
    if Covers(used - {f}, s.size, x) {
      var b :| b in used - {f} && b <= x < b + s.size[b];
      assert b in used;
    }
  }

  lemma ReleaseKeepsTiles(s: Space, t: Space, used: set<int>, f: int, regions: set<(int, int)>)
    requires Released(s, f, t) && f in used
    requires used <= s.size.Keys && SameSizes(used - {f}, s.size, t.size)
    requires Tiles(s.free + used, s.size, regions)
    ensures Tiles(t.free + (used - {f}), t.size, regions)
  {
    forall x ensures Covers(t.free + (used - {f}), t.size, x) <==> Mapped(regions, x) {
      ReleaseKeepsBytes(s, t, used, f, x);
    }
  }

  // ---------- first fit ----------

  /** s is the lowest-addressed free block of at least req bytes. */
  ghost predicate FirstFit(sp: Space, req: int, s: int)
    requires sp.free <= sp.size.Keys
  {
    && s in sp.free && req <= sp.size[s]
    && forall b :: b in sp.free && b < s ==> sp.size[b] < req
  }

  ghost predicate NoFit(sp: Space, req: int)
    requires sp.free <= sp.size.Keys
  {
    forall b :: b in sp.free ==> sp.size[b] < req
  }

  /** Every free block up to p is smaller than req. */
  ghost predicate SmallUpTo(sp: Space, req: int, p: int)
    requires sp.free <= sp.size.Keys
  {
    forall b :: b in sp.free && b <= p ==> sp.size[b] < req
  }

  /** A block that is not on level i is too small, when i is below the level count that
      every block of req bytes has. */
  lemma BelowLevelIsSmall(sp: Space, levels: map<int, int>, req: int, i: int)
    requires sp.Ok() && sp.free <= levels.Keys && LevelsFit(sp.free, sp.size, levels)
    requires 64 <= req && i < Levels(req, 64, 1)
    ensures forall b :: b in sp.free && levels[b] <= i ==> sp.size[b] < req
  {
    forall b | b in sp.free && levels[b] <= i ensures sp.size[b] < req {
      FewLevelsMeansSmall(sp.size[b], levels[b], req);
    }
  }

  /** With no block on level i or above, nothing fits. */
  lemma NoBlockOnLevel(sp: Space, levels: map<int, int>, req: int, i: int)
    requires sp.Ok() && LevelsOk(sp.free, levels) && levels[HEAD] <= i
    requires forall b :: b in sp.free && levels[b] <= i ==> sp.size[b] < req
    ensures NoFit(sp, req)
  {
  }

  /** One step of a scan along level i, from p to its successor n on that level. */
  lemma ScanStep(sp: Space, levels: map<int, int>, req: int, i: int, p: int, n: int)
    requires sp.Ok() && sp.free <= levels.Keys
    requires forall b :: b in sp.free && levels[b] <= i ==> sp.size[b] < req
    requires SmallUpTo(sp, req, p)
    requires IsNext(sp.free, levels, p, i, n)
    ensures n == NULL ==> NoFit(sp, req)
    ensures n != NULL && sp.size[n] < req ==> SmallUpTo(sp, req, n)
    ensures n != NULL && req <= sp.size[n] ==> FirstFit(sp, req, n)
  {
    assert forall b :: b in sp.free && p < b && (n == NULL || b < n) ==> levels[b] <= i;
  }

  /** The plain scan that the search has to agree with: the first block of the list that is
      big enough, or NULL. */
  function Scan(list: seq<int>, size: map<int, int>, req: int): int
    requires forall k :: 0 <= k < |list| ==> list[k] in size
  {
    if list == [] then NULL
    else if req <= size[list[0]] then list[0]
    else Scan(list[1..], size, req)
  }

  lemma {:induction false} ScanFindsFirst(list: seq<int>, size: map<int, int>, req: int)
    requires forall k :: 0 <= k < |list| ==> list[k] in size && list[k] != NULL
    requires StrictlySorted(list)
    ensures var s := Scan(list, size, req);
      if s == NULL then forall k :: 0 <= k < |list| ==> size[list[k]] < req
      else
        exists k :: 0 <= k < |list| && s == list[k] && req <= size[s] &&
          forall j :: 0 <= j < k ==> size[list[j]] < req
  {
    if list != [] && size[list[0]] < req {
      ScanFindsFirst(list[1..], size, req);
      var s := Scan(list[1..], size, req);
      if s != NULL {
        var k :| 0 <= k < |list[1..]| && s == list[1..][k] && req <= size[s] &&
          forall j :: 0 <= j < k ==> size[list[1..][j]] < req;
        assert s == list[k + 1];
        assert forall j :: 0 < j < k + 1 ==> list[j] == list[1..][j - 1];
      } else {
        assert forall j :: 0 < j < |list| ==> list[j] == list[1..][j - 1];
      }
    }
  }

  /** A sorted list of exactly the free blocks. */
  ghost predicate ListsFree(sp: Space, list: seq<int>) {
    && StrictlySorted(list)
    && (forall k :: 0 <= k < |list| ==> list[k] in sp.free)
    && (forall b :: b in sp.free ==> b in list)
  }

  lemma ScanIsFirstFit(sp: Space, list: seq<int>, req: int)
    requires sp.Ok() && ListsFree(sp, list)
    ensures Scan(list, sp.size, req) == NULL <==> NoFit(sp, req)
    ensures forall s :: s != NULL ==> (Scan(list, sp.size, req) == s <==> FirstFit(sp, req, s))
  {
    ScanFindsFirst(list, sp.size, req);
    forall b | b in sp.free ensures exists k :: 0 <= k < |list| && list[k] == b {
      assert b in list;
    }
  }

  /** First fit is what a scan of the whole free list from its lowest address finds. */
  lemma FirstFitIsScan(sp: Space, levels: map<int, int>, next: map<(int, int), int>, req: int)
    requires sp.Ok() && SkiplistOk(sp.free, levels, next)
    ensures HasSlot(sp.free, levels, HEAD, 0)
    ensures var list := Chain(sp.free, levels, next, HEAD, 0);
      && (forall k :: 0 <= k < |list| ==> list[k] in sp.free)
      && (Scan(list, sp.size, req) == NULL <==> NoFit(sp, req))
      && (forall s :: s != NULL ==> (Scan(list, sp.size, req) == s <==> FirstFit(sp, req, s)))
  {
    assert HasSlot(sp.free, levels, HEAD, 0);
    ChainIsSortedLevel(sp.free, levels, next, HEAD, 0);
    var list := Chain(sp.free, levels, next, HEAD, 0);
    assert forall k :: 0 <= k < |list| ==> list[k] in list;
    ScanIsFirstFit(sp, list, req);
  }

  // ---------- new regions and splitting ----------

  /** A fresh region is disjoint from every block, so it can become a block itself. */
  lemma RegionBecomesBlock(bs: set<int>, size: map<int, int>, regions: set<(int, int)>,
                           page: int, base: int, length: int)
    requires BlocksOk(bs, size) && Tiles(bs, size, regions)
    requires FreshRegion(regions, page, base, length)
    requires base % 32 == 0 && 64 <= length && length % 32 == 0
    ensures base !in bs
    ensures BlocksOk(bs + {base}, size[base := length])
  {
    forall b | b in bs
      ensures b + size[b] <= base || base + length <= b
    {
      var x := if b <= base then base else b;
      if x < base + length {
        assert !Mapped(regions, x);
        assert !Covers(bs, size, x);
      }
    }
  }

  lemma RegionBlockTiles(bs: set<int>, size: map<int, int>, regions: set<(int, int)>,
                         base: int, length: int)
    requires bs <= size.Keys && base !in bs && Tiles(bs, size, regions)
    ensures Tiles(bs + {base}, size[base := length], regions + {(base, length)})
  {
    var size', regions' := size[base := length], regions + {(base, length)};
    forall x ensures Covers(bs + {base}, size', x) <==> Mapped(regions', x) {
      CoversUnion(bs, {base}, size', x);
      CoversSame(bs, size, size', x);
      assert Covers({base}, size', x) <==> base <= x < base + length by {
        assert base in {base};
      }
      if Mapped(regions, x) {
        var r :| r in regions && r.0 <= x < r.0 + r.1;
        assert r in regions';
      }
      assert (base, length) in regions';
    }
  }

  /** Cutting block s in two at n = s + req. */
  lemma SplitBlock(bs: set<int>, size: map<int, int>, s: int, req: int)
    requires BlocksOk(bs, size) && s in bs
    requires 64 <= req && req % 32 == 0 && req + 64 <= size[s]
    ensures s + req !in bs
    ensures BlocksOk(bs + {s + req}, size[s + req := size[s] - req][s := req])
  {
  }

  lemma SplitCovers(bs: set<int>, size: map<int, int>, s: int, req: int, x: int)
    requires BlocksOk(bs, size) && s in bs
    requires 64 <= req && req % 32 == 0 && req + 64 <= size[s]
    ensures Covers(bs + {s + req}, size[s + req := size[s] - req][s := req], x)
      <==> Covers(bs, size, x)
  {
    var n := s + req;
    var bs', size' := bs + {n}, size[n := size[s] - req][s := req];
    if Covers(bs, size, x) {
      var b :| b in bs && b <= x < b + size[b];
      assert b in bs' && n in bs';
      assert b != s ==> b <= x < b + size'[b];
      assert b == s ==> s <= x < s + size'[s] || n <= x < n + size'[n];
    }
    if Covers(bs', size', x) {
      var b :| b in bs' && b <= x < b + size'[b];
      if b == n || b == s {
        assert s in bs && s <= x < s + size[s];
      } else {
        assert b in bs && b <= x < b + size[b];
      }
    }
  }

  /** From s to t, exactly the bytes of region r have become free, and they lie in one block. */
  ghost predicate FreePlusRegion(s: Space, r: (int, int), t: Space) {
    && s.free <= s.size.Keys && t.free <= t.size.Keys
    && (forall x :: Covers(t.free, t.size, x) <==> Covers(s.free, s.size, x) || r.0 <= x < r.0 + r.1)
    && (exists b :: b in t.free && b <= r.0 && r.0 + r.1 <= b + t.size[b])
  }

  /** Page-aligned addresses and lengths of whole 16-page chunks suit the block alignment. */
  lemma PagesAreBlockSized(page: int, base: int, length: int)
    requires 0 < page && page % 32 == 0
    requires base % page == 0 && length % (page * 16) == 0
    ensures base % 32 == 0 && length % 32 == 0 && length % page == 0
  {
    var k := page / 32;
    var b, l := base / page, length / (page * 16);
    assert base == 32 * (k * b);
    assert length == page * (16 * l) == 32 * (k * (16 * l));
    MultipleIsDivisible(16 * l, page);
  }

  /** Releasing a whole region that has just been made a block. */
  lemma ReleasedRegion(s: Space, base: int, length: int, t: Space)
    requires s.Ok() && base !in s.free
    requires Released(Space(s.free, s.size[base := length]), base, t)
    ensures FreePlusRegion(s, (base, length), t)
  {
    var r := (base, length);
    forall x ensures Covers(t.free, t.size, x) <==> Covers(s.free, s.size, x) || r.0 <= x < r.0 + r.1 {
      CoversSame(s.free, s.size, s.size[base := length], x);
    }
  }

  /** One more region: req bytes, rounded up to a multiple of sixteen pages. */
  predicate RegionAdded(regions: set<(int, int)>, page: int, req: int, r: (int, int), regions': set<(int, int)>) {
    && r !in regions && regions' == regions + {r}
    && 0 < page && req <= r.1 && r.1 == RoundUp(req, page * 16)
  }

  lemma AddRegion(regions: set<(int, int)>, req: int, page: int, base: int, length: int)
    requires RegionsOk(regions, page) && FreshRegion(regions, page, base, length)
    requires 0 < req <= length && length % page == 0 && length == RoundUp(req, page * 16)
    ensures RegionsOk(regions + {(base, length)}, page)
    ensures RegionAdded(regions, page, req, (base, length), regions + {(base, length)})
  {
  }

  /** A block of the given length can be added at s, and then the blocks tile the regions. */
  ghost predicate NewBlock(bs: set<int>, size: map<int, int>, s: int, length: int,
                           regions: set<(int, int)>) {
    && s !in bs
    && BlocksOk(bs + {s}, size[s := length])
    && Tiles(bs + {s}, size[s := length], regions)
  }

  lemma NewRegionIsBlock(bs: set<int>, size: map<int, int>, regions: set<(int, int)>,
                         page: int, req: int, base: int)
    requires BlocksOk(bs, size) && Tiles(bs, size, regions) && RegionsOk(regions, page)
    requires page % 32 == 0 && 64 <= req
    requires FreshRegion(regions, page, base, RoundUp(req, page * 16))
    ensures var length := RoundUp(req, page * 16);
      && RegionsOk(regions + {(base, length)}, page)
      && RegionAdded(regions, page, req, (base, length), regions + {(base, length)})
      && NewBlock(bs, size, base, length, regions + {(base, length)})
  {
    var length := RoundUp(req, page * 16);
    RoundUpIsLeastMultiple(req, page * 16);
    PagesAreBlockSized(page, base, length);
    RegionBecomesBlock(bs, size, regions, page, base, length);
    RegionBlockTiles(bs, size, regions, base, length);
    AddRegion(regions, req, page, base, length);
  }

  // ---------- carving out an allocation ----------

  /** From s to t, exactly the bytes of the new block a are no longer free; a is req bytes,
      or takes the whole free block if less than a minimal block would be left over. */
  ghost predicate Carved(s: Space, a: int, req: int, t: Space) {
    && s.free <= s.size.Keys && t.free <= t.size.Keys && a in s.free && a in t.size
    && t.size[a] == (if req + 64 <= s.size[a] then req else s.size[a])
    && forall x :: Covers(t.free, t.size, x) <==> Covers(s.free, s.size, x) && !(a <= x < a + t.size[a])
  }

  lemma TakeOutCarves(s: Space, a: int, req: int)
    requires s.Ok() && a in s.free && s.size[a] < req + 64
    ensures Carved(s, a, req, Space(s.free - {a}, s.size))
  {
    forall x { TakeOutCovers(s, a, x); }
  }

  lemma SplitCarves(s: Space, a: int, req: int, t: Space)
    requires s.Ok() && a in s.free && 64 <= req && req % 32 == 0 && req + 64 <= s.size[a]
    requires a in t.size && t.size[a] == req
    requires Released(Space(s.free - {a}, s.size).SplitAt(a, req), a + req, t)
    ensures Carved(s, a, req, t)
  {
    var size' := s.SplitAt(a, req).size;
    forall x ensures Covers(t.free, t.size, x)
        <==> Covers(s.free, s.size, x) && !(a <= x < a + req) {
      TakeOutCovers(s, a, x);
      SplitBlock(s.free, s.size, a, req);
      CoversSame(s.free - {a}, s.size, size', x);
    }
  }

  /** Block a, which is not free, has been cut to req bytes if what is left over makes a block;
      what is left over is free. */
  ghost predicate Trimmed(s: Space, a: int, req: int, t: Space) {
    && a in s.size && a in t.size
    && if req + 64 <= s.size[a] then
         t.size[a] == req && Released(s.SplitAt(a, req), a + req, t)
       else
         t == s
  }

  lemma TrimCarves(s: Space, a: int, req: int, t: Space)
    requires s.Ok() && a in s.free && 64 <= req && req % 32 == 0
    requires Trimmed(Space(s.free - {a}, s.size), a, req, t)
    ensures Carved(s, a, req, t)
  {
    if req + 64 <= s.size[a] {
      SplitCarves(s, a, req, t);
    } else {
      TakeOutCarves(s, a, req);
    }
  }

  lemma TakeOutCovers(s: Space, a: int, x: int)
    requires s.Ok() && a in s.free
    ensures Covers(s.free - {a}, s.size, x)
      <==> Covers(s.free, s.size, x) && !(a <= x < a + s.size[a])
    ensures a <= x < a + s.size[a] ==> Covers(s.free, s.size, x)
  {
    if Covers(s.free, s.size, x) && !(a <= x < a + s.size[a]) {
      var b :| b in s.free && b <= x < b + s.size[b];
      assert b in s.free - {a};
    }
    if Covers(s.free - {a}, s.size, x) {
      var b :| b in s.free - {a} && b <= x < b + s.size[b];
      assert b in s.free;
    }
  }

  lemma SplitTiles(bs: set<int>, size: map<int, int>, regions: set<(int, int)>, s: int, req: int)
    requires BlocksOk(bs, size) && s in bs
    requires 64 <= req && req % 32 == 0 && req + 64 <= size[s]
    ensures Tiles(bs, size, regions)
      ==> Tiles(bs + {s + req}, size[s + req := size[s] - req][s := req], regions)
  {
    forall x { SplitCovers(bs, size, s, req, x); }
  }

  /** Where an allocation of req bytes looks: in the free space s if something there is big
      enough, or else in the free space after one mmap. */
  ghost predicate Searched(s: Space, regions: set<(int, int)>, page: int, req: int,
                           t: Space, regions': set<(int, int)>)
    requires s.free <= s.size.Keys
  {
    if NoFit(s, req) then
      exists r :: RegionAdded(regions, page, req, r, regions') && FreePlusRegion(s, r, t)
    else
      t == s && regions' == regions
  }

  /** An allocation of req bytes takes the first fit, a, of the space it searches. */
  ghost predicate AllocatedFrom(s: Space, regions: set<(int, int)>, page: int, req: int, a: int,
                                t: Space, regions': set<(int, int)>)
    requires s.free <= s.size.Keys
  {
    exists mid: Space :: mid.Ok() && Searched(s, regions, page, req, mid, regions')
      && FirstFit(mid, req, a) && Carved(mid, a, req, t)
  }

  /** In plain words: if a free block is big enough, the lowest such block is cut, and no region is
      mapped; else one region is, of req bytes rounded up to sixteen pages, and what is cut is in
      the free space with it.  What is cut off is at least req bytes, and less than 64 more. */
  lemma AllocationIs(s: Space, regions: set<(int, int)>, page: int, req: int, a: int,
                     t: Space, regions': set<(int, int)>)
    requires s.free <= s.size.Keys && AllocatedFrom(s, regions, page, req, a, t, regions')
    ensures a in t.size && req <= t.size[a] < req + 64 && t.free <= t.size.Keys
    ensures if exists b :: b in s.free && req <= s.size[b] then
        && a in s.free && req <= s.size[a] && regions' == regions
        && (forall b :: b in s.free && b < a ==> s.size[b] < req)
        && (forall x :: Covers(t.free, t.size, x) <==> Covers(s.free, s.size, x) && !(a <= x < a + t.size[a]))
      else
        exists r: (int, int) ::
          && r !in regions && regions' == regions + {r} && 0 < page
          && r.1 % (page * 16) == 0 && req <= r.1 < req + page * 16
          && (forall x :: Covers(t.free, t.size, x) <==>
            (Covers(s.free, s.size, x) || r.0 <= x < r.0 + r.1) && !(a <= x < a + t.size[a]))
  {
    var mid: Space :| mid.Ok() && Searched(s, regions, page, req, mid, regions')
      && FirstFit(mid, req, a) && Carved(mid, a, req, t);
    if NoFit(s, req) {
      var r :| RegionAdded(regions, page, req, r, regions') && FreePlusRegion(s, r, mid);
      RoundUpIsLeastMultiple(req, page * 16);
    }
  }

  lemma UserAddressAligned(bs: set<int>, size: map<int, int>, a: int)
    requires BlocksOk(bs, size) && a in bs
    ensures (a + LEVELS_OFFSET) % 32 == 0
  {
  }

  lemma NewRegionFits(s: Space, r: (int, int), t: Space, req: int)
    requires FreePlusRegion(s, r, t) && req <= r.1
    ensures !NoFit(t, req)
  {
  }

  // ---------- an arena with nothing allocated ----------

  lemma Quotient(a: int, page: int) returns (k: int)
    requires 0 < page && a % page == 0
    ensures a == k * page
  {
    k := a / page;
  }

  lemma SumIsMultiple(a: int, b: int, page: int)
    requires 0 < page && a % page == 0 && b % page == 0
    ensures (a + b) % page == 0
  {
    var k := Quotient(a, page);
    var l := Quotient(b, page);
    MultipleIsDivisible(k + l, page);
    assert (k + l) * page == k * page + l * page;
  }

  lemma DifferenceIsMultiple(a: int, b: int, page: int)
    requires 0 < page && a % page == 0 && b % page == 0
    ensures (a - b) % page == 0
  {
    var k := Quotient(a, page);
    var l := Quotient(b, page);
    MultipleIsDivisible(k - l, page);
    assert (k - l) * page == k * page - l * page;
  }

  /** The bytes just before and just after a block of a coalesced list are not covered. */
  lemma NothingAdjacent(bs: set<int>, size: map<int, int>, b: int)
    requires BlocksOk(bs, size) && Coalesced(bs, size) && b in bs
    ensures !Covers(bs, size, b - 1) && !Covers(bs, size, b + size[b])
  {
  }

  /** A block of a coalesced list that covers exactly the mapped bytes starts where some
      region starts. */
  lemma BlockStartsRegion(bs: set<int>, size: map<int, int>, regions: set<(int, int)>, b: int)
    requires BlocksOk(bs, size) && Coalesced(bs, size) && Tiles(bs, size, regions) && b in bs
    ensures exists r :: r in regions && r.0 == b
  {
    NothingAdjacent(bs, size, b);
    assert !Mapped(regions, b - 1);
    assert b <= b < b + size[b];
    assert Covers(bs, size, b);
    assert Mapped(regions, b);
  }

  /** ... and ends where some region ends. */
  lemma BlockEndsRegion(bs: set<int>, size: map<int, int>, regions: set<(int, int)>, b: int)
    requires BlocksOk(bs, size) && Coalesced(bs, size) && Tiles(bs, size, regions) && b in bs
    ensures exists r :: r in regions && r.0 + r.1 == b + size[b]
  {
    var e := b + size[b];
    NothingAdjacent(bs, size, b);
    assert !Mapped(regions, e);
    assert b <= e - 1 < b + size[b];
    assert Covers(bs, size, e - 1);
    assert Mapped(regions, e - 1);
  }

  /** With nothing allocated, every block starts on a page boundary and is whole pages. */
  lemma EmptyArenaIsPages(bs: set<int>, size: map<int, int>, regions: set<(int, int)>,
                          page: int, b: int)
    requires BlocksOk(bs, size) && Coalesced(bs, size) && Tiles(bs, size, regions)
    requires RegionsOk(regions, page)
    requires b in bs
    ensures b % page == 0 && size[b] % page == 0
  {
    BlockStartsRegion(bs, size, regions, b);
    var r :| r in regions && r.0 == b;
    assert PageAligned(r, page);
    BlockEndsRegion(bs, size, regions, b);
    var q :| q in regions && q.0 + q.1 == b + size[b];
    assert PageAligned(q, page);
    SumIsMultiple(q.0, q.1, page);
    DifferenceIsMultiple(q.0 + q.1, b, page);
  }

  /** A coalesced list is determined by the bytes it covers. */
  lemma CoalescedIsCanonical(s: Space, t: Space, b: int)
    requires s.Ok() && t.Ok() && Coalesced(s.free, s.size) && Coalesced(t.free, t.size)
    requires forall x :: Covers(s.free, s.size, x) <==> Covers(t.free, t.size, x)
    requires b in s.free
    ensures b in t.free && t.size[b] == s.size[b]
  {
    assert b <= b < b + s.size[b];
    assert Covers(s.free, s.size, b);
    assert Covers(t.free, t.size, b);
    NothingAdjacent(s.free, s.size, b);
    assert !Covers(t.free, t.size, b - 1) && !Covers(t.free, t.size, b + s.size[b]);
    assert b in t.free;
    NothingAdjacent(t.free, t.size, b);
    assert !Covers(s.free, s.size, b + t.size[b]);
  }

  /** The calls of munmap so far: one for each block done, in rising address order, and no two
      overlap. */
  ghost predicate Unmaps(calls: seq<(int, int)>, done: set<int>, size: map<int, int>) {
    && done <= size.Keys
    && (forall k :: 0 <= k < |calls| ==> calls[k].0 in done && calls[k].1 == size[calls[k].0])
    && (forall b :: b in done ==> (b, size[b]) in calls)
    && Ascending(calls)
  }

  predicate Ascending(calls: seq<(int, int)>) {
    forall j, k :: 0 <= j < k < |calls| ==> calls[j].0 + calls[j].1 <= calls[k].0
  }

  /** The bytes given back are exactly the mapped ones. */
  ghost predicate UnmapsAll(calls: seq<(int, int)>, regions: set<(int, int)>) {
    forall x :: (exists c :: c in calls && c.0 <= x < c.0 + c.1) <==> Mapped(regions, x)
  }

  /** Unmapping the next block. */
  lemma UnmapNext(bs: set<int>, size: map<int, int>, calls: seq<(int, int)>, done: set<int>, b: int)
    requires BlocksOk(bs, size) && done <= bs && b in bs && forall d :: d in done ==> d < b
    requires Unmaps(calls, done, size)
    ensures Unmaps(calls + [(b, size[b])], done + {b}, size)
  {
    var calls' := calls + [(b, size[b])];
    forall d | d in done + {b} ensures (d, size[d]) in calls' {
      assert calls'[|calls|] == (b, size[b]);
      if d != b {
        assert (d, size[d]) in calls;
      }
    }
  }

  lemma UnmappedAll(bs: set<int>, size: map<int, int>, calls: seq<(int, int)>, regions: set<(int, int)>)
    requires Unmaps(calls, bs, size) && Tiles(bs, size, regions)
    ensures UnmapsAll(calls, regions)
  {
    forall x
      ensures (exists c :: c in calls && c.0 <= x < c.0 + c.1) <==> Mapped(regions, x)
    {
      if Covers(bs, size, x) {
        var b :| b in bs && b <= x < b + size[b];
        assert (b, size[b]) in calls;
      }
    }
  }

  // ---------- layout ----------

  /** Where next[i] of the node at b is stored. */
  function SlotAddress(b: int, i: int): int {
    b + NEXT_OFFSET + i * POINTER_SIZE
  }

  /** The slots that the list uses lie inside their own blocks and do not overlap, so writing
      one of them changes no other slot, no header and no client data. */
  lemma SlotsAreSeparate(bs: set<int>, free: set<int>, size: map<int, int>, levels: map<int, int>,
                         b: int, i: int, c: int, j: int)
    requires BlocksOk(bs, size) && free <= bs && free <= levels.Keys && LevelsFit(free, size, levels)
    requires b in free && 0 <= i < levels[b]
    ensures b + NEXT_OFFSET <= SlotAddress(b, i) && SlotAddress(b, i) + POINTER_SIZE <= b + size[b]
    ensures c in free && 0 <= j < levels[c] && (b != c || i != j) ==>
      SlotAddress(b, i) + POINTER_SIZE <= SlotAddress(c, j) ||
      SlotAddress(c, j) + POINTER_SIZE <= SlotAddress(b, i)
    ensures c in bs && c != b ==>
      SlotAddress(b, i) + POINTER_SIZE <= c || c + size[c] <= SlotAddress(b, i)
  {
  }
}
