/**
 The first-fit arena allocator (base/low_level_alloc.cc:141-458).

 A block is known by the address of its header.  The header fields are modelled one map per
 field (size, magic, arena); the skiplist fields are those of the arena's FreeList.
 */
module LowLevelAlloc {
  import opened IntSets
  import opened SkiplistLevels
  import opened Skiplist
  import opened Blocks

  /** A header's magic number: kMagicAllocated or kMagicUnallocated xor the header's address,
      or zero.  MachineWords.MagicKindsDiffer shows that for block addresses these never coincide. */
  datatype Magic = Cleared | Allocated(at: int) | Unallocated(at: int)

  class Arena {
    const freelist: FreeList
    var size: map<int, int>
    var magic: map<int, Magic>
    var arena: map<int, Arena?>
    var allocation_count: int
    const pagesize: int
    const roundup: int
    const min_size: int
    ghost var used: set<int>             // the blocks not in the free list
    var regions: set<(int, int)>         // the regions obtained from mmap: (address, size)

    ghost function Free(): set<int>
      reads freelist
    {
      freelist.nodes
    }

    /** The free list is a skiplist over well-formed blocks, with levels to suit their sizes. */
    ghost predicate Layout()
      reads `size, `used, freelist
    {
      && freelist.Ok()
      && Free() !! used
      && BlocksOk(Free() + used, size)
      && HEAD in size && size[HEAD] == 0
      && LevelsFit(Free(), size, freelist.levels)
      && roundup == 32 && min_size == 64
    }

    /** What holds between any two list operations. */
    ghost predicate Struct()
      reads `size, `magic, `arena, `used, freelist
    {
      Layout() && forall b :: b in Free() ==> IsFree(b)
    }

    /** The header of b says that it is a free block of this arena. */
    ghost predicate IsFree(b: int)
      reads `magic, `arena
    {
      b in magic && magic[b] == Unallocated(b) && IsOurs(b)
    }

    /** The header of b says that it is an allocated block of this arena. */
    ghost predicate IsAllocated(b: int)
      reads `magic, `arena
    {
      b in magic && magic[b] == Allocated(b) && IsOurs(b)
    }

    ghost predicate IsOurs(b: int)
      reads `arena
    {
      b in arena && arena[b] == this
    }

    /** The headers of the blocks in use are as they were. */
    twostate predicate UsedKept()
      reads `size, `magic, `arena, `used
    {
      && SameSizes(used, old(size), size)
      && (forall u :: u in used && old(IsAllocated(u)) ==> IsAllocated(u))
      && (forall u :: u in used && old(IsOurs(u)) ==> IsOurs(u))
    }

    ghost function Current(): Space
      reads `size, freelist
    {
      Space(Free(), size)
    }

    /** Everything but the count of allocated blocks.  The headers of the blocks in skip may
        not yet say that they are allocated. */
    ghost predicate ConsistentBut(skip: set<int>)
      reads `size, `magic, `arena, `used, `regions, freelist
    {
      && Struct()
      && Coalesced(Free(), size)
      && (forall u :: u in used ==> IsOurs(u) && (u in skip || IsAllocated(u)))
      && 0 < pagesize && pagesize % 32 == 0
      && RegionsOk(regions, pagesize)
      && Tiles(Free() + used, size, regions)
    }

    /** As above, of the blocks alone. */
    ghost predicate ConsistentBlocks()
      reads `size, `magic, `arena, `used, freelist
    {
      && Struct()
      && Coalesced(Free(), size)
      && (forall u :: u in used ==> IsAllocated(u))
      && 0 < pagesize && pagesize % 32 == 0
    }

    ghost predicate Consistent()
      reads `size, `magic, `arena, `used, `regions, freelist
    {
      ConsistentBut({})
    }

    ghost predicate Valid()
      reads this, freelist
    {
      Consistent() && allocation_count == |used|
    }

    /** ArenaInit: an arena with no memory yet. */
    constructor (page: int)
      requires 0 < page && page % 32 == 0
      ensures Valid() && fresh(freelist)
      ensures Free() == used == {} && regions == {} && allocation_count == 0 && pagesize == page
    {
      freelist := new FreeList();
      pagesize := page;
      var r := 16;
      while r < HEADER_SIZE
        invariant r == 16 || r == 32
        decreases HEADER_SIZE - r
      {
        r := r + r;
      }
      roundup := r;
      min_size := 2 * r;
      size := map[HEAD := 0];
      magic := map[HEAD := Unallocated(HEAD)];
      arena := map[];
      allocation_count := 0;
      used, regions := {}, {};
      new;
      arena := map[HEAD := this];
    }

    /** If a free block starts where free block a ends, a takes it over. */
    method Coalesce(a: int)
      requires Struct()
      requires a == HEAD || a in Free()
      modifies this`size, this`magic, this`arena, freelist
      ensures Struct()
      ensures old(Current()).Ok() && Current() == old(Current()).CoalesceAt(a)
      ensures UsedKept()
    {
      hide UsedKept;
      SuccessorDecidesHere(a);
      var n := freelist.next[(a, 0)];
      if n != NULL && a + size[a] == n {
        hide Struct;
        Merge(a, n);
      } else {
        NothingChanged();
      }
    }

    lemma SuccessorDecidesHere(a: int)
      requires Struct() && (a == HEAD || a in Free())
      ensures (a, 0) in freelist.next && a in size && Current().Ok()
      ensures var n := freelist.next[(a, 0)];
        if n != NULL && a + size[a] == n then
          a in Free() && n in Free() && a != n && Current().CoalesceAt(a) == Merged(Current(), a, n)
        else
          Current().CoalesceAt(a) == Current()
    {
      assert HasSlot(Free(), freelist.levels, a, 0);
      SuccessorDecides(Current(), freelist.levels, a, freelist.next[(a, 0)]);
    }

    twostate lemma NothingChanged()
      requires old(Struct()) && size == old(size) && magic == old(magic) && arena == old(arena) && used == old(used)
      ensures UsedKept()
    {
    }

    /** Free block a takes over its free successor n. */
    method Merge(a: int, n: int)
      requires Struct() && a in Free() && n in Free() && a != n && a + size[a] == n
      modifies this`size, this`magic, this`arena, freelist
      ensures Struct()
      ensures Current() == Merged(old(Current()), a, n)
      ensures UsedKept()
    {
      MergeBlocks(Free() + used, size, a, n);
      size := size[a := size[a] + size[n]];
      magic := magic[n := Cleared];
      arena := arena[n := null];
      freelist.Absorb(a, n, size[a]);
      RelevelFits(Free(), old(size), old(freelist.levels), a, size[a], freelist.levels);
      assert Free() + used == old(Free() + used) - {n};
    }

    /** The first half of AddToFreelist: f becomes a free block. */
    method Enlist(f: int, prev: array<int>)
      requires Struct()
      requires f in used && IsAllocated(f)
      requires prev.Length == K_MAX_LEVEL
      modifies this`magic, this`used, freelist, prev
      ensures Struct()
      ensures Free() == old(Free()) + {f} && used == old(used) - {f}
      ensures magic == old(magic)[f := Unallocated(f)]
      ensures old(Current()).IsPredecessor(f, prev[0])
    {
      var level := LLA_SkiplistLevels(size[f], min_size, true);
      freelist.SetLevels(f, level);
      freelist.Insert(f, prev);
      assert IsPrev(old(Free()), freelist.levels, f, 0, prev[0]);
      magic := magic[f := Unallocated(f)];
      used := used - {f};
      assert Free() + used == old(Free() + used);
    }

    /** The list operations of AddToFreelist. */
    method EnlistAndCoalesce(f: int) returns (ghost p: int)
      requires Struct()
      requires f in used && IsAllocated(f)
      modifies this`size, this`magic, this`arena, this`used, freelist
      ensures Struct()
      ensures used == old(used) - {f}
      ensures UsedKept()
      ensures old(Current()).IsPredecessor(f, p)
      ensures f !in old(Free()) && Space(old(Free()) + {f}, old(size)).Ok()
      ensures Space(old(Free()) + {f}, old(size)).CoalesceAt(f).Ok()
      ensures Current() == AddBlock(old(Current()), f, p)
    {
      var prev := new int[K_MAX_LEVEL];
      Enlist(f, prev);
      Coalesce(f);
      p := prev[0];
      Coalesce(prev[0]);
    }

    /** The allocated block of client address v becomes free, and merges with its neighbours. */
    method AddToFreelist(v: int, ghost skip: set<int>)
      requires ConsistentBut(skip)
      requires v - HEADER_SIZE in used && IsAllocated(v - HEADER_SIZE)
      modifies this`size, this`magic, this`arena, this`used, freelist
      ensures ConsistentBut(skip)
      ensures used == old(used) - {v - HEADER_SIZE}
      ensures SameSizes(used, old(size), size) && regions == old(regions)
      ensures Released(old(Current()), v - HEADER_SIZE, Current())
    {
      var f := v - HEADER_SIZE;
      assert magic[f] == Allocated(f);  // RAW_CHECK: magic number in AddToFreelist
      assert arena[f] == this;          // RAW_CHECK: arena pointer in AddToFreelist
      ghost var before, inUse := Current(), used;
      ghost var p := EnlistAndCoalesce(f);
      AddBlockReleases(before, f, p);
      ReleaseKeepsTiles(before, Current(), inUse, f, regions);
    }

    // ---------- freeing ----------

    /** LowLevelAlloc::Free: v is 0 or was returned by an allocation and not freed since. */
    method FreeBlock(v: int)
      requires Valid()
      requires v == NULL || v - HEADER_SIZE in used
      modifies this`size, this`magic, this`arena, this`used, this`allocation_count, freelist
      ensures Valid()
      ensures v == NULL ==> Current() == old(Current()) && used == old(used)
      ensures v != NULL ==>
        && used == old(used) - {v - HEADER_SIZE}
        && SameSizes(used, old(size), size)
        && Released(old(Current()), v - HEADER_SIZE, Current())
    {
      if v != NULL {
        var f := v - HEADER_SIZE;
        assert magic[f] == Allocated(f);  // RAW_CHECK: magic number in Free
        assert arena[f] == this;
        AddToFreelist(v, {});
        assert allocation_count > 0;      // RAW_CHECK: something in arena to free
        allocation_count := allocation_count - 1;
      }
    }

    // ---------- allocation ----------

    /** "prev->next[i]" with the sanity checks on the free list. */
    method Next(i: int, prev: int) returns (next: int)
      requires Struct() && Coalesced(Free(), size)
      requires prev == HEAD || prev in Free()
      requires 0 <= i < freelist.levels[prev]
      ensures IsNext(Free(), freelist.levels, prev, i, next)
    {
      assert i < freelist.levels[prev];       // RAW_CHECK: enough levels in Next
      assert HasSlot(Free(), freelist.levels, prev, i);
      next := freelist.next[(prev, i)];
      assert IsNext(Free(), freelist.levels, prev, i, next);
      if next != NULL {
        assert magic[next] == Unallocated(next);  // RAW_CHECK: magic number in Next
        assert arena[next] == this;               // RAW_CHECK: arena pointer in Next
        if prev != HEAD {
          assert prev < next;                     // RAW_CHECK: ordered freelist
          assert prev + size[prev] < next;        // RAW_CHECK: well-formed freelist
        }
      }
    }

    /** The search of DoAllocWithArena.  It starts at the lowest level that every block of the
        requested size must be on, and finds what a scan of the whole list would find. */
    method FindFit(req_rnd: int) returns (s: int)
      requires Struct() && Coalesced(Free(), size)
      requires 64 <= req_rnd
      ensures s == NULL ==> NoFit(Current(), req_rnd)
      ensures s != NULL ==> FirstFit(Current(), req_rnd, s)
    {
      hide Coalesced;
      hide FirstFit;
      hide NoFit;
      hide SmallUpTo;
      var i := LLA_SkiplistLevels(req_rnd, min_size, false);
      i := i - 1;
      BelowLevelIsSmall(Current(), freelist.levels, req_rnd, i);
      if i < freelist.levels[HEAD] {
        s := ScanLevel(i, req_rnd);
      } else {
        s := NULL;
        NoBlockOnLevel(Current(), freelist.levels, req_rnd, i);
      }
    }

    /** Walk along level i to the first block that is big enough. */
    method ScanLevel(i: int, req_rnd: int) returns (s: int)
      requires Struct() && Coalesced(Free(), size) && 0 <= i < freelist.levels[HEAD]
      requires forall b :: b in Free() && freelist.levels[b] <= i ==> size[b] < req_rnd
      ensures s == NULL ==> NoFit(Current(), req_rnd)
      ensures s != NULL ==> FirstFit(Current(), req_rnd, s)
    {
      hide Coalesced;
      hide FirstFit;
      hide NoFit;
      var before := HEAD;
      s := Next(i, before);
      ScanStep(Current(), freelist.levels, req_rnd, i, before, s);
      while s != NULL && size[s] < req_rnd
        invariant before == HEAD || (before in Free() && i < freelist.levels[before])
        invariant IsNext(Free(), freelist.levels, before, i, s)
        invariant s == NULL ==> NoFit(Current(), req_rnd)
        invariant s != NULL && size[s] < req_rnd ==> SmallUpTo(Current(), req_rnd, s)
        invariant s != NULL && req_rnd <= size[s] ==> FirstFit(Current(), req_rnd, s)
        decreases Above(Free(), before)
      {
        assert s in Above(Free(), before);
        before := s;
        s := Next(i, before);
        ScanStep(Current(), freelist.levels, req_rnd, i, before, s);
      }
    }

    /** Write the header of a new block and pretend that it is allocated. */
    method WriteHeader(s: int, length: int)
      requires Struct()
      requires s !in Free() + used && BlocksOk(Free() + used + {s}, size[s := length])
      modifies this`size, this`magic, this`arena, this`used
      ensures Struct()
      ensures size == old(size)[s := length] && used == old(used) + {s}
      ensures magic == old(magic)[s := Allocated(s)] && arena == old(arena)[s := this]
      ensures Free() + used == old(Free() + used) + {s}
      ensures regions == old(regions)
    {
      size := size[s := length];
      magic := magic[s := Allocated(s)];
      arena := arena[s := this];
      used := used + {s};
      assert Free() + used == old(Free() + used) + {s};
    }

    /** The mmap call of DoAllocWithArena.  The new region is disjoint from every block. */
    method MapPages(req_rnd: int) returns (new_pages: int, new_pages_size: int)
      requires Consistent() && 64 <= req_rnd
      modifies this`regions
      ensures RegionsOk(regions, pagesize)
      ensures RegionAdded(old(regions), pagesize, req_rnd, (new_pages, new_pages_size), regions)
      ensures NewBlock(Free() + used, size, new_pages, new_pages_size, regions)
    {
      new_pages_size := RoundUp(req_rnd, pagesize * 16);
      new_pages := Mmap(regions, pagesize, new_pages_size);
      NewRegionIsBlock(Free() + used, size, regions, pagesize, req_rnd, new_pages);
      regions := regions + {(new_pages, new_pages_size)};
    }

    /** Pretend that new pages are an allocated block, and free it. */
    method FreeNewPages(new_pages: int, new_pages_size: int)
      requires ConsistentBlocks() && RegionsOk(regions, pagesize)
      requires NewBlock(Free() + used, size, new_pages, new_pages_size, regions)
      modifies this`size, this`magic, this`arena, this`used, freelist
      ensures Consistent()
      ensures used == old(used) && regions == old(regions)
      ensures SameSizes(used, old(size), size)
      ensures FreePlusRegion(old(Current()), (new_pages, new_pages_size), Current())
    {
      ghost var before := Current();
      assert used + {new_pages} - {new_pages} == old(used);
      WriteHeader(new_pages, new_pages_size);
      AddToFreelist(new_pages + LEVELS_OFFSET, {});
      ReleasedRegion(before, new_pages, new_pages_size, Current());
    }

    /** The mmap branch of DoAllocWithArena. */
    method AddPages(req_rnd: int) returns (ghost r: (int, int))
      requires Consistent() && 64 <= req_rnd
      modifies this`size, this`magic, this`arena, this`used, this`regions, freelist
      ensures Consistent()
      ensures used == old(used) && SameSizes(used, old(size), size)
      ensures RegionAdded(old(regions), pagesize, req_rnd, r, regions)
      ensures FreePlusRegion(old(Current()), r, Current())
    {
      var new_pages, new_pages_size := MapPages(req_rnd);
      FreeNewPages(new_pages, new_pages_size);
      r := (new_pages, new_pages_size);
    }

    /** Take s out of the free list. */
    method TakeOut(s: int)
      requires Consistent() && s in Free()
      modifies this`used, freelist
      ensures ConsistentBut({s})
      ensures Current() == Space(old(Free()) - {s}, old(size))
      ensures s !in old(used) && used == old(used) + {s}
    {
      var prev := new int[K_MAX_LEVEL];
      freelist.Delete(s, prev);
      used := used + {s};
      assert Free() + used == old(Free() + used);
    }

    /** Cut the bytes after the first req_rnd off block s and make them a block of their own,
        pretending that it is allocated. */
    method Split(s: int, req_rnd: int)
      requires Struct() && s in used
      requires 64 <= req_rnd && req_rnd % 32 == 0 && req_rnd + 64 <= size[s]
      modifies this`size, this`magic, this`arena, this`used
      ensures Struct()
      ensures s + req_rnd !in old(Free() + used) && used == old(used) + {s + req_rnd}
      ensures Free() + used == old(Free() + used) + {s + req_rnd}
      ensures Current() == old(Current()).SplitAt(s, req_rnd)
      ensures magic == old(magic)[s + req_rnd := Allocated(s + req_rnd)]
      ensures arena == old(arena)[s + req_rnd := this]
    {
      SplitBlock(Free() + used, size, s, req_rnd);
      var n := s + req_rnd;
      assert Free() + (used + {n}) == Free() + used + {n};
      size := size[n := size[s] - req_rnd];
      magic := magic[n := Allocated(n)];
      arena := arena[n := this];
      size := size[s := req_rnd];
      used := used + {n};
    }

    /** Give back to the free list what block s has beyond its first req_rnd bytes. */
    method SplitOff(s: int, req_rnd: int)
      requires ConsistentBut({s}) && s in used
      requires 64 <= req_rnd && req_rnd % 32 == 0 && req_rnd + 64 <= size[s]
      modifies this`size, this`magic, this`arena, this`used, freelist
      ensures ConsistentBut({s})
      ensures used == old(used)
      ensures SameSizes(used - {s}, old(size), size) && s in size && size[s] == req_rnd
      ensures Released(old(Current()).SplitAt(s, req_rnd), s + req_rnd, Current())
    {
      hide ConsistentBut;
      SplitInUse(s, req_rnd);
      assert used - {s + req_rnd} == old(used);
      AddToFreelist(s + req_rnd + LEVELS_OFFSET, {s});
    }

    /** Split block s in two allocated blocks. */
    method SplitInUse(s: int, req_rnd: int)
      requires ConsistentBut({s}) && s in used
      requires 64 <= req_rnd && req_rnd % 32 == 0 && req_rnd + 64 <= size[s]
      modifies this`size, this`magic, this`arena, this`used
      ensures ConsistentBut({s}) && IsAllocated(s + req_rnd)
      ensures s + req_rnd !in old(used) && used == old(used) + {s + req_rnd}
      ensures SameSizes(old(used) - {s}, old(size), size) && s in size && size[s] == req_rnd
      ensures s in old(size) && Current() == old(Current()).SplitAt(s, req_rnd)
    {
      SplitTiles(Free() + used, size, regions, s, req_rnd);
      hide Layout;
      Split(s, req_rnd);
    }

    /** Keep no more of block s than needed. */
    method Trim(s: int, req_rnd: int)
      requires ConsistentBut({s}) && s in used
      requires 64 <= req_rnd <= size[s] && req_rnd % 32 == 0
      modifies this`size, this`magic, this`arena, this`used, freelist
      ensures ConsistentBut({s})
      ensures used == old(used) && SameSizes(used - {s}, old(size), size)
      ensures Trimmed(old(Current()), s, req_rnd, Current())
    {
      if req_rnd + min_size <= size[s] {
        SplitOff(s, req_rnd);
      }
    }

    /** Allocate the free block s, giving back what is not needed. */
    method Carve(s: int, req_rnd: int)
      requires Consistent() && s in Free()
      requires 64 <= req_rnd <= size[s] && req_rnd % 32 == 0
      modifies this`size, this`magic, this`arena, this`used, freelist
      ensures Consistent()
      ensures s !in old(used) && used == old(used) + {s}
      ensures SameSizes(old(used), old(size), size)
      ensures Carved(old(Current()), s, req_rnd, Current())
    {
      ghost var before := Current();
      TakeOut(s);
      assert used - {s} == old(used);
      Trim(s, req_rnd);
      TrimCarves(before, s, req_rnd, Current());
      MarkAllocated(s);
    }

    method MarkAllocated(s: int)
      requires ConsistentBut({s}) && s in used
      modifies this`magic
      ensures Consistent()
    {
      magic := magic[s := Allocated(s)];
      assert arena[s] == this;  // RAW_CHECK: arena pointer
    }

    /** The loop of DoAllocWithArena: it comes round a second time only after one mmap, and
        then always finds a region. */
    method FindRegion(req_rnd: int) returns (s: int)
      requires Consistent() && 64 <= req_rnd
      modifies this`size, this`magic, this`arena, this`used, this`regions, freelist
      ensures Consistent()
      ensures used == old(used) && SameSizes(used, old(size), size)
      ensures s in Free() && FirstFit(Current(), req_rnd, s)
      ensures Searched(old(Current()), old(regions), pagesize, req_rnd, Current(), regions)
    {
      ghost var grown := false;
      while true
        invariant Consistent()
        invariant used == old(used) && SameSizes(used, old(size), size)
        invariant !grown ==> regions == old(regions) && Current() == old(Current())
        invariant grown ==> Searched(old(Current()), old(regions), pagesize, req_rnd, Current(), regions)
        invariant grown ==> !NoFit(Current(), req_rnd)
        decreases !grown
      {
        s := FindFit(req_rnd);
        if s != NULL {
          break;
        }
        ghost var r := AddPages(req_rnd);
        NewRegionFits(old(Current()), r, Current(), req_rnd);
        grown := true;
      }
    }

    /** DoAllocWithArena up to the bookkeeping, for a request that has been rounded up. */
    method AllocBlock(req_rnd: int) returns (s: int)
      requires Consistent() && 64 <= req_rnd && req_rnd % 32 == 0
      modifies this`size, this`magic, this`arena, this`used, this`regions, freelist
      ensures Consistent()
      ensures s !in old(used) && used == old(used) + {s} && SameSizes(old(used), old(size), size)
      ensures (s + LEVELS_OFFSET) % 32 == 0 && s in size && req_rnd <= size[s]
      ensures AllocatedFrom(old(Current()), old(regions), pagesize, req_rnd, s, Current(), regions)
    {
      s := FindRegion(req_rnd);
      assert Current().Ok();
      Carve(s, req_rnd);
      UserAddressAligned(Free() + used, size, s);
    }

    /** The block size for a request: header included, rounded up. */
    method RoundRequest(request: int) returns (req_rnd: int)
      requires 0 < request && roundup == 32
      ensures req_rnd == RoundUp(request + HEADER_SIZE, 32)
      ensures 64 <= req_rnd && req_rnd % 32 == 0 && HEADER_SIZE + request <= req_rnd
    {
      req_rnd := RoundUp(request + HEADER_SIZE, roundup);
    }

    lemma RoundupIs32()
      requires Consistent()
      ensures roundup == 32
    {
    }

    /** Allocates a block of request bytes. */
    method DoAllocWithArena(request: int) returns (result: int)
      requires Valid() && 0 <= request
      modifies this, freelist
      ensures Valid()
      ensures request == 0 ==>
        result == NULL && Current() == old(Current()) && used == old(used) && regions == old(regions)
      ensures request != 0 ==> var s := result - HEADER_SIZE;
        && s !in old(used) && used == old(used) + {s} && SameSizes(old(used), old(size), size)
        && result % 32 == 0 && s in size && HEADER_SIZE + request <= size[s]
        && AllocatedFrom(old(Current()), old(regions), pagesize, RoundUp(request + HEADER_SIZE, 32), s,
                         Current(), regions)
    {
      hide Consistent;
      hide AllocatedFrom;
      RoundupIs32();
      result := NULL;
      if request != 0 {
        var req_rnd := RoundRequest(request);
        var s := AllocBlock(req_rnd);
        allocation_count := allocation_count + 1;
        result := s + LEVELS_OFFSET;
      }
    }

    // ---------- the client's memory ----------

    /** The levels and next fields of an allocated block overlap the client's data, so they can
        hold anything while the block is allocated. */
    method ClientWrites(v: int, level: int, i: int, value: int)
      requires Valid() && v - HEADER_SIZE in used
      modifies freelist`levels, freelist`next
      ensures Valid()
      ensures Free() == old(Free())
    {
      freelist.Overwrite(v - HEADER_SIZE, level, i, value);
    }

    // ---------- deletion ----------

    /** The loop of DeleteArena: unmap block after block. */
    method UnmapAll() returns (ghost unmapped: seq<(int, int)>)
      requires Consistent() && used == {}
      modifies freelist`next
      ensures UnmapsAll(unmapped, regions) && Ascending(unmapped)
    {
      unmapped := [];
      ghost var done, last := {}, HEAD;
      assert HasSlot(Free(), freelist.levels, HEAD, 0);
      assert Free() + used == Free();
      while freelist.next[(HEAD, 0)] != NULL
        invariant last == HEAD || last in Free()
        invariant done <= Free() && forall b :: b in Free() ==> (b in done <==> b <= last)
        invariant (HEAD, 0) in freelist.next
        invariant IsNext(Free(), freelist.levels, last, 0, freelist.next[(HEAD, 0)])
        invariant freelist.next == old(freelist.next)[(HEAD, 0) := freelist.next[(HEAD, 0)]]
        invariant Unmaps(unmapped, done, size)
        decreases Above(Free(), last)
      {
        hide Unmaps;
        var region := freelist.next[(HEAD, 0)];
        assert HasSlot(Free(), freelist.levels, region, 0);
        var length := size[region];
        freelist.next := freelist.next[(HEAD, 0) := freelist.next[(region, 0)]];
        assert magic[region] == Unallocated(region);  // RAW_CHECK: magic number in DeleteArena
        assert arena[region] == this;                 // RAW_CHECK: arena pointer in DeleteArena
        EmptyArenaIsPages(Free(), size, regions, pagesize, region);
        assert length % pagesize == 0;                // RAW_CHECK: page-aligned block size
        assert region % pagesize == 0;                // RAW_CHECK: page-aligned block
        UnmapNext(Free(), size, unmapped, done, region);
        unmapped := unmapped + [(region, length)];
        assert region in Above(Free(), last);
        done, last := done + {region}, region;
      }
      Subset(Free(), done);
      UnmappedAll(Free(), size, unmapped, regions);
    }
  }

  /** DeleteArena, for an arena whose own storage is block v of arena meta. */
  method DeleteArena(arena: Arena, v: int, meta: Arena) returns (empty: bool, ghost unmapped: seq<(int, int)>)
    requires arena.Valid() && meta.Valid()
    requires meta != arena && meta.freelist != arena.freelist
    requires v != NULL && v - HEADER_SIZE in meta.used
    modifies arena.freelist, meta, meta.freelist
    ensures meta.Valid()
    ensures empty <==> arena.used == {}
    ensures !empty ==> unmapped == [] && arena.Valid() && arena.Current() == old(arena.Current())
    ensures !empty ==>
      meta.Current() == old(meta.Current()) && meta.used == old(meta.used) && meta.regions == old(meta.regions)
    ensures empty ==> UnmapsAll(unmapped, arena.regions) && Ascending(unmapped)
    ensures empty ==>
      meta.used == old(meta.used) - {v - HEADER_SIZE} && SameSizes(meta.used, old(meta.size), meta.size)
      && Released(old(meta.Current()), v - HEADER_SIZE, meta.Current()) && meta.regions == old(meta.regions)
  {
    hide Arena.Consistent;
    empty := arena.allocation_count == 0;
    unmapped := [];
    if empty {
      unmapped := arena.UnmapAll();
      meta.FreeBlock(v);
    }
  }
}
