/**
 The level arithmetic of the free-list skiplist (base/low_level_alloc.cc): how many
 levels a node of a given size has.  Sizes are the block sizes of the arena, so they
 are unbounded naturals here; a 64-bit target fixes the layout constants.
 */
module SkiplistLevels {

  const K_MAX_LEVEL := 30    // kMaxLevel
  const HEADER_SIZE := 32    // sizeof(AllocList::Header)
  const LEVELS_OFFSET := 32  // offsetof(AllocList, levels)
  const NEXT_OFFSET := 40    // offsetof(AllocList, next)
  const POINTER_SIZE := 8    // sizeof(AllocList *)

  /** The layout on a 64-bit target, in numbers. */
  lemma LayoutConstants()
    ensures K_MAX_LEVEL == 30 && HEADER_SIZE == LEVELS_OFFSET == 32 && NEXT_OFFSET == 40 && POINTER_SIZE == 8
  {
  }

  /** n >> k */
  function Shr(n: nat, k: nat): nat {
    if k == 0 then n else Shr(n / 2, k - 1)
  }

  /** The bound promised in the comment of IntLog2: size >> r <= base < size >> (r - 1). */
  predicate IsLog2(size: nat, base: nat, r: nat) {
    && Shr(size, r) <= base
    && (r > 0 ==> base < Shr(size, r - 1))
  }

  /** The number of halvings after which size is no more than base. */
  function Log2(size: nat, base: nat): (r: nat)
    ensures IsLog2(size, base, r)
  {
    if size <= base then 0 else 1 + Log2(size / 2, base)
  }

  lemma {:induction false} ShrStep(n: nat, k: nat)
    ensures Shr(n, k + 1) == Shr(n, k) / 2
  {
    if k > 0 {
      ShrStep(n / 2, k - 1);
    }
  }

  function Pow2(k: nat): (p: nat)
    ensures p > 0
  {
    if k == 0 then 1 else 2 * Pow2(k - 1)
  }

  /** Shifting by k bits is division by 2 to the power of k. */
  lemma {:induction false} ShrIsQuotient(n: nat, k: nat)
    ensures Shr(n, k) * Pow2(k) <= n < (Shr(n, k) + 1) * Pow2(k)
  {
    if k > 0 {
      ShrIsQuotient(n / 2, k - 1);
      var q, p := Shr(n, k), Pow2(k - 1);
      Twice(q, p);
      Twice(q + 1, p);
    }
  }

  lemma Twice(q: nat, p: nat)
    ensures q * (2 * p) == 2 * (q * p)
  {
  }

  lemma {:induction false} ShrMonotone(m: nat, n: nat, k: nat)
    requires m <= n
    ensures Shr(m, k) <= Shr(n, k)
  {
    if k > 0 {
      ShrMonotone(m / 2, n / 2, k - 1);
    }
  }

  lemma {:induction false} ShrAntitone(n: nat, j: nat, k: nat)
    requires j <= k
    ensures Shr(n, k) <= Shr(n, j)
    decreases k - j
  {
    if j < k {
      ShrAntitone(n, j, k - 1);
      ShrStep(n, k - 1);
    }
  }

  /** The commented bound is met by at most one r, and r grows with size. */
  lemma Log2Monotone(x: nat, y: nat, base: nat, rx: nat, ry: nat)
    requires x <= y
    requires IsLog2(x, base, rx) && IsLog2(y, base, ry)
    ensures rx <= ry
    ensures x == y ==> rx == ry
  {
    if rx > ry {
      ShrAntitone(x, ry, rx - 1);
      ShrMonotone(x, y, ry);
    }
    if rx < ry {
      ShrAntitone(y, rx, ry - 1);
    }
  }

  method IntLog2(size: nat, base: nat) returns (result: nat)
    ensures IsLog2(size, base, result)
  {
    result := 0;
    var i := size;
    while i > base
      invariant i == Shr(size, result)
      invariant result > 0 ==> base < Shr(size, result - 1)
    {
      ShrStep(size, result);
      i := i / 2;
      result := result + 1;
    }
  }

  function Min(a: int, b: int): int {
    if a <= b then a else b
  }

  /** The number of next pointers that fit in a node of size bytes. */
  function MaxFit(size: nat): nat
    requires NEXT_OFFSET <= size
  {
    (size - NEXT_OFFSET) / POINTER_SIZE
  }

  /** The level count for the random draw n; n == 1 when no random draw is made. */
  function Levels(size: nat, base: nat, n: int): int
    requires NEXT_OFFSET <= size
  {
    Min(Min(Log2(size, base) + n, MaxFit(size)), K_MAX_LEVEL - 1)
  }

  /** Random() draws any positive number. */
  method Random() returns (n: int)
    ensures n >= 1
  {
    n :| n >= 1;
  }

  /** A free block of size bytes may have this many levels: no fewer than its size calls for,
      and no more than it has room for. */
  predicate LevelFits(size: int, level: int) {
    && NEXT_OFFSET + POINTER_SIZE <= size
    && Levels(size, 64, 1) <= level
    && NEXT_OFFSET + level * POINTER_SIZE <= size
  }

  /** The level count of a node whose size is r halvings above the base: r + 1 without a random
      draw, and at least that with one, unless that is more than 29 or more than there is room
      for; then it is the most that is neither. */
  predicate HasLevels(size: nat, r: nat, random: bool, level: int) {
    && 1 <= level <= 29 && 40 + level * 8 <= size
    && (!random ==> level <= r + 1)
    && (level >= r + 1 || level == 29 || size < 40 + (level + 1) * 8)
  }

  method LLA_SkiplistLevels(size: nat, base: nat, random: bool) returns (level: int)
    requires NEXT_OFFSET + POINTER_SIZE <= size
    ensures 1 <= level < K_MAX_LEVEL
    ensures NEXT_OFFSET + level * POINTER_SIZE <= size
    ensures Levels(size, base, 1) <= level
    ensures exists n :: n >= 1 && (!random ==> n == 1) && level == Levels(size, base, n)
    ensures forall r: nat :: IsLog2(size, base, r) ==> HasLevels(size, r, random, level)
  {
    var max_fit := (size - NEXT_OFFSET) / POINTER_SIZE;
    level := IntLog2(size, base);
    Log2Monotone(size, size, base, level, Log2(size, base));
    var n := 1;
    if random {
      n := Random();
    }
    level := level + n;
    if level > max_fit { level := max_fit; }
    if level > K_MAX_LEVEL - 1 { level := K_MAX_LEVEL - 1; }
    assert level == Levels(size, base, n);
    LevelsOrdered(size, size, base, n);
    forall r: nat | IsLog2(size, base, r) ensures HasLevels(size, r, random, level) {
      Log2Monotone(size, size, base, r, Log2(size, base));
    }
    assert level >= 1;  // RAW_CHECK: block big enough for one level
  }

  /** The same of the level count that a free block has at least. */
  lemma LevelsHasLevels(size: nat, base: nat, r: nat)
    requires 48 <= size && IsLog2(size, base, r)
    ensures HasLevels(size, r, false, Levels(size, base, 1))
  {
    Log2Monotone(size, size, base, r, Log2(size, base));
  }

  /** 0 < Levels(x, base, 1) <= Levels(y, base, n) < kMaxLevel for every x <= y and every
      draw n, and the next array of that many levels lies inside the node. */
  lemma LevelsOrdered(x: nat, y: nat, base: nat, n: int)
    requires NEXT_OFFSET + POINTER_SIZE <= x <= y
    requires n >= 1
    ensures 0 < Levels(x, base, 1) <= Levels(y, base, n) < K_MAX_LEVEL
    ensures NEXT_OFFSET + Levels(y, base, n) * POINTER_SIZE <= y
  {
    Log2Monotone(x, y, base, Log2(x, base), Log2(y, base));
  }

  /** The converse direction of the same bound, used by the fit search: a node whose level
      count is below the minimum for a request is smaller than the request. */
  lemma FewLevelsMeansSmall(size: int, level: int, request: nat)
    requires LevelFits(size, level)
    requires NEXT_OFFSET + POINTER_SIZE <= request
    requires level < Levels(request, 64, 1)
    ensures size < request
  {
    if request <= size {
      LevelsOrdered(request, size, 64, 1);
    }
  }
}
