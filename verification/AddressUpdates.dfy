/**
 How each change of the compact address map's tables and lists changes what the map holds
 (compact_address_map.cc:32-140).
 */
module AddressUpdates {
  import opened Options
  import opened AddressRadix
  import opened EntryLists
  import opened AddressLookup

  // ---------- the map after each change ----------

  /** The map holds exactly what contents says. */
  ghost predicate Agrees(t: Tables, contents: map<nat, Info>)
    requires TablesOk(t)
  {
    forall a: nat :: Lookup(t, a) == Held(contents, a)
  }

  ghost function Held(contents: map<nat, Info>, a: nat): Option<Info> {
    if a in contents then Some(contents[a]) else None
  }

  lemma BelowLimit(t: Tables, contents: map<nat, Info>)
    requires TablesOk(t) && Agrees(t, contents)
    ensures forall a :: a in contents ==> a < ADDRESS_LIMIT
  {
    forall a | a in contents ensures a < ADDRESS_LIMIT {
      assert Lookup(t, a) == Held(contents, a);
      PageInTables(t.radix, t.brk, a);
    }
  }

  /** Without the addresses of one cluster. */
  ghost function WithoutCluster(contents: map<nat, Info>, id: nat): map<nat, Info> {
    map a | a in contents && ClusterId(a) != id :: contents[a]
  }

  /** What a new cluster for address addr leaves of the map.  Only an address of 2^52 or more
      can get a second cluster with the same 32-bit id, which hides the first one. */
  ghost function Unshadowed(contents: map<nat, Info>, addr: nat): map<nat, Info> {
    if addr < ADDRESS_LIMIT then contents else WithoutCluster(contents, ClusterId(Low(addr)))
  }

  ghost function ClusterAdded(t: Tables, c: nat, id: nat): Tables
    requires |t.radix.buckets| == K_CLUSTER_HASH_TABLE_SIZE
  {
    t.(radix := WithCluster(t.radix, c, id), brk := c + 1)
  }

  lemma ClusterAddedOk(t: Tables, c: nat, id: nat)
    requires TablesOk(t) && 0 < t.brk <= c && id < ID_LIMIT
    ensures TablesOk(ClusterAdded(t, c, id))
  {
    WithClusterOk(t.radix, t.brk, c, id);
    ListsBelow(t.lists, t.entries, t.brk, c + 1);
  }

  lemma ClusterAddedLookup(t: Tables, c: nat, id: nat, a: nat)
    requires TablesOk(t) && 0 < t.brk <= c && id < ID_LIMIT
    requires TablesOk(ClusterAdded(t, c, id))
    ensures Lookup(ClusterAdded(t, c, id), a) == if ClusterId(a) == id then None else Lookup(t, a)
  {
    WithClusterPages(t.radix, t.brk, c, id, a);
  }

  lemma ClusterAddedHeld(t: Tables, c: nat, addr: nat, contents: map<nat, Info>, a: nat)
    requires TablesOk(t) && 0 < t.brk <= c && Agrees(t, contents)
    requires ClusterOf(t.radix, t.brk, addr) == 0
    requires TablesOk(ClusterAdded(t, c, ClusterId(Low(addr)))) && ClusterId(Low(addr)) < ID_LIMIT
    ensures Lookup(ClusterAdded(t, c, ClusterId(Low(addr))), a) == Held(Unshadowed(contents, addr), a)
  {
    ClusterAddedLookup(t, c, ClusterId(Low(addr)), a);
    assert Lookup(t, a) == Held(contents, a);
    if ClusterId(a) == ClusterId(Low(addr)) && addr < ADDRESS_LIMIT {
      LowDigits(addr);
      assert Lookup(t, a) == None;
    }
  }

  lemma ClusterAddedAgrees(t: Tables, c: nat, addr: nat, contents: map<nat, Info>)
    requires TablesOk(t) && 0 < t.brk <= c && Agrees(t, contents)
    requires ClusterOf(t.radix, t.brk, addr) == 0
    ensures ClusterId(Low(addr)) == ClusterId(addr) % ID_LIMIT
    ensures var t' := ClusterAdded(t, c, ClusterId(Low(addr)));
      TablesOk(t') && Agrees(t', Unshadowed(contents, addr)) && ClusterOf(t'.radix, t'.brk, Low(addr)) == c
  {
    LowDigits(addr);
    ClusterAddedOk(t, c, ClusterId(Low(addr)));
    WithClusterPages(t.radix, t.brk, c, ClusterId(Low(addr)), Low(addr));
    forall a: nat
      ensures Lookup(ClusterAdded(t, c, ClusterId(Low(addr))), a) == Held(Unshadowed(contents, addr), a)
    {
      ClusterAddedHeld(t, c, addr, contents, a);
    }
  }

  ghost function SubclusterAdded(t: Tables, c: nat, i: nat, s: nat): Tables
  {
    t.(radix := WithSubcluster(t.radix, c, i, s), brk := s + 1)
  }

  lemma SubclusterAddedOk(t: Tables, c: nat, i: nat, s: nat)
    requires TablesOk(t) && 0 < t.brk <= s
    requires c in t.radix.ids && i < 16 && t.radix.subclusters[(c, i)] == 0
    ensures TablesOk(SubclusterAdded(t, c, i, s))
  {
    hide RadixOk;
    hide ListsOk;
    hide PagesOk;
    WithSubclusterOk(t.radix, t.brk, c, i, s);
    ListsBelow(t.lists, t.entries, t.brk, s + 1);
    SamePages(t.radix, t.lists, s);
  }

  lemma SubclusterAddedLookup(t: Tables, c: nat, i: nat, s: nat, a: nat)
    requires TablesOk(t) && 0 < t.brk <= s
    requires c in t.radix.ids && i < 16 && t.radix.subclusters[(c, i)] == 0
    requires TablesOk(SubclusterAdded(t, c, i, s))
    ensures Lookup(SubclusterAdded(t, c, i, s), a) == Lookup(t, a)
  {
    hide RadixOk;
    hide ListsOk;
    hide PagesOk;
    WithSubclusterPages(t.radix, t.brk, c, i, s, a);
  }

  /** The radix tables have slot (c, i) of address addr, and it is empty. */
  lemma EmptySubclusterSlot(r: Radix, brk: nat, addr: nat)
    requires RadixOk(r, brk)
    requires ClusterOf(r, brk, addr) != 0 && SubclusterOf(r, brk, addr) == 0
    ensures var c, i := ClusterOf(r, brk, addr), SubclusterIndex(addr);
      i < 16 && c in r.ids && (c, i) in r.subclusters && r.subclusters[(c, i)] == 0
  {
    ClusterOfSpec(r, brk, addr);
    AddressDigits(addr);
  }

  lemma NewSubclusterFound(r: Radix, brk: nat, addr: nat, s: nat)
    requires RadixOk(r, brk) && 0 < brk <= s
    requires ClusterOf(r, brk, addr) != 0 && SubclusterOf(r, brk, addr) == 0
    ensures var r' := WithSubcluster(r, ClusterOf(r, brk, addr), SubclusterIndex(addr), s);
      RadixOk(r', s + 1) && SubclusterOf(r', s + 1, addr) == s
  {
    var c, i := ClusterOf(r, brk, addr), SubclusterIndex(addr);
    EmptySubclusterSlot(r, brk, addr);
    WithSubclusterOk(r, brk, c, i, s);
    WithSubclusterPages(r, brk, c, i, s, addr);
  }

  lemma SubclusterAddedAgrees(t: Tables, addr: nat, s: nat, contents: map<nat, Info>)
    requires TablesOk(t) && 0 < t.brk <= s && Agrees(t, contents)
    requires ClusterOf(t.radix, t.brk, addr) != 0 && SubclusterOf(t.radix, t.brk, addr) == 0
    ensures var t' := SubclusterAdded(t, ClusterOf(t.radix, t.brk, addr), SubclusterIndex(addr), s);
      TablesOk(t') && Agrees(t', contents)
  {
    var c, i := ClusterOf(t.radix, t.brk, addr), SubclusterIndex(addr);
    EmptySubclusterSlot(t.radix, t.brk, addr);
    SubclusterAddedOk(t, c, i, s);
    forall a: nat ensures Lookup(SubclusterAdded(t, c, i, s), a) == Lookup(t, a) {
      SubclusterAddedLookup(t, c, i, s, a);
    }
    SameLookup(t, SubclusterAdded(t, c, i, s), contents);
  }

  lemma SameLookup(t: Tables, t': Tables, contents: map<nat, Info>)
    requires TablesOk(t) && TablesOk(t') && Agrees(t, contents)
    requires forall a: nat :: Lookup(t', a) == Lookup(t, a)
    ensures Agrees(t', contents)
  {
  }

  ghost function PageAdded(t: Tables, s: nat, i: nat, p: nat): Tables
  {
    t.(radix := WithPage(t.radix, s, i, p), brk := p + 1, lists := t.lists + EmptyBlocks(p))
  }

  lemma PageAddedOk(t: Tables, s: nat, i: nat, p: nat)
    requires TablesOk(t) && 0 < t.brk <= p
    requires (s, i) in t.radix.pages && t.radix.pages[(s, i)] == 0
    ensures TablesOk(PageAdded(t, s, i, p))
  {
    WithPageOk(t.radix, t.brk, s, i, p);
    MoreLists(t.lists, t.entries, t.brk, p);
    MorePages(t.radix.pages, t.lists, (s, i), p);
  }

  lemma OldPageKept(t: Tables, s: nat, i: nat, p: nat, a: nat)
    requires TablesOk(t) && t.brk <= p
    requires TablesOk(PageAdded(t, s, i, p))
    requires PageOf(PageAdded(t, s, i, p).radix, p + 1, a) == PageOf(t.radix, t.brk, a)
    ensures Lookup(PageAdded(t, s, i, p), a) == Lookup(t, a)
  {
    if PageOf(t.radix, t.brk, a) != 0 {
      PageInTables(t.radix, t.brk, a);
    }
  }

  lemma NewPageEmpty(t: Tables, s: nat, i: nat, p: nat, a: nat)
    requires TablesOk(t)
    requires TablesOk(PageAdded(t, s, i, p))
    requires PageOf(PageAdded(t, s, i, p).radix, p + 1, a) == p
    ensures Lookup(PageAdded(t, s, i, p), a) == None
  {
    AddressDigits(a);
  }

  lemma PageAddedLookup(t: Tables, s: nat, i: nat, p: nat, a: nat)
    requires TablesOk(t) && 0 < t.brk <= p
    requires s != 0 && (s, i) in t.radix.pages && t.radix.pages[(s, i)] == 0
    requires TablesOk(PageAdded(t, s, i, p))
    ensures Lookup(PageAdded(t, s, i, p), a) == Lookup(t, a)
  {
    WithPagePages(t.radix, t.brk, s, i, p, a);
    if SubclusterOf(t.radix, t.brk, a) == s && PageIndex(a) == i {
      NewPageEmpty(t, s, i, p, a);
    } else {
      OldPageKept(t, s, i, p, a);
    }
  }

  lemma EmptyPageSlot(r: Radix, brk: nat, addr: nat)
    requires RadixOk(r, brk)
    requires SubclusterOf(r, brk, addr) != 0 && PageOf(r, brk, addr) == 0
    ensures var s, i := SubclusterOf(r, brk, addr), PageIndex(addr);
      (s, i) in r.pages && r.pages[(s, i)] == 0
  {
    ClusterOfSpec(r, brk, addr);
    AddressDigits(addr);
  }

  lemma PageAddedAgrees(t: Tables, addr: nat, p: nat, contents: map<nat, Info>)
    requires TablesOk(t) && 0 < t.brk <= p && Agrees(t, contents)
    requires SubclusterOf(t.radix, t.brk, addr) != 0 && PageOf(t.radix, t.brk, addr) == 0
    ensures var t' := PageAdded(t, SubclusterOf(t.radix, t.brk, addr), PageIndex(addr), p);
      TablesOk(t') && Agrees(t', contents) && PageOf(t'.radix, t'.brk, addr) == p
  {
    var s, i := SubclusterOf(t.radix, t.brk, addr), PageIndex(addr);
    EmptyPageSlot(t.radix, t.brk, addr);
    PageAddedOk(t, s, i, p);
    forall a: nat ensures Lookup(PageAdded(t, s, i, p), a) == Lookup(t, a) {
      PageAddedLookup(t, s, i, p, a);
    }
    SameLookup(t, PageAdded(t, s, i, p), contents);
    WithPagePages(t.radix, t.brk, s, i, p, addr);
  }

  // ---------- the map after each change of the lists ----------

  /** Every entry has a home, and is below brk. */
  ghost predicate HomesOk(t: Tables, home: map<nat, Home>) {
    && Partition(t.lists, home)
    && Free in t.lists
    && (forall e :: e in t.entries <==> e in home)
    && (forall e :: e in home ==> 0 < e < t.brk)
  }

  /** The map with info, or nothing, at address x. */
  ghost function With(contents: map<nat, Info>, x: nat, info: Option<Info>): map<nat, Info> {
    match info
    case Some(v) => contents[x := v]
    case None => contents - {x}
  }

  /** The lists hold info, or nothing, at the offset of x in the list of x, and are otherwise
      the same. */
  ghost predicate OnePlaceChanged(t: Tables, t': Tables, h: Home, offset: nat, info: Option<Info>)
    requires TablesOk(t) && TablesOk(t')
  {
    && t'.radix == t.radix && t'.brk == t.brk
    && (forall g :: g in t.lists ==> g in t'.lists)
    && (forall g, o :: g in t.lists && g != Free ==>
          HoldsAt(t', g, o) == if g == h && o == offset then info else HoldsAt(t, g, o))
  }

  /** Then the map changes at x alone. */
  lemma OneAddressChanged(t: Tables, t': Tables, x: nat, info: Option<Info>, contents: map<nat, Info>)
    requires TablesOk(t) && TablesOk(t') && Agrees(t, contents)
    requires PageOf(t.radix, t.brk, x) != 0
    requires OnePlaceChanged(t, t', HomeOf(t, x), Offset(x), info)
    ensures Agrees(t', With(contents, x, info))
  {
    forall a: nat ensures Lookup(t', a) == Held(With(contents, x, info), a) {
      assert Lookup(t, a) == Held(contents, a);
      if PageOf(t.radix, t.brk, a) != 0 {
        PageInTables(t.radix, t.brk, a);
        if HomeOf(t, a) == HomeOf(t, x) && Offset(a) == Offset(x) {
          PlacesDiffer(t, x, a);
        }
      }
    }
  }

  /** Entry k of list h gets new data. */
  ghost function Overwritten(t: Tables, h: Home, k: nat, data: EntryData): Tables
    requires h in t.lists && k < |t.lists[h]|
  {
    t.(entries := t.entries[t.lists[h][k] := data])
  }

  lemma OverwrittenHolds(t: Tables, home: map<nat, Home>, h: Home, k: nat, data: EntryData, g: Home, o: nat)
    requires TablesOk(t) && HomesOk(t, home) && h in t.lists && h != Free && k < |t.lists[h]|
    requires data.offset == t.entries[t.lists[h][k]].offset && g in t.lists && g != Free
    ensures ListOk(t.lists[g], Overwritten(t, h, k, data).entries)
    ensures ListLookup(t.lists[g], Overwritten(t, h, k, data).entries, o)
      == if g == h && o == data.offset then Some(InfoOf(data)) else HoldsAt(t, g, o)
  {
    if g == h {
      ListOverwrite(t.lists[h], t.entries, k, data, o);
    } else {
      ListForeign(t.lists[g], t.entries, t.lists[h][k], data, o);
    }
  }

  lemma OverwrittenAgrees(t: Tables, home: map<nat, Home>, x: nat, k: nat, data: EntryData, contents: map<nat, Info>)
    requires TablesOk(t) && HomesOk(t, home) && Agrees(t, contents) && PageOf(t.radix, t.brk, x) != 0
    requires HomeOf(t, x) in t.lists && k < |t.lists[HomeOf(t, x)]|
    requires data.offset == t.entries[t.lists[HomeOf(t, x)][k]].offset == Offset(x)
    ensures var t' := Overwritten(t, HomeOf(t, x), k, data);
      TablesOk(t') && HomesOk(t', home) && Agrees(t', contents[x := InfoOf(data)]) && x in contents
  {
    var h := HomeOf(t, x);
    var t' := Overwritten(t, h, k, data);
    forall g, o: nat | g in t.lists && g != Free
      ensures ListOk(t.lists[g], t'.entries)
      ensures ListLookup(t.lists[g], t'.entries, o)
        == if g == h && o == Offset(x) then Some(InfoOf(data)) else HoldsAt(t, g, o)
    {
      OverwrittenHolds(t, home, h, k, data, g, o);
    }
    assert TablesOk(t');
    OneAddressChanged(t, t', x, Some(InfoOf(data)), contents);
    ListLookupAt(t.lists[h], t.entries, k);
    assert Lookup(t, x) == Held(contents, x);
  }

  /** The first free entry goes to the front of list h, with new data. */
  ghost function Taken(t: Tables, h: Home, data: EntryData): Tables
    requires Free in t.lists && t.lists[Free] != [] && h in t.lists
  {
    t.(lists := Take(t.lists, h), entries := t.entries[t.lists[Free][0] := data])
  }

  lemma TakenHolds(t: Tables, home: map<nat, Home>, h: Home, data: EntryData, g: Home, o: nat)
    requires TablesOk(t) && HomesOk(t, home) && h in t.lists && h != Free && t.lists[Free] != []
    requires HoldsAt(t, h, data.offset) == None && g in t.lists && g != Free
    ensures ListOk(Taken(t, h, data).lists[g], Taken(t, h, data).entries)
    ensures ListLookup(Taken(t, h, data).lists[g], Taken(t, h, data).entries, o)
      == if g == h && o == data.offset then Some(InfoOf(data)) else HoldsAt(t, g, o)
  {
    var e := t.lists[Free][0];
    assert home[e] == Free;
    if g == h {
      ListCons(t.lists[h], t.entries, e, data, o);
    } else {
      ListForeign(t.lists[g], t.entries, e, data, o);
    }
  }

  lemma TakenAgrees(t: Tables, home: map<nat, Home>, x: nat, data: EntryData, contents: map<nat, Info>)
    requires TablesOk(t) && HomesOk(t, home) && Agrees(t, contents) && PageOf(t.radix, t.brk, x) != 0
    requires HomeOf(t, x) in t.lists && t.lists[Free] != []
    requires data.offset == Offset(x) && HoldsAt(t, HomeOf(t, x), Offset(x)) == None
    ensures var t' := Taken(t, HomeOf(t, x), data);
      TablesOk(t') && Agrees(t', contents[x := InfoOf(data)]) && x !in contents
  {
    var h := HomeOf(t, x);
    var t' := Taken(t, h, data);
    forall g, o: nat | g in t.lists && g != Free
      ensures ListOk(t'.lists[g], t'.entries)
      ensures ListLookup(t'.lists[g], t'.entries, o)
        == if g == h && o == Offset(x) then Some(InfoOf(data)) else HoldsAt(t, g, o)
    {
      TakenHolds(t, home, h, data, g, o);
    }
    assert TablesOk(t');
    OneAddressChanged(t, t', x, Some(InfoOf(data)), contents);
    assert Lookup(t, x) == Held(contents, x);
  }

  /** Entry k of list h goes to the front of the free list. */
  ghost function Recycled(t: Tables, h: Home, k: nat): Tables
    requires Free in t.lists && h in t.lists && k < |t.lists[h]|
  {
    t.(lists := Recycle(t.lists, h, k))
  }

  lemma RecycledAgrees(t: Tables, home: map<nat, Home>, x: nat, k: nat, contents: map<nat, Info>)
    requires TablesOk(t) && HomesOk(t, home) && Agrees(t, contents) && PageOf(t.radix, t.brk, x) != 0
    requires HomeOf(t, x) in t.lists && k < |t.lists[HomeOf(t, x)]|
    requires t.entries[t.lists[HomeOf(t, x)][k]].offset == Offset(x)
    ensures var t' := Recycled(t, HomeOf(t, x), k);
      TablesOk(t') && Agrees(t', contents - {x})
    ensures x in contents && contents[x] == InfoOf(t.entries[t.lists[HomeOf(t, x)][k]])
  {
    hide RadixOk;
    var h := HomeOf(t, x);
    var t' := Recycled(t, h, k);
    forall o: nat
      ensures ListOk(t'.lists[h], t'.entries)
      ensures ListLookup(t'.lists[h], t'.entries, o) == if o == Offset(x) then None else HoldsAt(t, h, o)
    {
      ListRemove(t.lists[h], t.entries, k, o);
    }
    assert TablesOk(t');
    OneAddressChanged(t, t', x, None, contents);
    ListLookupAt(t.lists[h], t.entries, k);
    assert Lookup(t, x) == Held(contents, x);
  }

  /** The entries of a new batch, zeroed. */
  function NewEntries(p: nat, n: nat): map<nat, EntryData> {
    map e | e in Batch(p, n) :: EntryData(0, false, 0, 0)
  }

  ghost function Grown(t: Tables, p: nat, n: nat): Tables {
    t.(brk := p + n, lists := t.lists[Free := Batch(p, n)], entries := t.entries + NewEntries(p, n))
  }

  lemma GrownOk(t: Tables, home: map<nat, Home>, p: nat, n: nat)
    requires TablesOk(t) && HomesOk(t, home) && 0 < t.brk <= p
    ensures TablesOk(Grown(t, p, n))
    ensures forall h :: h in t.lists && h != Free ==>
      forall i :: 0 <= i < |t.lists[h]| ==> Grown(t, p, n).entries[t.lists[h][i]] == t.entries[t.lists[h][i]]
  {
    forall h, i | h in t.lists && h != Free && 0 <= i < |t.lists[h]|
      ensures t.lists[h][i] in Grown(t, p, n).entries
      ensures Grown(t, p, n).entries[t.lists[h][i]] == t.entries[t.lists[h][i]]
    {
      InBatch(p, n, t.lists[h][i]);
    }
  }

  lemma SameEntries(s: seq<nat>, entries: map<nat, EntryData>, entries': map<nat, EntryData>, o: nat)
    requires ListOk(s, entries) && ListOk(s, entries')
    requires forall i :: 0 <= i < |s| ==> entries'[s[i]] == entries[s[i]]
    ensures ListLookup(s, entries', o) == ListLookup(s, entries, o)
  {
    var k := FindOffset(s, entries, o);
    if k < |s| {
      ListLookupAt(s, entries', k);
    } else {
      ListLookupNone(s, entries', o);
    }
  }

  lemma GrownAgrees(t: Tables, home: map<nat, Home>, p: nat, n: nat, contents: map<nat, Info>)
    requires TablesOk(t) && HomesOk(t, home) && Agrees(t, contents) && 0 < t.brk <= p
    ensures var t' := Grown(t, p, n);
      TablesOk(t') && Agrees(t', contents)
  {
    var t' := Grown(t, p, n);
    GrownOk(t, home, p, n);
    forall a: nat ensures Lookup(t', a) == Lookup(t, a) {
      if PageOf(t.radix, t.brk, a) != 0 {
        PageInTables(t.radix, t.brk, a);
        SameEntries(t.lists[HomeOf(t, a)], t.entries, t'.entries, Offset(a));
      }
    }
  }

  // ---------- the homes after each change ----------

  lemma HomeListed(t: Tables, a: nat)
    requires TablesOk(t) && PageOf(t.radix, t.brk, a) != 0
    ensures HomeOf(t, a) in t.lists && HomeOf(t, a) != Free
  {
    PageInTables(t.radix, t.brk, a);
  }

  lemma TakenHomes(t: Tables, home: map<nat, Home>, h: Home, data: EntryData)
    requires HomesOk(t, home) && h in t.lists && h != Free && t.lists[Free] != []
    ensures t.lists[Free][0] in home && home[t.lists[Free][0]] == Free
    ensures HomesOk(Taken(t, h, data), home[t.lists[Free][0] := h])
  {
    TakePartition(t.lists, home, h);
  }

  lemma RecycledHomes(t: Tables, home: map<nat, Home>, h: Home, k: nat)
    requires HomesOk(t, home) && h in t.lists && h != Free && k < |t.lists[h]|
    ensures t.lists[h][k] in home
    ensures HomesOk(Recycled(t, h, k), home[t.lists[h][k] := Free])
  {
    RecyclePartition(t.lists, home, h, k);
  }

  lemma GrownHomes(t: Tables, home: map<nat, Home>, p: nat, n: nat)
    requires HomesOk(t, home) && t.lists[Free] == [] && 0 < t.brk <= p
    ensures HomesOk(Grown(t, p, n), home + BatchHome(p, n))
  {
    GrowPartition(t.lists, home, p, n);
    forall e: nat ensures e in Batch(p, n) <==> p <= e < p + n {
      InBatch(p, n, e);
    }
  }

  lemma GrownSize(home: map<nat, Home>, p: nat, n: nat)
    requires forall e :: e in home ==> e < p
    ensures |home + BatchHome(p, n)| == |home| + n
  {
    forall e: nat | e in Batch(p, n) ensures e !in home {
      InBatch(p, n, e);
    }
    BatchSize(p, n);
    DisjointSize(home, BatchHome(p, n));
  }

  lemma {:induction false} BatchSize(p: nat, n: nat)
    ensures |BatchHome(p, n)| == n
  {
    if n > 0 {
      BatchSize(p, n - 1);
      forall e: nat ensures e in Batch(p, n) <==> e in Batch(p, n - 1) || e == p + n - 1 {
        InBatch(p, n, e);
        InBatch(p, n - 1, e);
      }
      InBatch(p, n - 1, p + n - 1);
      assert BatchHome(p, n) == BatchHome(p, n - 1)[p + n - 1 := Free];
    }
  }

  lemma DisjointSize(m: map<nat, Home>, m': map<nat, Home>)
    requires m.Keys !! m'.Keys
    ensures |m + m'| == |m| + |m'|
  {
    assert (m + m').Keys == m.Keys + m'.Keys;
    assert |(m + m').Keys| == |m.Keys| + |m'.Keys|;
    assert |m + m'| == |(m + m').Keys|;
    assert |m| == |m.Keys|;
    assert |m'| == |m'.Keys|;
  }

  /** The null heads of a new page's lists. */
  function NullBlocks(p: nat): map<Home, nat> {
    map b: nat | b < 16 :: Block(p, b) := 0
  }

  lemma PageAddedHomes(t: Tables, home: map<nat, Home>, s: nat, i: nat, p: nat)
    requires TablesOk(t) && HomesOk(t, home) && t.brk <= p
    ensures HomesOk(PageAdded(t, s, i, p), home)
  {
    var t' := PageAdded(t, s, i, p);
    forall h, k | h in t'.lists && 0 <= k < |t'.lists[h]|
      ensures t'.lists[h][k] in home && home[t'.lists[h][k]] == h
    {
      assert h in t.lists;
    }
    forall e | e in home ensures home[e] in t'.lists && e in t'.lists[home[e]] {
      assert home[e] in t.lists;
    }
  }

  lemma PageAddedLinked(lists: map<Home, seq<nat>>, heads: map<Home, nat>, next: map<nat, nat>, p: nat)
    requires Linked(lists, heads, next)
    requires forall h :: h in lists && h != Free ==> h.page < p
    ensures Linked(lists + EmptyBlocks(p), heads + NullBlocks(p), next)
  {
    forall h | h in lists + EmptyBlocks(p)
      ensures h in heads + NullBlocks(p)
      ensures IsList((heads + NullBlocks(p))[h], next, (lists + EmptyBlocks(p))[h])
    {
      if h in EmptyBlocks(p) {
        assert (lists + EmptyBlocks(p))[h] == [];
      } else {
        assert IsList(heads[h], next, lists[h]);
      }
    }
  }
}
