/**
 What looking up an address in the compact address map finds (compact_address_map.cc:60-140).
 */
module AddressLookup {
  import opened Options
  import opened AddressRadix
  import opened EntryLists

  // ---------- one list ----------

  ghost predicate ListOk(s: seq<nat>, entries: map<nat, EntryData>) {
    && (forall i :: 0 <= i < |s| ==> s[i] in entries)
    && (forall i, j :: 0 <= i < j < |s| ==> entries[s[i]].offset != entries[s[j]].offset)
  }

  ghost function ListLookup(s: seq<nat>, entries: map<nat, EntryData>, offset: nat): Option<Info>
    requires ListOk(s, entries)
  {
    var k := FindOffset(s, entries, offset);
    if k < |s| then Some(InfoOf(entries[s[k]])) else None
  }

  lemma ListLookupAt(s: seq<nat>, entries: map<nat, EntryData>, i: nat)
    requires ListOk(s, entries) && i < |s|
    ensures ListLookup(s, entries, entries[s[i]].offset) == Some(InfoOf(entries[s[i]]))
  {
    var k := FindOffset(s, entries, entries[s[i]].offset);
    assert k == i;
  }

  lemma ListLookupNone(s: seq<nat>, entries: map<nat, EntryData>, o: nat)
    requires ListOk(s, entries) && forall i :: 0 <= i < |s| ==> entries[s[i]].offset != o
    ensures ListLookup(s, entries, o) == None
  {
  }

  lemma ListForeign(s: seq<nat>, entries: map<nat, EntryData>, e: nat, data: EntryData, o: nat)
    requires ListOk(s, entries) && forall i :: 0 <= i < |s| ==> s[i] != e
    ensures ListOk(s, entries[e := data])
    ensures ListLookup(s, entries[e := data], o) == ListLookup(s, entries, o)
  {
    var entries' := entries[e := data];
    var k := FindOffset(s, entries, o);
    if k < |s| {
      ListLookupAt(s, entries', k);
    } else {
      ListLookupNone(s, entries', o);
    }
  }

  lemma ListOverwrite(s: seq<nat>, entries: map<nat, EntryData>, k: nat, data: EntryData, o: nat)
    requires ListOk(s, entries) && k < |s| && data.offset == entries[s[k]].offset
    ensures ListOk(s, entries[s[k] := data])
    ensures ListLookup(s, entries[s[k] := data], o)
      == if o == data.offset then Some(InfoOf(data)) else ListLookup(s, entries, o)
  {
    var entries' := entries[s[k] := data];
    assert forall i :: 0 <= i < |s| ==> entries'[s[i]].offset == entries[s[i]].offset;
    ListLookupAt(s, entries', k);
    var l := FindOffset(s, entries, o);
    if l < |s| {
      ListLookupAt(s, entries', l);
    } else {
      if o != data.offset {
        ListLookupNone(s, entries', o);
      }
    }
  }

  lemma ListCons(s: seq<nat>, entries: map<nat, EntryData>, e: nat, data: EntryData, o: nat)
    requires ListOk(s, entries) && forall i :: 0 <= i < |s| ==> s[i] != e
    requires ListLookup(s, entries, data.offset) == None
    ensures ListOk([e] + s, entries[e := data])
    ensures ListLookup([e] + s, entries[e := data], o)
      == if o == data.offset then Some(InfoOf(data)) else ListLookup(s, entries, o)
  {
    var t, entries' := [e] + s, entries[e := data];
    assert forall i :: 0 < i < |t| ==> t[i] == s[i - 1] && entries'[t[i]] == entries[s[i - 1]];
    assert ListOk(t, entries');
    ListLookupAt(t, entries', 0);
    var l := FindOffset(s, entries, o);
    if l < |s| {
      ListLookupAt(t, entries', l + 1);
    } else {
      if o != data.offset {
        ListLookupNone(t, entries', o);
      }
    }
  }

  lemma ListRemove(s: seq<nat>, entries: map<nat, EntryData>, k: nat, o: nat)
    requires ListOk(s, entries) && k < |s|
    ensures ListOk(RemoveAt(s, k), entries)
    ensures ListLookup(RemoveAt(s, k), entries, o)
      == if o == entries[s[k]].offset then None else ListLookup(s, entries, o)
  {
    var t := RemoveAt(s, k);
    assert forall i :: 0 <= i < |t| ==> t[i] == s[if i < k then i else i + 1];
    var l := FindOffset(s, entries, o);
    if l < |s| && o != entries[s[k]].offset {
      ListLookupAt(t, entries, if l < k then l else l - 1);
    } else {
      ListLookupNone(t, entries, o);
    }
  }

  // ---------- the whole map ----------

  datatype Tables = Tables(radix: Radix, brk: nat, lists: map<Home, seq<nat>>, entries: map<nat, EntryData>)

  ghost predicate TablesOk(t: Tables) {
    match t
    case Tables(radix, brk, lists, entries) =>
      RadixOk(radix, brk) && PagesOk(radix.pages, lists) && ListsOk(lists, entries, brk)
  }

  /** Every page has its sixteen lists. */
  ghost predicate PagesOk(pages: map<(nat, nat), nat>, lists: map<Home, seq<nat>>) {
    forall q, b: nat :: q in pages && pages[q] != 0 && b < 16 ==> Block(pages[q], b) in lists
  }

  ghost predicate ListsOk(lists: map<Home, seq<nat>>, entries: map<nat, EntryData>, brk: nat) {
    forall h :: h in lists && h != Free ==> ListOk(lists[h], entries) && h.page < brk
  }

  lemma ListsBelow(lists: map<Home, seq<nat>>, entries: map<nat, EntryData>, brk: nat, brk': nat)
    requires ListsOk(lists, entries, brk) && brk <= brk'
    ensures ListsOk(lists, entries, brk')
  {
  }

  lemma SamePages(r: Radix, lists: map<Home, seq<nat>>, p: nat)
    requires PagesOk(r.pages, lists)
    ensures PagesOk(r.pages + Zeros(p), lists)
  {
  }

  lemma MorePages(pages: map<(nat, nat), nat>, lists: map<Home, seq<nat>>, q: (nat, nat), p: nat)
    requires PagesOk(pages, lists)
    ensures PagesOk(pages[q := p], lists + EmptyBlocks(p))
  {
  }

  lemma MoreLists(lists: map<Home, seq<nat>>, entries: map<nat, EntryData>, brk: nat, p: nat)
    requires ListsOk(lists, entries, brk) && brk <= p
    ensures ListsOk(lists + EmptyBlocks(p), entries, p + 1)
  {
  }

  /** The sixteen empty lists of a new page. */
  function EmptyBlocks(p: nat): map<Home, seq<nat>> {
    map b: nat | b < 16 :: Block(p, b) := []
  }

  lemma PageInTables(r: Radix, brk: nat, a: nat)
    requires RadixOk(r, brk) && PageOf(r, brk, a) != 0
    ensures exists q :: q in r.pages && r.pages[q] == PageOf(r, brk, a)
    ensures BlockIndex(a) < 16 && a < ADDRESS_LIMIT
  {
    ClusterOfSpec(r, brk, a);
    AddressDigits(a);
    assert (SubclusterOf(r, brk, a), PageIndex(a)) in r.pages;
    SamePage(r, brk, a, a);
  }

  /** What list h holds for an offset. */
  ghost function HoldsAt(t: Tables, h: Home, offset: nat): Option<Info>
    requires TablesOk(t) && h in t.lists && h != Free
  {
    ListLookup(t.lists[h], t.entries, offset)
  }

  /** What the map holds for address a. */
  ghost function Lookup(t: Tables, a: nat): Option<Info>
    requires TablesOk(t)
  {
    var p := PageOf(t.radix, t.brk, a);
    if p == 0 then None
    else
      PageInTables(t.radix, t.brk, a);
      HoldsAt(t, Block(p, BlockIndex(a)), Offset(a))
  }

  /** A page, a block and an offset are an address. */
  lemma SameAddress(a: nat, b: nat)
    requires a / K_PAGE_SIZE == b / K_PAGE_SIZE
    requires BlockIndex(a) == BlockIndex(b) && Offset(a) == Offset(b)
    ensures a == b
  {
    PageNumber(a);
    PageNumber(b);
    SamePageDigits(a, b);
    AddressDigits(a);
    AddressDigits(b);
  }

  /** The list where address a belongs. */
  ghost function HomeOf(t: Tables, a: nat): Home
    requires TablesOk(t)
  {
    Block(PageOf(t.radix, t.brk, a), BlockIndex(a))
  }

  /** Different addresses have different places. */
  lemma PlacesDiffer(t: Tables, a: nat, b: nat)
    requires TablesOk(t) && PageOf(t.radix, t.brk, a) != 0
    requires HomeOf(t, a) == HomeOf(t, b) && Offset(a) == Offset(b)
    ensures a == b
  {
    SamePage(t.radix, t.brk, a, b);
    SameAddress(a, b);
  }
}
