/**
 The entries of the compact address map (compact_address_map.h:21-39): each is on one linked
 list, which is that of a block or the free list.
 */
module EntryLists {
  import opened Options

  /** Entry, without its next pointer. */
  datatype EntryData = EntryData(size: nat, has_call_stack: bool, offset: nat, call_stack_hash: nat)

  /** What an entry says about its address: the size, and the hash if there is one. */
  datatype Info = Info(size: nat, hash: Option<nat>)

  function InfoOf(e: EntryData): Info {
    Info(e.size, if e.has_call_stack then Some(e.call_stack_hash) else None)
  }

  /** Entry::Store, which takes the size as a uint8_t. */
  function Store(e: EntryData, offset: nat, size: nat, hash: Option<nat>): EntryData {
    match hash
    case Some(h) => EntryData(size % 256, true, offset, h)
    case None => EntryData(size % 256, false, offset, e.call_stack_hash)
  }

  lemma StoredInfo(e: EntryData, offset: nat, size: nat, hash: Option<nat>)
    ensures InfoOf(Store(e, offset, size, hash)) == Info(size % 256, hash)
    ensures Store(e, offset, size, hash).offset == offset
  {
  }

  /** A list: the free list, or that of a block of a page. */
  datatype Home = Free | Block(page: nat, block: nat)

  ghost predicate NoRepeats(s: seq<nat>) {
    forall i, j :: 0 <= i < j < |s| ==> s[i] != s[j]
  }

  /** s is the list that starts at head. */
  ghost predicate IsList(head: nat, next: map<nat, nat>, s: seq<nat>) {
    && head == At(s, 0)
    && forall k :: 0 <= k < |s| ==> s[k] != 0 && s[k] in next && next[s[k]] == At(s, k + 1)
  }

  function At(s: seq<nat>, k: nat): nat {
    if k < |s| then s[k] else 0
  }

  /** Every entry is on exactly one list, once, and all lists consist of entries. */
  ghost predicate Partition(lists: map<Home, seq<nat>>, home: map<nat, Home>) {
    && (forall h :: h in lists ==> NoRepeats(lists[h]))
    && (forall h, k :: h in lists && 0 <= k < |lists[h]| ==>
          lists[h][k] in home && home[lists[h][k]] == h)
    && (forall e :: e in home ==> home[e] in lists && e in lists[home[e]])
  }

  /** Every list is linked up from its head. */
  ghost predicate Linked(lists: map<Home, seq<nat>>, heads: map<Home, nat>, next: map<nat, nat>) {
    forall h :: h in lists ==> h in heads && IsList(heads[h], next, lists[h])
  }

  /** The position of the first entry with the given offset, or the length of the list. */
  function FindOffset(s: seq<nat>, entries: map<nat, EntryData>, offset: nat): (k: nat)
    requires forall i :: 0 <= i < |s| ==> s[i] in entries
    ensures k <= |s|
    ensures k < |s| ==> entries[s[k]].offset == offset
    ensures forall i :: 0 <= i < k ==> entries[s[i]].offset != offset
  {
    if s == [] || entries[s[0]].offset == offset then 0
    else
      assert forall i :: 0 <= i < |s[1..]| ==> s[1..][i] == s[i + 1];
      1 + FindOffset(s[1..], entries, offset)
  }

  function RemoveAt(s: seq<nat>, k: nat): seq<nat>
    requires k < |s|
  {
    s[..k] + s[k + 1..]
  }

  // ---------- the list operations, on the lists ----------

  /** Detach the first free entry and put it at the front of list h. */
  function Take(lists: map<Home, seq<nat>>, h: Home): map<Home, seq<nat>>
    requires Free in lists && lists[Free] != [] && h in lists
  {
    lists[Free := lists[Free][1..]][h := [lists[Free][0]] + lists[h]]
  }

  /** Take entry k off list h and put it at the front of the free list. */
  function Recycle(lists: map<Home, seq<nat>>, h: Home, k: nat): map<Home, seq<nat>>
    requires Free in lists && h in lists && k < |lists[h]|
  {
    lists[h := RemoveAt(lists[h], k)][Free := [lists[h][k]] + lists[Free]]
  }

  lemma TakePartition(lists: map<Home, seq<nat>>, home: map<nat, Home>, h: Home)
    requires Partition(lists, home) && Free in lists && lists[Free] != [] && h in lists && h != Free
    ensures Partition(Take(lists, h), home[lists[Free][0] := h])
  {
    var e := lists[Free][0];
    assert home[e] == Free;
    var t, home' := Take(lists, h), home[e := h];
    forall d | d in home' ensures home'[d] in t && d in t[home'[d]] {
      if d == e {
        assert t[h][0] == e;
      } else if home[d] == Free {
        var k :| 0 <= k < |lists[Free]| && lists[Free][k] == d;
        assert t[Free][k - 1] == d;
      } else {
        var k :| 0 <= k < |lists[home[d]]| && lists[home[d]][k] == d;
        assert home[d] == h ==> t[h][k + 1] == d;
      }
    }
  }

  lemma RecyclePartition(lists: map<Home, seq<nat>>, home: map<nat, Home>, h: Home, k: nat)
    requires Partition(lists, home) && Free in lists && h in lists && h != Free && k < |lists[h]|
    ensures Partition(Recycle(lists, h, k), home[lists[h][k] := Free])
  {
    var e := lists[h][k];
    var t, home' := Recycle(lists, h, k), home[e := Free];
    forall d | d in home' ensures home'[d] in t && d in t[home'[d]] {
      if d == e {
        assert t[Free][0] == e;
      } else {
        var i :| 0 <= i < |lists[home[d]]| && lists[home[d]][i] == d;
        if home[d] == h {
          assert t[h][if i < k then i else i - 1] == d;
        } else if home[d] == Free {
          assert t[Free][i + 1] == d;
        }
      }
    }
  }

  // ---------- the list operations, on the links ----------

  lemma OtherListKept(lists: map<Home, seq<nat>>, home: map<nat, Home>, next: map<nat, nat>,
                      h: Home, head: nat, e: nat, n: nat)
    requires Partition(lists, home) && h in lists && e in home && home[e] != h
    requires IsList(head, next, lists[h])
    ensures IsList(head, next[e := n], lists[h])
  {
    assert forall k :: 0 <= k < |lists[h]| ==> lists[h][k] != e;
  }

  /** entry = free_entries_; free_entries_ = entry->next; entry->next = *head; *head = entry. */
  lemma TakeLinked(lists: map<Home, seq<nat>>, home: map<nat, Home>, heads: map<Home, nat>,
                   next: map<nat, nat>, h: Home)
    requires Partition(lists, home) && Linked(lists, heads, next)
    requires Free in lists && lists[Free] != [] && h in lists && h != Free
    ensures var e := heads[Free];
      && e == lists[Free][0] && e in next
      && Linked(Take(lists, h), heads[Free := next[e]][h := e], next[e := heads[h]])
  {
    assert IsList(heads[Free], next, lists[Free]);
    var e := heads[Free];
    forall g | g in Take(lists, h)
      ensures g in heads && IsList(heads[Free := next[e]][h := e][g], next[e := heads[h]], Take(lists, h)[g])
    {
      TakeLinkedAt(lists, home, heads, next, h, g);
    }
  }

  lemma TakeLinkedAt(lists: map<Home, seq<nat>>, home: map<nat, Home>, heads: map<Home, nat>,
                     next: map<nat, nat>, h: Home, g: Home)
    requires Partition(lists, home) && Linked(lists, heads, next)
    requires Free in lists && lists[Free] != [] && h in lists && h != Free && g in lists
    ensures g in heads && h in heads && Free in heads && heads[Free] == lists[Free][0] && heads[Free] in next
    ensures var e := heads[Free];
      IsList(heads[Free := next[e]][h := e][g], next[e := heads[h]], Take(lists, h)[g])
  {
    var e := lists[Free][0];
    assert IsList(heads[Free], next, lists[Free]) && IsList(heads[g], next, lists[g]);
    if g == Free {
      assert Take(lists, h)[g] == lists[Free][1..];
      TailIsList(heads[Free], next, lists[Free], heads[h]);
    } else if g == h {
      assert Take(lists, h)[g] == [e] + lists[h];
      OtherListKept(lists, home, next, h, heads[h], e, heads[h]);
      ConsIsList(heads[h], next[e := heads[h]], lists[h], e);
    } else {
      assert Take(lists, h)[g] == lists[g];
      OtherListKept(lists, home, next, g, heads[g], e, heads[h]);
    }
  }

  lemma TailIsList(head: nat, next: map<nat, nat>, s: seq<nat>, n: nat)
    requires IsList(head, next, s) && NoRepeats(s) && s != []
    ensures s[0] in next && IsList(next[s[0]], next[s[0] := n], s[1..])
  {
    var t := s[1..];
    assert forall k :: 0 <= k < |t| ==> t[k] == s[k + 1] && s[k + 1] != s[0];
  }

  /** The links after taking entry k off a list that starts at head. */
  function UnlinkHead(head: nat, next: map<nat, nat>, s: seq<nat>, k: nat): nat
    requires k < |s| && s[k] in next
  {
    if k == 0 then next[s[k]] else head
  }

  function UnlinkNext(next: map<nat, nat>, s: seq<nat>, k: nat): map<nat, nat>
    requires k < |s| && s[k] in next
  {
    if k == 0 then next else next[s[k - 1] := next[s[k]]]
  }

  /** *p = entry->next, where p is the head or the next pointer of the entry before. */
  lemma UnlinkIsList(head: nat, next: map<nat, nat>, s: seq<nat>, k: nat)
    requires IsList(head, next, s) && NoRepeats(s) && k < |s|
    ensures IsList(UnlinkHead(head, next, s, k), UnlinkNext(next, s, k), RemoveAt(s, k))
  {
    var t := RemoveAt(s, k);
    var next' := UnlinkNext(next, s, k);
    forall i | 0 <= i < |t| ensures t[i] != 0 && t[i] in next' && next'[t[i]] == At(t, i + 1) {
      UnlinkAt(head, next, s, k, i);
    }
    LinkAt(head, next, s, k);
  }

  lemma LinkAt(head: nat, next: map<nat, nat>, s: seq<nat>, k: nat)
    requires IsList(head, next, s) && k < |s|
    ensures s[k] != 0 && s[k] in next && next[s[k]] == At(s, k + 1) && head == s[0]
  {
  }

  lemma UnlinkAt(head: nat, next: map<nat, nat>, s: seq<nat>, k: nat, i: nat)
    requires IsList(head, next, s) && NoRepeats(s) && k < |s| && i < |s| - 1 && s[k] in next
    ensures var t, next' := RemoveAt(s, k), UnlinkNext(next, s, k);
      t[i] != 0 && t[i] in next' && next'[t[i]] == At(t, i + 1)
  {
    hide IsList;
    LinkAt(head, next, s, if i < k then i else i + 1);
    if i + 1 == k {
      LinkAt(head, next, s, k);
    }
  }

  /** The list that entry k was taken off does not care where that entry points now. */
  lemma RecycleSource(head: nat, next: map<nat, nat>, s: seq<nat>, k: nat, n: nat)
    requires IsList(head, next, s) && NoRepeats(s) && k < |s|
    ensures IsList(UnlinkHead(head, next, s, k), UnlinkNext(next, s, k)[s[k] := n], RemoveAt(s, k))
  {
    UnlinkIsList(head, next, s, k);
    RemovedIsGone(s, k);
    ForeignEntry(UnlinkHead(head, next, s, k), UnlinkNext(next, s, k), RemoveAt(s, k), s[k], n);
  }

  lemma RemovedIsGone(s: seq<nat>, k: nat)
    requires NoRepeats(s) && k < |s|
    ensures NoRepeats(RemoveAt(s, k))
    ensures forall i :: 0 <= i < |RemoveAt(s, k)| ==> RemoveAt(s, k)[i] != s[k]
  {
  }

  lemma ForeignEntry(head: nat, next: map<nat, nat>, s: seq<nat>, e: nat, n: nat)
    requires IsList(head, next, s) && forall i :: 0 <= i < |s| ==> s[i] != e
    ensures IsList(head, next[e := n], s)
  {
  }

  /** Nor does any other list. */
  lemma RecycleOther(lists: map<Home, seq<nat>>, home: map<nat, Home>, next: map<nat, nat>,
                     h: Home, k: nat, g: Home, head: nat, n: nat)
    requires Partition(lists, home) && h in lists && k < |lists[h]| && g in lists && g != h
    requires lists[h][k] in next && IsList(head, next, lists[g])
    ensures IsList(head, UnlinkNext(next, lists[h], k)[lists[h][k] := n], lists[g])
  {
    var s, e := lists[h], lists[h][k];
    if k > 0 {
      OtherListKept(lists, home, next, g, head, s[k - 1], next[e]);
    }
    OtherListKept(lists, home, UnlinkNext(next, s, k), g, head, e, n);
  }

  /** Recycling entry k of list h leaves list g linked up, whichever list g is. */
  lemma RecycleLinkedAt(lists: map<Home, seq<nat>>, home: map<nat, Home>, heads: map<Home, nat>,
                        next: map<nat, nat>, h: Home, k: nat, g: Home)
    requires Partition(lists, home) && Linked(lists, heads, next)
    requires Free in lists && h in lists && h != Free && k < |lists[h]| && g in lists
    ensures h in heads && Free in heads && g in heads && lists[h][k] in next
    ensures IsList(heads[h := UnlinkHead(heads[h], next, lists[h], k)][Free := lists[h][k]][g],
                   UnlinkNext(next, lists[h], k)[lists[h][k] := heads[Free]],
                   Recycle(lists, h, k)[g])
  {
    assert IsList(heads[h], next, lists[h]) && IsList(heads[g], next, lists[g]);
    if g == h {
      RecycleSource(heads[h], next, lists[h], k, heads[Free]);
    } else {
      RecycleOther(lists, home, next, h, k, g, heads[g], heads[Free]);
      if g == Free {
        ConsIsList(heads[Free], UnlinkNext(next, lists[h], k)[lists[h][k] := heads[Free]],
                   lists[Free], lists[h][k]);
      }
    }
  }

  lemma ConsIsList(head: nat, next: map<nat, nat>, s: seq<nat>, e: nat)
    requires IsList(head, next, s) && e != 0 && e in next && next[e] == head
    ensures IsList(e, next, [e] + s)
  {
    var t := [e] + s;
    assert forall i :: 0 < i < |t| ==> t[i] == s[i - 1];
  }

  lemma RecycleLinked(lists: map<Home, seq<nat>>, home: map<nat, Home>, heads: map<Home, nat>,
                      next: map<nat, nat>, h: Home, k: nat)
    requires Partition(lists, home) && Linked(lists, heads, next)
    requires Free in lists && h in lists && h != Free && k < |lists[h]|
    ensures h in heads && Free in heads && lists[h][k] in next
    ensures Linked(Recycle(lists, h, k),
                   heads[h := UnlinkHead(heads[h], next, lists[h], k)][Free := lists[h][k]],
                   UnlinkNext(next, lists[h], k)[lists[h][k] := heads[Free]])
  {
    RecycleLinkedAt(lists, home, heads, next, h, k, h);
    forall g | g in lists
      ensures g in heads
      ensures IsList(heads[h := UnlinkHead(heads[h], next, lists[h], k)][Free := lists[h][k]][g],
                     UnlinkNext(next, lists[h], k)[lists[h][k] := heads[Free]],
                     Recycle(lists, h, k)[g])
    {
      RecycleLinkedAt(lists, home, heads, next, h, k, g);
    }
  }

  // ---------- a new batch of entries ----------

  function Batch(p: nat, n: nat): seq<nat> {
    seq(n, i requires 0 <= i < n => p + i)
  }

  function BatchHome(p: nat, n: nat): map<nat, Home> {
    map e | e in Batch(p, n) :: Free
  }

  lemma InBatch(p: nat, n: nat, e: nat)
    ensures e in Batch(p, n) <==> p <= e < p + n
  {
    if p <= e < p + n {
      assert Batch(p, n)[e - p] == e;
    }
  }

  lemma GrowPartition(lists: map<Home, seq<nat>>, home: map<nat, Home>, p: nat, n: nat)
    requires Partition(lists, home) && Free in lists && lists[Free] == []
    requires forall e :: e in home ==> e < p
    ensures Partition(lists[Free := Batch(p, n)], home + BatchHome(p, n))
  {
    var t, home' := lists[Free := Batch(p, n)], home + BatchHome(p, n);
    forall d | d in home' ensures home'[d] in t && d in t[home'[d]] {
      InBatch(p, n, d);
      assert d in home ==> d in lists[home[d]];
    }
    forall h, k | h in t && 0 <= k < |t[h]| ensures t[h][k] in home' && home'[t[h][k]] == h {
      InBatch(p, n, t[h][k]);
    }
  }

  lemma GrowLinked(lists: map<Home, seq<nat>>, home: map<nat, Home>, heads: map<Home, nat>,
                   next: map<nat, nat>, next': map<nat, nat>, p: nat, n: nat)
    requires Partition(lists, home) && Linked(lists, heads, next)
    requires Free in lists && lists[Free] == [] && 0 < p && 0 < n
    requires forall e :: e in home ==> e < p
    requires forall e :: e in next && e < p ==> e in next' && next'[e] == next[e]
    requires forall e :: p <= e < p + n ==> e in next' && next'[e] == if e + 1 < p + n then e + 1 else 0
    ensures Linked(lists[Free := Batch(p, n)], heads[Free := p], next')
  {
    var t := lists[Free := Batch(p, n)];
    forall g | g in t ensures g in heads[Free := p] && IsList(heads[Free := p][g], next', t[g]) {
      if g == Free {
        assert forall i :: 0 <= i < n ==> t[Free][i] == p + i;
      } else {
        assert IsList(heads[g], next, lists[g]);
        assert forall k :: 0 <= k < |lists[g]| ==> lists[g][k] in home;
      }
    }
  }
}
