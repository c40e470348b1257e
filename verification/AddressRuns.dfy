/**
 Runs of the compact address map's operations, and when they are those of a plain finite map
 from addresses to sizes modulo 256 and hashes (compact_address_map.cc:74-140).
 */
module AddressRuns {
  import opened Options
  import opened AddressRadix
  import opened EntryLists
  import opened AddressUpdates

  /** The map after CompactAddressMap::Insert. */
  ghost function AfterInsert(m: map<nat, Info>, addr: nat, size: nat, hash: Option<nat>): map<nat, Info> {
    Unshadowed(m, addr)[Low(addr) := Info(size % 256, hash)]
  }

  /** The map after CompactAddressMap::FindAndRemove. */
  ghost function AfterFind(m: map<nat, Info>, addr: nat): map<nat, Info> {
    Unshadowed(m, addr) - {addr}
  }

  ghost predicate AllLow(m: map<nat, Info>) {
    forall a :: a in m ==> a < 0x10_0000_0000_0000
  }

  datatype Op = Insert(addr: nat, size: nat, hash: Option<nat>) | Find(addr: nat)

  /** What the operations find, and the map they leave. */
  ghost function Run(m: map<nat, Info>, ops: seq<Op>): (seq<Option<Info>>, map<nat, Info>)
    decreases |ops|
  {
    if ops == [] then ([], m)
    else
      match ops[0]
      case Insert(addr, size, hash) => Run(AfterInsert(m, addr, size, hash), ops[1..])
      case Find(addr) =>
        var (found, m') := Run(AfterFind(m, addr), ops[1..]);
        ([Held(m, addr)] + found, m')
  }

  /** The same of a plain map. */
  ghost function PlainRun(m: map<nat, Info>, ops: seq<Op>): (seq<Option<Info>>, map<nat, Info>)
    decreases |ops|
  {
    if ops == [] then ([], m)
    else
      match ops[0]
      case Insert(addr, size, hash) => PlainRun(m[addr := Info(size % 256, hash)], ops[1..])
      case Find(addr) =>
        var (found, m') := PlainRun(m - {addr}, ops[1..]);
        ([Held(m, addr)] + found, m')
  }

  lemma InsertIsPlain(m: map<nat, Info>, addr: nat, size: nat, hash: Option<nat>)
    requires AllLow(m)
    ensures AllLow(AfterInsert(m, addr, size, hash))
    ensures AfterInsert(m, addr, size, hash) == m[addr := Info(size % 256, hash)] <==> addr < 0x10_0000_0000_0000
  {
    LowDigits(addr);
    if addr >= 0x10_0000_0000_0000 {
      assert addr !in AfterInsert(m, addr, size, hash);
      assert addr in m[addr := Info(size % 256, hash)];
    }
  }

  /** A lookup of 2^52 or more is harmless only if its low part is in a cluster without entries. */
  lemma FindIsPlain(m: map<nat, Info>, addr: nat)
    requires AllLow(m)
    ensures AllLow(AfterFind(m, addr))
    ensures AfterFind(m, addr) == m - {addr}
      <==> addr < 0x10_0000_0000_0000 || forall a :: a in m ==> ClusterId(a) != ClusterId(Low(addr))
  {
    if addr >= 0x10_0000_0000_0000 {
      assert m - {addr} == m;
      forall a | a in m && ClusterId(a) == ClusterId(Low(addr)) ensures a !in AfterFind(m, addr) {
      }
      if forall a :: a in m ==> ClusterId(a) != ClusterId(Low(addr)) {
        assert AfterFind(m, addr) == m;
      }
    }
  }

  /** On addresses below 2^52, any run is that of a plain map. */
  lemma {:induction false} RunIsPlain(m: map<nat, Info>, ops: seq<Op>)
    requires AllLow(m) && forall i :: 0 <= i < |ops| ==> ops[i].addr < 0x10_0000_0000_0000
    ensures Run(m, ops) == PlainRun(m, ops)
    decreases |ops|
  {
    if ops != [] {
      match ops[0]
      case Insert(addr, size, hash) =>
        InsertIsPlain(m, addr, size, hash);
        RunIsPlain(m[addr := Info(size % 256, hash)], ops[1..]);
      case Find(addr) =>
        FindIsPlain(m, addr);
        RunIsPlain(m - {addr}, ops[1..]);
    }
  }

  /** An entry is found again exactly if its address is below 2^52. */
  lemma FoundAgain(m: map<nat, Info>, addr: nat, size: nat, hash: Option<nat>)
    requires AllLow(m)
    ensures Run(m, [Insert(addr, size, hash), Find(addr)]).0 == [Some(Info(size % 256, hash))]
      <==> addr < 0x10_0000_0000_0000
  {
    var ops := [Insert(addr, size, hash), Find(addr)];
    var m' := AfterInsert(m, addr, size, hash);
    assert ops[1..] == [Find(addr)] && [Find(addr)][1..] == [];
    InsertIsPlain(m, addr, size, hash);
    assert Run(m', [Find(addr)]).0 == [Held(m', addr)];
    assert Run(m, ops) == Run(m', [Find(addr)]);
  }

  /** What is inserted below 2^52 is found once, and the map is then as before without it. */
  lemma FindAfterInsert(m: map<nat, Info>, addr: nat, size: nat, hash: Option<nat>)
    requires AllLow(m)
    ensures var m1 := AfterInsert(m, addr, size, hash);
      var m2 := AfterFind(m1, addr);
      && (addr in m1 <==> addr < 0x10_0000_0000_0000) && (addr in m1 ==> m1[addr] == Info(size % 256, hash))
      && addr !in m2 && addr !in AfterFind(m2, addr)
      && (addr < 0x10_0000_0000_0000 ==> m2 == m - {addr} && AfterFind(m2, addr) == m - {addr})
  {
    InsertIsPlain(m, addr, size, hash);
  }

  /** What an operation at an address of 2^52 or more does: the entries in the megabyte of its low
      52 bits are hidden, and an insert stores its entry there. */
  lemma HighAddress(m: map<nat, Info>, addr: nat, size: nat, hash: Option<nat>, a: nat)
    requires AllLow(m) && addr >= 0x10_0000_0000_0000
    ensures var low := addr % 0x10_0000_0000_0000;
      var kept := a / 0x10_0000 != low / 0x10_0000;
      && Held(AfterFind(m, addr), a) == (if kept then Held(m, a) else None)
      && Held(AfterInsert(m, addr, size, hash), a)
         == if a == low then Some(Info(size % 256, hash)) else if kept then Held(m, a) else None
  {
  }

  /** Just looking up 2^52 loses the entry of address 0. */
  lemma LookupLosesAnEntry(info: Info)
    ensures AfterFind(map[0 := info], 0x10_0000_0000_0000) == map[]
  {
    assert Low(0x10_0000_0000_0000) == 0;
  }
}
