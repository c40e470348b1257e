/**
 What the leak detector reports (leak_detector_impl.cc:214-270).
 */
module LeakReports {

  /** InternalLeakReport: an allocation size and a call stack of offsets. */
  datatype Report = Report(alloc_size_bytes: nat, call_stack: seq<nat>)

  /** An address inside the mapping is reported as its distance from the start of the mapping; any
      other address as itself. */
  predicate IsOffset(mapping_addr: nat, mapping_size: nat, ptr: nat, offset: nat) {
    if mapping_addr <= ptr < mapping_addr + mapping_size then
      offset < mapping_size && mapping_addr + offset == ptr
    else
      offset == ptr
  }

  /** So is every address of a call stack, in order. */
  predicate Relocated(mapping_addr: nat, mapping_size: nat, stack: seq<nat>, offsets: seq<nat>) {
    && |offsets| == |stack|
    && forall j :: 0 <= j < |stack| ==> IsOffset(mapping_addr, mapping_size, stack[j], offsets[j])
  }

  function TotalLength(found: seq<seq<Report>>): nat {
    if found == [] then 0 else TotalLength(found[..|found| - 1]) + |found[|found| - 1]|
  }

  /** Report k of part i comes after all parts before it. */
  ghost predicate InPlace(reports: seq<Report>, found: seq<seq<Report>>, i: int, k: int) {
    0 <= i < |found| && 0 <= k < |found[i]| ==>
      TotalLength(found[..i]) + k < |reports| && reports[TotalLength(found[..i]) + k] == found[i][k]
  }

  /** reports is all of found, part by part. */
  ghost predicate InOrder(reports: seq<Report>, found: seq<seq<Report>>) {
    |reports| == TotalLength(found) && forall i, k :: InPlace(reports, found, i, k)
  }

  lemma OneMorePart(reports: seq<Report>, found: seq<seq<Report>>, rs: seq<Report>)
    requires InOrder(reports, found)
    ensures InOrder(reports + rs, found + [rs])
  {
    var found' := found + [rs];
    assert found'[..|found|] == found;
    forall i, k ensures InPlace(reports + rs, found', i, k) {
      if 0 <= i < |found| {
        assert InPlace(reports, found, i, k) && found'[..i] == found[..i];
      }
    }
  }
}
